/**
 * `int(r.headers.get('content-length', 0))` (terabox_downloader_bot/main.py:60):
 * Python's `int()` on a header value, restricted to ASCII. It ignores
 * surrounding whitespace, takes an optional sign, and accepts decimal digits
 * with single underscores between them; anything else raises `ValueError`.
 * A numeral of more digits than CPython's default conversion limit raises too.
 */
module ContentLength {
  import opened Wrappers

  /** The ASCII characters `int()` strips around a numeral. */
  predicate IsSpace(c: char)
  {
    c == ' ' || c == '\t' || c == '\n' || c == '\r' || c == '\U{0B}' || c == '\U{0C}'
  }

  predicate IsDigit(c: char)
  {
    '0' <= c <= '9'
  }

  function TrimStart(s: string): string
    decreases |s|
  {
    if |s| > 0 && IsSpace(s[0]) then TrimStart(s[1..]) else s
  }

  function TrimEnd(s: string): string
    decreases |s|
  {
    if |s| > 0 && IsSpace(s[|s| - 1]) then TrimEnd(s[..|s| - 1]) else s
  }

  /** `s.strip()` for the ASCII whitespace above. */
  function Strip(s: string): string
  {
    TrimEnd(TrimStart(s))
  }

  /** A numeral `digit ("_"? digit)*`. */
  predicate IsNumeral(s: string)
  {
    && |s| > 0
    && IsDigit(s[0])
    && IsDigit(s[|s| - 1])
    && forall k :: 0 <= k < |s| ==> IsDigit(s[k]) || (s[k] == '_' && k + 1 < |s| && IsDigit(s[k + 1]))
  }

  /** CPython's default limit on the digits `int()` converts from a string (`sys.get_int_max_str_digits()`). */
  const MaxStrDigits := 4300

  /** The number of decimal digits in `s`; signs, underscores and spaces do not count. */
  function DigitCount(s: string): nat
    decreases |s|
  {
    if |s| == 0 then 0 else (if IsDigit(s[0]) then 1 else 0) + DigitCount(s[1..])
  }

  function DigitValue(c: char): nat
    requires IsDigit(c)
  {
    c as int - '0' as int
  }

  /** The decimal value of the digits of `s`, underscores skipped. */
  function Value(s: string): nat
    decreases |s|
  {
    if |s| == 0 then 0
    else
      var c := s[|s| - 1];
      if IsDigit(c) then 10 * Value(s[..|s| - 1]) + DigitValue(c) else Value(s[..|s| - 1])
  }

  /**
   * `int(s)`: `None` stands for the `ValueError` it raises. Blank input and
   * input with more digits than the limit are refused.
   */
  function ParseInt(s: string): (r: Option<int>)
    ensures Strip(s) == "" ==> r == None
    ensures DigitCount(Strip(s)) > MaxStrDigits ==> r == None
  {
    var t := Strip(s);
    var signed := |t| > 0 && (t[0] == '+' || t[0] == '-');
    var digits := if signed then t[1..] else t;
    var magnitude: int := Value(digits);
    if !IsNumeral(digits) || DigitCount(digits) > MaxStrDigits then None
    else if signed && t[0] == '-' then Some(-magnitude)
    else Some(magnitude)
  }

  function Digit(d: nat): (c: char)
    requires d < 10
    ensures IsDigit(c) && DigitValue(c) == d
  {
    ('0' as int + d) as char
  }

  /** `str(n)` for a natural number. */
  function DecimalString(n: nat): (s: string)
    ensures |s| > 0 && forall k :: 0 <= k < |s| ==> IsDigit(s[k])
  {
    if n < 10 then [Digit(n)] else DecimalString(n / 10) + [Digit(n % 10)]
  }

  /** `str(i)`, the form a server writes a length in. */
  function IntToString(i: int): string
  {
    if i < 0 then "-" + DecimalString(-i) else DecimalString(i)
  }

  /** `i` is written with at most `MaxStrDigits` digits, so `int()` converts its decimal form. */
  predicate WithinDigitLimit(i: int)
  {
    |DecimalString(if i < 0 then -i else i)| <= MaxStrDigits
  }

  lemma {:induction false} DigitCountOfDigits(s: string)
    requires forall k :: 0 <= k < |s| ==> IsDigit(s[k])
    ensures DigitCount(s) == |s|
    decreases |s|
  {
    if |s| > 0 {
      DigitCountOfDigits(s[1..]);
    }
  }

  lemma {:induction false} ValueOfDecimal(n: nat)
    ensures Value(DecimalString(n)) == n
  {
    if n >= 10 {
      var s := DecimalString(n);
      ValueOfDecimal(n / 10);
      assert s[..|s| - 1] == DecimalString(n / 10);
    }
  }

  /** Parsing the decimal form of a number within the digit limit gives the number back. */
  lemma ParseIntRoundTrip(i: int)
    requires WithinDigitLimit(i)
    ensures ParseInt(IntToString(i)) == Some(i)
  {
    var s := IntToString(i);
    var d := if i < 0 then DecimalString(-i) else DecimalString(i);
    DigitCountOfDigits(d);
    assert TrimStart(s) == s;
    assert TrimEnd(s) == s;
    ValueOfDecimal(if i < 0 then -i else i);
    if i < 0 {
      assert s[1..] == d;
    }
  }

  /** The same, for every number at once. */
  lemma ParseIntRoundTripAll()
    ensures forall i :: WithinDigitLimit(i) ==> ParseInt(IntToString(i)) == Some(i)
  {
    forall i | WithinDigitLimit(i) ensures ParseInt(IntToString(i)) == Some(i) {
      ParseIntRoundTrip(i);
    }
  }

  /** A trailing space is stripped whatever precedes it. */
  lemma {:induction false} StripAppendSpace(s: string, c: char)
    requires IsSpace(c)
    ensures Strip(s + [c]) == Strip(s)
    decreases |s|
  {
    if |s| > 0 && IsSpace(s[0]) {
      assert (s + [c])[1..] == s[1..] + [c];
      StripAppendSpace(s[1..], c);
    } else if |s| > 0 {
      var t := s + [c];
      assert t[0] == s[0] && TrimStart(t) == t && TrimStart(s) == s;
      assert t[|t| - 1] == c && t[..|t| - 1] == s;
      assert TrimEnd(t) == TrimEnd(s);
    } else {
      assert s + [c] == [c] && ([c])[1..] == [];
    }
  }

  /** Whitespace around the numeral does not change what `int()` gives. */
  lemma ParseIntIgnoresPadding(a: char, s: string, b: char)
    requires IsSpace(a) && IsSpace(b)
    ensures ParseInt([a] + s + [b]) == ParseInt(s)
  {
    assert ([a] + s + [b])[1..] == s + [b];
    StripAppendSpace(s, b);
  }
}
