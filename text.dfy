/**
 * The string operations of Python that the bot relies on: `s.startswith(p)`,
 * `p in s` and `s.split(sep)` for a one-character separator.
 */
module Text {

  /** `s.startswith(p)` */
  predicate StartsWith(s: string, p: string)
  {
    |p| <= |s| && s[..|p|] == p
  }

  /** `p in s`, computed as a left-to-right search for a position where `p` begins. */
  predicate Contains(s: string, p: string)
    decreases |s|
  {
    StartsWith(s, p) || (|s| > 0 && Contains(s[1..], p))
  }

  /** The search agrees with the definition of a substring: some position of `s` begins `p`. */
  lemma {:induction false} ContainsIff(s: string, p: string)
    ensures Contains(s, p) <==> exists i :: 0 <= i <= |s| && StartsWith(s[i..], p)
  {
    if StartsWith(s, p) {
      assert s[0..] == s;
    } else if |s| == 0 {
      forall i | 0 <= i <= |s| ensures !StartsWith(s[i..], p) {
        assert s[i..] == s;
      }
    } else {
      ContainsIff(s[1..], p);
      if Contains(s[1..], p) {
        var i :| 0 <= i <= |s[1..]| && StartsWith(s[1..][i..], p);
        assert s[1..][i..] == s[i + 1..];
      } else {
        forall i | 0 <= i <= |s| ensures !StartsWith(s[i..], p) {
          if i == 0 {
            assert s[0..] == s;
          } else {
            assert s[1..][i - 1..] == s[i..];
          }
        }
      }
    }
  }

  /** An occurrence of `p` inside `a + p + b` is found by the search. */
  lemma ContainsInfix(a: string, p: string, b: string)
    ensures Contains(a + p + b, p)
  {
    var s := a + p + b;
    assert StartsWith(s[|a|..], p) by {
      assert s[|a|..][..|p|] == p;
    }
    ContainsIff(s, p);
  }

  /** An occurrence in `b` is also an occurrence in `a + b`. */
  lemma ContainsSuffix(a: string, b: string, p: string)
    requires Contains(b, p)
    ensures Contains(a + b, p)
  {
    ContainsIff(b, p);
    var i :| 0 <= i <= |b| && StartsWith(b[i..], p);
    assert (a + b)[|a| + i..] == b[i..];
    ContainsIff(a + b, p);
  }

  /**
   * `s.split(sep)`: the pieces of `s` between occurrences of `sep`. There is always
   * at least one piece, and no piece contains the separator.
   */
  function Split(s: string, sep: char): (parts: seq<string>)
    ensures |parts| >= 1
    ensures forall k :: 0 <= k < |parts| ==> sep !in parts[k]
    ensures forall k, c :: 0 <= k < |parts| && c in parts[k] ==> c in s
    decreases |s|
  {
    if |s| == 0 then [""]
    else
      var rest := Split(s[1..], sep);
      assert forall c :: c in s[1..] ==> c in s;
      if s[0] == sep then [""] + rest else [[s[0]] + rest[0]] + rest[1..]
  }

  /** `sep.join(parts)` */
  function Join(parts: seq<string>, sep: char): string
    requires |parts| >= 1
    decreases |parts|
  {
    if |parts| == 1 then parts[0] else parts[0] + [sep] + Join(parts[1..], sep)
  }

  lemma {:induction false} JoinConsHead(c: char, parts: seq<string>, sep: char)
    requires |parts| >= 1
    ensures Join([[c] + parts[0]] + parts[1..], sep) == [c] + Join(parts, sep)
  {
    var q := [[c] + parts[0]] + parts[1..];
    assert q[1..] == parts[1..];
  }

  /** Splitting and joining again gives back the string. */
  lemma {:induction false} JoinSplit(s: string, sep: char)
    ensures Join(Split(s, sep), sep) == s
    decreases |s|
  {
    if |s| == 0 {
    } else if s[0] == sep {
      JoinSplit(s[1..], sep);
      var parts := [""] + Split(s[1..], sep);
      assert parts[1..] == Split(s[1..], sep);
      assert s == [sep] + s[1..];
    } else {
      var rest := Split(s[1..], sep);
      JoinSplit(s[1..], sep);
      JoinConsHead(s[0], rest, sep);
      assert s == [s[0]] + s[1..];
    }
  }

  /** A separator-free head is read as the first piece. */
  lemma {:induction false} SplitFreeHead(x: string, rest: string, sep: char)
    requires sep !in x
    ensures Split(x + rest, sep) == [x + Split(rest, sep)[0]] + Split(rest, sep)[1..]
    decreases |x|
  {
    if |x| == 0 {
      var pieces := Split(rest, sep);
      assert x + rest == rest && x + pieces[0] == pieces[0];
      assert pieces == [pieces[0]] + pieces[1..];
    } else {
      var s := x + rest;
      assert s[0] == x[0] && s[1..] == x[1..] + rest;
      SplitFreeHead(x[1..], rest, sep);
      assert [x[0]] + (x[1..] + Split(rest, sep)[0]) == x + Split(rest, sep)[0];
    }
  }

  /** Joining separator-free pieces and splitting again gives back the pieces. */
  lemma {:induction false} SplitJoin(parts: seq<string>, sep: char)
    requires |parts| >= 1
    requires forall k :: 0 <= k < |parts| ==> sep !in parts[k]
    ensures Split(Join(parts, sep), sep) == parts
    decreases |parts|
  {
    if |parts| == 1 {
      SplitFreeHead(parts[0], "", sep);
      assert parts[0] + "" == parts[0];
    } else {
      var tail := Join(parts[1..], sep);
      SplitJoin(parts[1..], sep);
      SplitFreeHead(parts[0], [sep] + tail, sep);
      assert parts[0] + [sep] + tail == parts[0] + ([sep] + tail);
      var u := [sep] + tail;
      assert u[0] == sep && u[1..] == tail;
      assert Split(u, sep) == [""] + Split(tail, sep);
      assert parts[0] + "" == parts[0];
      assert [parts[0]] + parts[1..] == parts;
    }
  }

  /** A string without the separator is a single piece. */
  lemma SplitFree(x: string, sep: char)
    requires sep !in x
    ensures Split(x, sep) == [x]
  {
    SplitFreeHead(x, "", sep);
    assert x + "" == x;
  }

  /** The first piece is the text before the first separator (all of `s` if there is none). */
  lemma {:induction false} SplitHead(s: string, sep: char) returns (j: nat)
    ensures j <= |s| && Split(s, sep)[0] == s[..j]
    ensures j == |s| || s[j] == sep
    decreases |s|
  {
    if |s| == 0 || s[0] == sep {
      j := 0;
    } else {
      var j' := SplitHead(s[1..], sep);
      j := j' + 1;
      assert [s[0]] + s[1..][..j'] == s[..j];
    }
  }

  /** The last piece is the text after the last separator (all of `s` if there is none). */
  lemma {:induction false} SplitLast(s: string, sep: char) returns (i: nat)
    ensures i <= |s| && Split(s, sep)[|Split(s, sep)| - 1] == s[i..]
    ensures i == 0 || s[i - 1] == sep
    decreases |s|
  {
    if |s| == 0 {
      i := 0;
    } else {
      var rest := Split(s[1..], sep);
      var i' := SplitLast(s[1..], sep);
      assert s[1..][i'..] == s[i' + 1..];
      if s[0] == sep {
        i := i' + 1;
        if i' > 0 {
          assert s[i'] == s[1..][i' - 1];
        }
      } else if |rest| == 1 {
        JoinSplit(s[1..], sep);
        i := 0;
        assert [s[0]] + s[1..] == s;
      } else {
        if i' == 0 {
          SplitFree(s[1..], sep);
          assert false;
        }
        i := i' + 1;
        assert s[i'] == s[1..][i' - 1];
      }
    }
  }
}
