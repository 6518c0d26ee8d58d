/**
 * The markup scan `re.findall(r'href=[\'"]?([^\'" >]+)', page_source)`
 * (terabox_downloader_bot/main.py:47) written as a tokenizer.
 *
 * At a position the pattern matches when the text there begins with `href=`,
 * optionally followed by one quote, followed by a non-empty run of characters
 * other than a quote, a space and `>`. The run is greedy and nothing follows it
 * in the pattern, so the captured value is the longest such run. Giving the
 * quote back never helps, because a quote cannot start the run. `findall`
 * tries positions left to right, resumes one character later where nothing
 * matches and at the end of the match where something does.
 */
module Markup {
  import opened Wrappers
  import opened Text

  /** The characters excluded by `[^'" >]`. */
  predicate IsStop(c: char)
  {
    c == '\'' || c == '"' || c == ' ' || c == '>'
  }

  /** The characters `['"]?` may skip. */
  predicate IsQuote(c: char)
  {
    c == '\'' || c == '"'
  }

  /** A value `([^'" >]+)` can capture. */
  predicate IsToken(t: string)
  {
    |t| > 0 && forall k :: 0 <= k < |t| ==> !IsStop(t[k])
  }

  /** The greedy run `[^'" >]*` at the start of `s`. */
  function Run(s: string): (r: string)
    ensures |r| <= |s| && r == s[..|r|]
    ensures forall k :: 0 <= k < |r| ==> !IsStop(r[k])
    ensures |r| == |s| || IsStop(s[|r|])
    decreases |s|
  {
    if |s| == 0 || IsStop(s[0]) then [] else [s[0]] + Run(s[1..])
  }

  /** When `u` holds no stop character and `t` cannot continue it, the run of `u + t` is `u`. */
  lemma RunOfToken(u: string, t: string)
    requires forall k :: 0 <= k < |u| ==> !IsStop(u[k])
    requires t == [] || IsStop(t[0])
    ensures Run(u + t) == u
  {
    var s := u + t;
    assert s[..|u|] == u;
  }

  /** A match of the pattern at the start of a text: the skipped quote, the captured value, and the text after the match. */
  datatype Match = Match(quote: string, token: string, rest: string)

  /** `s` is `href=`, an optional quote, a captured value and the rest, with the value maximal. */
  predicate IsMatch(s: string, quote: string, token: string, rest: string)
  {
    (quote == "" || (|quote| == 1 && IsQuote(quote[0])))
    && IsToken(token)
    && (rest == [] || IsStop(rest[0]))
    && s == "href=" + quote + token + rest
  }

  /** The pattern tried at the start of `s` (one step of `findall`). */
  function MatchHere(s: string): (m: Option<Match>)
    ensures m.Some? ==> IsMatch(s, m.value.quote, m.value.token, m.value.rest)
  {
    if !StartsWith(s, "href=") then None
    else
      var t := s[5..];
      var quote := if |t| > 0 && IsQuote(t[0]) then t[..1] else "";
      var v := t[|quote|..];
      var token := Run(v);
      if |token| == 0 then None
      else
        assert s == s[..5] + quote + v;
        assert v == token + v[|token|..];
        Some(Match(quote, token, v[|token|..]))
  }

  /** Every way of reading `s` as a match is the one `MatchHere` finds. */
  lemma MatchHereComplete(s: string, quote: string, token: string, rest: string)
    requires IsMatch(s, quote, token, rest)
    ensures MatchHere(s) == Some(Match(quote, token, rest))
  {
    assert s[..5] == "href=";
    var t := s[5..];
    assert t == quote + token + rest;
    if quote == "" {
      assert !IsQuote(t[0]) by { assert t[0] == token[0]; }
      assert t[0..] == t && t == token + rest;
      RunOfToken(token, rest);
      assert t[|token|..] == rest;
    } else {
      assert t[..1] == quote;
      assert t[1..] == token + rest;
      RunOfToken(token, rest);
      assert t[1..][|token|..] == rest;
    }
  }

  /** `re.findall` of the pattern over `s`: the captured values in document order. */
  function Hrefs(s: string): (tokens: seq<string>)
    ensures forall k :: 0 <= k < |tokens| ==> IsToken(tokens[k])
    decreases |s|
  {
    if |s| == 0 then []
    else match MatchHere(s)
      case Some(m) => [m.token] + Hrefs(m.rest)
      case None => Hrefs(s[1..])
  }

  /** Markup without any `href=` yields no values. */
  lemma {:induction false} HrefsNeedHref(s: string)
    requires !Contains(s, "href=")
    ensures Hrefs(s) == []
    decreases |s|
  {
    if |s| > 0 {
      HrefsNeedHref(s[1..]);
    }
  }

  /** A character that cannot begin `href=` is passed over. */
  lemma SkipChar(c: char, s: string)
    requires c != 'h'
    ensures Hrefs([c] + s) == Hrefs(s)
  {
    var x := [c] + s;
    assert !StartsWith(x, "href=") by {
      if 5 <= |x| {
        assert x[..5][0] == c;
      }
    }
    assert MatchHere(x) == None;
    assert x[1..] == s;
  }

  /** The anchor `<a href="u">` of a page. */
  function Anchor(u: string): string
  {
    "<a href=\"" + u + "\">"
  }

  /** A page made of one anchor per URL, in order. */
  function Anchors(urls: seq<string>): string
  {
    if |urls| == 0 then "" else Anchor(urls[0]) + Anchors(urls[1..])
  }

  /** A match is captured and the scan resumes after it. */
  lemma HrefsAfterMatch(s: string, quote: string, token: string, rest: string)
    requires IsMatch(s, quote, token, rest)
    ensures Hrefs(s) == [token] + Hrefs(rest)
  {
    MatchHereComplete(s, quote, token, rest);
  }

  /** The scan passes over the opening `<a ` of an anchor. */
  lemma SkipAnchorOpen(s: string)
    ensures Hrefs("<a " + s) == Hrefs(s)
  {
    var x2 := [' '] + s;
    var x1 := ['a'] + x2;
    assert "<a " + s == ['<'] + x1;
    SkipChar('<', x1);
    SkipChar('a', x2);
    SkipChar(' ', s);
  }

  /** The scan passes over the closing `">` of an anchor. */
  lemma SkipAnchorClose(after: string)
    ensures Hrefs("\">" + after) == Hrefs(after)
  {
    var x := ['>'] + after;
    assert "\">" + after == ['"'] + x;
    SkipChar('"', x);
    SkipChar('>', after);
  }

  /** The scan of one anchor captures its URL and resumes after it. */
  lemma HrefsOfAnchor(u: string, after: string)
    requires IsToken(u)
    ensures Hrefs(Anchor(u) + after) == [u] + Hrefs(after)
  {
    var rest := "\">" + after;
    var s := "href=" + "\"" + u + rest;
    assert Anchor(u) + after == "<a " + s;
    SkipAnchorOpen(s);
    HrefsAfterMatch(s, "\"", u, rest);
    SkipAnchorClose(after);
  }

  /** Scanning a page of anchors gives back exactly their URLs, in document order. */
  lemma {:induction false} HrefsOfAnchors(urls: seq<string>)
    requires forall k :: 0 <= k < |urls| ==> IsToken(urls[k])
    ensures Hrefs(Anchors(urls)) == urls
    decreases |urls|
  {
    if |urls| > 0 {
      HrefsOfAnchor(urls[0], Anchors(urls[1..]));
      HrefsOfAnchors(urls[1..]);
      assert [urls[0]] + urls[1..] == urls;
    }
  }

  /** The value of a match occurs in the text it was read from. */
  lemma MatchTokenOccurs(page: string, m: Match)
    requires IsMatch(page, m.quote, m.token, m.rest)
    ensures Contains(page, m.token)
  {
    ContainsInfix("href=" + m.quote, m.token, m.rest);
  }

  /** Whatever occurs after a match occurs in the text it was read from. */
  lemma MatchRestOccurs(page: string, m: Match, t: string)
    requires IsMatch(page, m.quote, m.token, m.rest)
    requires Contains(m.rest, t)
    ensures Contains(page, t)
  {
    assert page == ("href=" + m.quote + m.token) + m.rest;
    ContainsSuffix("href=" + m.quote + m.token, m.rest, t);
  }

  /** One step of the scan: a match is captured, otherwise one character is passed over. */
  lemma HrefsStep(page: string)
    requires |page| > 0
    ensures MatchHere(page).Some? ==>
              Hrefs(page) == [MatchHere(page).value.token] + Hrefs(MatchHere(page).value.rest)
    ensures MatchHere(page).None? ==> Hrefs(page) == Hrefs(page[1..])
  {
  }

  /** Whatever occurs after the first character occurs in the text. */
  lemma SkippedOccurs(page: string, t: string)
    requires |page| > 0 && Contains(page[1..], t)
    ensures Contains(page, t)
  {
    assert page == [page[0]] + page[1..];
    ContainsSuffix([page[0]], page[1..], t);
  }

  /** Every captured value occurs in the page it was captured from. */
  lemma {:induction false} HrefsOccur(page: string, k: nat)
    requires k < |Hrefs(page)|
    ensures Contains(page, Hrefs(page)[k])
    decreases |page|
  {
    if |page| > 0 {
      HrefsStep(page);
      var found := MatchHere(page);
      if found.Some? {
        var m := found.value;
        if k == 0 {
          MatchTokenOccurs(page, m);
        } else {
          HrefsOccur(m.rest, k - 1);
          MatchRestOccurs(page, m, Hrefs(m.rest)[k - 1]);
        }
      } else {
        HrefsOccur(page[1..], k);
        SkippedOccurs(page, Hrefs(page[1..])[k]);
      }
    }
  }
}
