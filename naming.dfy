/**
 * The local file name the bot derives from the resolved URL,
 * `download_url.split("/")[-1].split("?")[0]` (terabox_downloader_bot/main.py:92).
 */
module Naming {
  import opened Text

  /** The piece after the last `/`, cut before its first `?`. */
  function FileNameOf(url: string): (name: string)
    ensures '/' !in name && '?' !in name
  {
    var segments := Split(url, '/');
    Split(segments[|segments| - 1], '?')[0]
  }

  /**
   * `url[i..j]` is the final path segment without its query: it starts at the
   * beginning or just after a `/`, no `/` follows it, it holds no `?`, and it
   * ends at the end of the URL or at a `?`.
   */
  ghost predicate NameAt(url: string, i: int, j: int)
  {
    0 <= i <= j <= |url|
    && (i == 0 || url[i - 1] == '/')
    && '/' !in url[i..]
    && '?' !in url[i..j]
    && (j == |url| || url[j] == '?')
  }

  /** The derived name is such a segment of the URL. */
  lemma FileNameLocated(url: string) returns (i: nat, j: nat)
    ensures NameAt(url, i, j) && FileNameOf(url) == url[i..j]
  {
    i := SplitLast(url, '/');
    var segments := Split(url, '/');
    var last := url[i..];
    assert '/' !in last by {
      assert segments[|segments| - 1] == last;
    }
    var k := SplitHead(last, '?');
    j := i + k;
    assert last[..k] == url[i..j];
    assert j < |url| ==> url[j] == last[k];
  }

  /** The segment is unique. */
  lemma NameAtUnique(url: string, i: int, j: int, i2: int, j2: int)
    requires NameAt(url, i, j) && NameAt(url, i2, j2)
    ensures i == i2 && j == j2
  {
  }

  /** The derived name is exactly the final path segment without its query. */
  lemma FileNameIsSegment(url: string, i: int, j: int)
    ensures NameAt(url, i, j) ==> FileNameOf(url) == url[i..j]
  {
    var i', j' := FileNameLocated(url);
    if NameAt(url, i, j) {
      NameAtUnique(url, i, j, i', j');
    }
  }
}
