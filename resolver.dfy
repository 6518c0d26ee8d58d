/**
 * `extract_download_link` (terabox_downloader_bot/main.py:28-54) with the browser
 * replaced by what it reports: whether the page opened, whether the download
 * button became clickable, and, after the click and the settle wait, the
 * browser's `current_url` and `page_source`.
 */
module Resolver {
  import opened Wrappers
  import opened Text
  import opened Markup

  /** The domain token of the hosting service. */
  const ServiceToken := "terabox"

  /** What the browser session reports for one visit of the share link. */
  datatype PageVisit =
    | NavigationFailed                               // `driver.get(link)` raised; it is outside the `try`
    | ButtonNotClickable                             // the 15-second wait for the download button timed out
    | AutomationFailed                               // the click or a later browser call raised
    | Settled(currentUrl: string, pageSource: string) // the click happened and the page settled

  /** What `extract_download_link` gives back. */
  datatype Resolution =
    | Resolved(url: string)   // a string is returned
    | Unresolved              // `None` is returned, by the `except` or by falling off the end
    | Propagated              // an exception leaves the function

  /**
   * The test of the markup scan: a secure URL that looks like a download or
   * file endpoint, that is, some position of it begins `download` or `file`.
   */
  predicate Qualifies(m: string)
    ensures Qualifies(m) <==>
              && StartsWith(m, "https://")
              && exists i :: 0 <= i <= |m| && (StartsWith(m[i..], "download") || StartsWith(m[i..], "file"))
  {
    ContainsIff(m, "download");
    ContainsIff(m, "file");
    StartsWith(m, "https://") && (Contains(m, "download") || Contains(m, "file"))
  }

  /** The first element of `ms` that qualifies, if there is one. */
  function FirstQualifying(ms: seq<string>): (r: Option<string>)
    ensures r.None? <==> forall k :: 0 <= k < |ms| ==> !Qualifies(ms[k])
    ensures r.Some? ==> exists k :: 0 <= k < |ms| && ms[k] == r.value && Qualifies(ms[k])
                                 && forall j :: 0 <= j < k ==> !Qualifies(ms[j])
    decreases |ms|
  {
    if |ms| == 0 then None
    else if Qualifies(ms[0]) then Some(ms[0])
    else
      var r := FirstQualifying(ms[1..]);
      assert forall k :: 1 <= k < |ms| ==> ms[k] == ms[1..][k - 1];
      r
  }

  /** An element that qualifies, with none before it qualifying, is the one chosen. */
  lemma {:induction false} FirstQualifyingAt(ms: seq<string>, k: nat)
    requires k < |ms| && Qualifies(ms[k])
    requires forall j :: 0 <= j < k ==> !Qualifies(ms[j])
    ensures FirstQualifying(ms) == Some(ms[k])
    decreases k
  {
    if k > 0 {
      FirstQualifyingAt(ms[1..], k - 1);
    }
  }

  /** The outcome of `extract_download_link` for a visit. */
  function Resolve(visit: PageVisit): (r: Resolution)
    ensures r.Propagated? <==> visit.NavigationFailed?
    ensures visit.ButtonNotClickable? || visit.AutomationFailed? ==> r == Unresolved
    ensures visit.Settled? && !Contains(visit.currentUrl, ServiceToken) ==> r == Resolved(visit.currentUrl)
    ensures visit.Settled? && Contains(visit.currentUrl, ServiceToken) ==>
              var ms := Hrefs(visit.pageSource);
              && (r.Unresolved? <==> forall k :: 0 <= k < |ms| ==> !Qualifies(ms[k]))
              && (r.Resolved? ==> exists k :: 0 <= k < |ms| && ms[k] == r.url && Qualifies(ms[k])
                                           && forall j :: 0 <= j < k ==> !Qualifies(ms[j]))
  {
    match visit
    case NavigationFailed => Propagated
    case ButtonNotClickable => Unresolved
    case AutomationFailed => Unresolved
    case Settled(url, page) =>
      if !Contains(url, ServiceToken) then Resolved(url)
      else
        match FirstQualifying(Hrefs(page))
        case Some(m) => Resolved(m)
        case None => Unresolved
  }

  /** The redirect rule never consults the page: two pages at the same redirected URL resolve alike. */
  lemma RedirectIgnoresPage(url: string, page1: string, page2: string)
    requires !Contains(url, ServiceToken)
    ensures Resolve(Settled(url, page1)) == Resolve(Settled(url, page2)) == Resolved(url)
  {
  }

  /** Whatever the markup scan returns is a secure download or file URL captured from the page. */
  lemma ScanResultShape(url: string, page: string)
    requires Contains(url, ServiceToken)
    requires Resolve(Settled(url, page)).Resolved?
    ensures var u := Resolve(Settled(url, page)).url;
            StartsWith(u, "https://") && (Contains(u, "download") || Contains(u, "file"))
            && IsToken(u) && Contains(page, u)
  {
    var ms := Hrefs(page);
    var k :| 0 <= k < |ms| && ms[k] == Resolve(Settled(url, page)).url;
    HrefsOccur(page, k);
  }

  /**
   * On a page of anchors, the first anchor whose URL passes the test is the
   * result, whatever anchors follow it.
   */
  lemma EmbeddedLinkFound(url: string, urls: seq<string>, i: nat)
    requires Contains(url, ServiceToken)
    requires forall k :: 0 <= k < |urls| ==> IsToken(urls[k])
    requires i < |urls| && Qualifies(urls[i])
    requires forall j :: 0 <= j < i ==> !Qualifies(urls[j])
    ensures Resolve(Settled(url, Anchors(urls))) == Resolved(urls[i])
  {
    HrefsOfAnchors(urls);
    FirstQualifyingAt(urls, i);
  }

  /**
   * The body of `extract_download_link` after the browser work: the redirect
   * test, then the `for match in matches` loop with its early return.
   */
  method ExtractDownloadLink(visit: PageVisit) returns (r: Resolution)
    ensures r == Resolve(visit)
  {
    match visit {
      case NavigationFailed =>
        return Propagated;
      case ButtonNotClickable =>
        return Unresolved;
      case AutomationFailed =>
        return Unresolved;
      case Settled(currentUrl, pageSource) =>
        if !Contains(currentUrl, ServiceToken) {
          return Resolved(currentUrl);
        }
        var matches := Hrefs(pageSource);
        var i := 0;
        while i < |matches|
          invariant 0 <= i <= |matches|
          invariant FirstQualifying(matches[i..]) == FirstQualifying(matches)
        {
          if Qualifies(matches[i]) {
            return Resolved(matches[i]);
          }
          assert matches[i..][1..] == matches[i + 1..];
          i := i + 1;
        }
        return Unresolved;
    }
  }
}
