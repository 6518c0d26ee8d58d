/**
 * `main()` (terabox_downloader_bot/main.py:75-98) after the prompt: the link
 * gate, one browser session, resolution, the derived file name and the
 * download.
 */
module Bot {
  import opened Text
  import opened Platform
  import opened Markup
  import opened Resolver
  import opened Naming
  import opened Downloader

  /** How one run of the bot ends. */
  datatype RunOutcome =
    | InvalidLink             // the link lacks the service token; nothing else happens
    | Crashed                 // an exception escaped `extract_download_link`
    | NoDownloadUrl           // no URL, or an empty one (`if download_url:` is false)
    | Attempted(url: string, filename: string, download: Downloader.Outcome)

  /** The run `main` performs for a link, the browser's report and the server's response. */
  function Predicted(link: string, visit: PageVisit, fetch: Fetch): RunOutcome
  {
    if !Contains(link, ServiceToken) then InvalidLink
    else match Resolve(visit)
      case Propagated => Crashed
      case Unresolved => NoDownloadUrl
      case Resolved(url) =>
        if url == "" then NoDownloadUrl
        else
          var name := FileNameOf(url);
          Attempted(url, name, Expected(fetch, name))
  }

  /** The files after a run: only an attempted download that opens its file changes them. */
  function FilesAfter(files: map<string, seq<byte>>, o: RunOutcome, fetch: Fetch): map<string, seq<byte>>
  {
    if o.Attempted? && Opens(fetch, o.filename) then files[o.filename := Concat(fetch.response.chunks)]
    else files
  }

  /** A rejected link launches no browser and writes nothing. */
  lemma GateRejects(link: string, visit: PageVisit, fetch: Fetch, files: map<string, seq<byte>>)
    requires !Contains(link, ServiceToken)
    ensures Predicted(link, visit, fetch) == InvalidLink
    ensures FilesAfter(files, Predicted(link, visit, fetch), fetch) == files
  {
  }

  /**
   * A download is attempted only for a non-empty URL that either left the
   * service's domain or is a qualifying value captured from the page; the file
   * it is saved under is that URL's last path segment without its query.
   */
  lemma AttemptedTarget(link: string, visit: PageVisit, fetch: Fetch)
    requires Predicted(link, visit, fetch).Attempted?
    ensures var o := Predicted(link, visit, fetch);
            && Contains(link, ServiceToken)
            && visit.Settled?
            && o.url != ""
            && (if Contains(visit.currentUrl, ServiceToken)
                then Qualifies(o.url) && o.url in Hrefs(visit.pageSource)
                else o.url == visit.currentUrl)
            && '/' !in o.filename && '?' !in o.filename
            && exists i, j :: NameAt(o.url, i, j) && o.filename == o.url[i..j]
  {
    var o := Predicted(link, visit, fetch);
    var i, j := FileNameLocated(o.url);
  }

  /** `main()`: the gate, `setup_browser`, `extract_download_link`, the name and `download_file`. */
  method Run(host: Host, link: string, visit: PageVisit, fetch: Fetch) returns (o: RunOutcome)
    modifies host
    ensures o == Predicted(link, visit, fetch)
    ensures host.browsersLaunched == old(host.browsersLaunched) + (if Contains(link, ServiceToken) then 1 else 0)
    ensures host.files == FilesAfter(old(host.files), o, fetch)
  {
    if !Contains(link, ServiceToken) {
      return InvalidLink;
    }
    host.SetupBrowser();
    var resolution := ExtractDownloadLink(visit);
    match resolution {
      case Propagated =>
        return Crashed;
      case Unresolved =>
        return NoDownloadUrl;
      case Resolved(url) =>
        if url == "" {
          return NoDownloadUrl;
        }
        var name := FileNameOf(url);
        var result, _ := DownloadFile(host, fetch, name);
        return Attempted(url, name, result);
    }
  }

  /** Running the download twice leaves the files as one run does: `'wb'` overwrites. */
  method DownloadTwice(host: Host, fetch: Fetch, path: string) returns (outcome: Downloader.Outcome)
    modifies host
    ensures outcome == Expected(fetch, path)
    ensures host.files == if Opens(fetch, path) then old(host.files)[path := Concat(fetch.response.chunks)]
                          else old(host.files)
    ensures host.browsersLaunched == old(host.browsersLaunched)
  {
    var first, bar := DownloadFile(host, fetch, path);
    outcome, bar := DownloadFile(host, fetch, path);
  }
}
