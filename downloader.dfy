/**
 * `download_file(url, output_path)` (terabox_downloader_bot/main.py:56-73),
 * given the response the server sends for `url`.
 */
module Downloader {
  import opened Wrappers
  import opened Platform
  import ContentLength

  /** A streamed HTTP response: the chunks `iter_content` delivers, and whether the stream then fails. */
  datatype Response = Response(
    status: int,
    contentLength: Option<string>,
    chunks: seq<seq<byte>>,
    interrupted: bool)

  /** What `requests.get(url, stream=True)` gives. */
  datatype Fetch = ConnectFailed | Responded(response: Response)

  /** Why a download failed; in the source each is an exception caught by one `except`. */
  datatype Failure =
    | ConnectionError       // `requests.get` raised
    | HttpError(status: int) // `raise_for_status` raised
    | BadContentLength      // `int(...)` of the header raised
    | CannotOpen            // `open(output_path, 'wb')` raised
    | Interrupted           // the stream raised after some chunks

  datatype Outcome = Completed(path: string) | Failed(failure: Failure)

  /** The statuses `raise_for_status` reports as a client error. */
  predicate IsClientError(status: int)
  {
    400 <= status < 500
  }

  /** The statuses `raise_for_status` reports as a server error. */
  predicate IsServerError(status: int)
  {
    500 <= status < 600
  }

  /** `raise_for_status` raises for client and server errors and for nothing else. */
  function RaisesForStatus(status: int): (raises: bool)
    ensures raises <==> 400 <= status < 600
  {
    IsClientError(status) || IsServerError(status)
  }

  /**
   * The declared size handed to the progress bar: `int(r.headers.get('content-length', 0))`,
   * `None` when `int` raises. An absent header counts as 0, and a header holding
   * `str(n)` declares `n`.
   */
  function DeclaredTotal(header: Option<string>): (total: Option<int>)
    ensures header.None? ==> total == Some(0)
    ensures forall n :: header == Some(ContentLength.IntToString(n)) && ContentLength.WithinDigitLimit(n) ==> total == Some(n)
  {
    match header
    case None => Some(0)
    case Some(v) =>
      ContentLength.ParseIntRoundTripAll();
      ContentLength.ParseInt(v)
  }

  /** The bytes of all chunks, in order. */
  function Concat(chunks: seq<seq<byte>>): seq<byte>
  {
    if |chunks| == 0 then [] else Concat(chunks[..|chunks| - 1]) + chunks[|chunks| - 1]
  }

  /** The sum of the chunk sizes. */
  function TotalSize(chunks: seq<seq<byte>>): nat
  {
    if |chunks| == 0 then 0 else TotalSize(chunks[..|chunks| - 1]) + |chunks[|chunks| - 1]|
  }

  /** The file's length is the sum of the chunk sizes. */
  lemma {:induction false} ConcatLength(chunks: seq<seq<byte>>)
    ensures |Concat(chunks)| == TotalSize(chunks)
  {
    if |chunks| > 0 {
      ConcatLength(chunks[..|chunks| - 1]);
    }
  }

  /** Chunk `k` sits in the file right after the chunks before it. */
  lemma {:induction false} ConcatPlacesChunk(chunks: seq<seq<byte>>, k: nat)
    requires k < |chunks|
    ensures TotalSize(chunks[..k]) + |chunks[k]| == TotalSize(chunks[..k + 1]) <= |Concat(chunks)|
    ensures Concat(chunks)[TotalSize(chunks[..k])..TotalSize(chunks[..k + 1])] == chunks[k]
    decreases |chunks|
  {
    var n := |chunks|;
    var init := chunks[..n - 1];
    assert chunks[..k + 1][..k] == chunks[..k];
    ConcatLength(chunks);
    ConcatLength(init);
    if k == n - 1 {
      assert chunks[..k + 1] == chunks;
      assert chunks[..k] == init;
    } else {
      ConcatPlacesChunk(init, k);
      assert init[..k] == chunks[..k] && init[..k + 1] == chunks[..k + 1];
      var lo, hi := TotalSize(chunks[..k]), TotalSize(chunks[..k + 1]);
      assert Concat(chunks) == Concat(init) + chunks[n - 1];
      assert (Concat(init) + chunks[n - 1])[lo..hi] == Concat(init)[lo..hi];
    }
  }

  /** The file gets opened (and truncated): every earlier step succeeded. */
  predicate Opens(fetch: Fetch, path: string)
  {
    && fetch.Responded?
    && !RaisesForStatus(fetch.response.status)
    && DeclaredTotal(fetch.response.contentLength).Some?
    && CanOpenForWrite(path)
  }

  /** The outcome `download_file` reports. */
  function Expected(fetch: Fetch, path: string): Outcome
  {
    match fetch
    case ConnectFailed => Failed(ConnectionError)
    case Responded(r) =>
      if RaisesForStatus(r.status) then Failed(HttpError(r.status))
      else if DeclaredTotal(r.contentLength).None? then Failed(BadContentLength)
      else if !CanOpenForWrite(path) then Failed(CannotOpen)
      else if r.interrupted then Failed(Interrupted)
      else Completed(path)
  }

  /** The tqdm bar: its declared total and the count `update` adds to. */
  class ProgressBar {
    const total: int
    var n: int

    constructor (total: int)
      ensures this.total == total && n == 0
    {
      this.total := total;
      n := 0;
    }

    /** `bar.update(size)` */
    method Update(size: nat)
      modifies this
      ensures n == old(n) + size
    {
      n := n + size;
    }
  }

  /**
   * Fetches, checks the status, reads the declared total, opens the file
   * `'wb'` and copies every chunk into it while the bar counts the bytes.
   * The returned bar is `null` when the file was never opened.
   */
  method DownloadFile(host: Host, fetch: Fetch, path: string) returns (outcome: Outcome, bar: ProgressBar?)
    modifies host
    ensures outcome == Expected(fetch, path)
    ensures Opens(fetch, path) <==> bar != null
    ensures !Opens(fetch, path) ==> host.files == old(host.files)
    ensures Opens(fetch, path) ==>
              && host.files == old(host.files)[path := Concat(fetch.response.chunks)]
              && fresh(bar)
              && bar.total == DeclaredTotal(fetch.response.contentLength).value
              && bar.n == TotalSize(fetch.response.chunks) == |host.files[path]|
    ensures host.browsersLaunched == old(host.browsersLaunched)
  {
    if fetch.ConnectFailed? {
      return Failed(ConnectionError), null;
    }
    var r := fetch.response;
    if RaisesForStatus(r.status) {
      return Failed(HttpError(r.status)), null;
    }
    var total := DeclaredTotal(r.contentLength);
    if total.None? {
      return Failed(BadContentLength), null;
    }
    var isOpen := host.OpenForWrite(path);
    if !isOpen {
      return Failed(CannotOpen), null;
    }
    bar := new ProgressBar(total.value);
    var i := 0;
    while i < |r.chunks|
      invariant 0 <= i <= |r.chunks|
      invariant host.files == old(host.files)[path := Concat(r.chunks[..i])]
      invariant bar.n == TotalSize(r.chunks[..i])
      invariant host.browsersLaunched == old(host.browsersLaunched)
    {
      var size := host.Write(path, r.chunks[i]);
      bar.Update(size);
      assert r.chunks[..i + 1][..i] == r.chunks[..i];
      i := i + 1;
    }
    assert r.chunks[..i] == r.chunks;
    ConcatLength(r.chunks);
    outcome := if r.interrupted then Failed(Interrupted) else Completed(path);
  }
}
