/** The chapter download itself: the two metadata requests, the page loop
    that saves every page it can fetch, the overall result and the process
    exit code. The network is an input: each request's reply is given by a
    function of the URL requested (and, for pages, of the page number). */
module Download {
  import opened Wrappers
  import opened Naming
  import opened ContentType
  import opened Selection

  /** The reply to a metadata request: an HTTP or decoding failure, or the decoded body. */
  datatype HttpResult<T> = RequestError | Received(body: T)

  /** The reply to one page request: a failure (timeout, connection error,
      error status), or an image with its optional `content-type` header. */
  datatype PageFetch = RequestFailed | Fetched(contentType: Option<string>)

  /** The page replies, by page number (counted from 1) and page URL. */
  type PageFetcher = (nat, string) -> PageFetch

  /** The host every metadata request goes to. */
  const ApiRoot: string := "https://cubari.moe"

  /** Where the series document is requested. */
  function SeriesUrl(seriesSlug: string): string {
    ApiRoot + "/read/api/weebcentral/series/" + seriesSlug + "/"
  }

  /** Where the page-list document is requested: the group URL is a path on the same host. */
  function ChapterDetailsUrl(groupUrl: string): string {
    ApiRoot + groupUrl
  }

  function Receive<T>(reply: HttpResult<T>): Result<T, Failure> {
    match reply
    case RequestError => Err(NetworkError)
    case Received(body) => Ok(body)
  }

  // ---------------------------------------------------------------------------
  // Before the page loop
  // ---------------------------------------------------------------------------

  /** The page URLs to fetch, or why the download stops before creating the
      chapter directory. */
  function PagesToFetch(seriesSlug: string, chapterNumber: string,
                        seriesApi: string -> HttpResult<SeriesData>,
                        detailsApi: string -> HttpResult<PageDocument>): Result<seq<string>, Failure>
  {
    var series :- Receive(seriesApi(SeriesUrl(seriesSlug)));
    var groups :- LocateChapter(series, chapterNumber);
    var groupUrl :- SelectGroupUrl(groups);
    var document :- Receive(detailsApi(ChapterDetailsUrl(groupUrl)));
    PageUrls(document)
  }

  /** The steps before the loop, in order: a failed series request, a chapter
      that cannot be located, a chapter without groups, a failed page-list
      request and a badly shaped or empty page list each stop the download
      with their own reason; otherwise the pages are those of the document
      fetched from the selected group's URL, and there is at least one. */
  lemma {:induction false} PagesToFetchSteps(seriesSlug: string, chapterNumber: string,
                                              seriesApi: string -> HttpResult<SeriesData>,
                                              detailsApi: string -> HttpResult<PageDocument>)
    ensures var plan := PagesToFetch(seriesSlug, chapterNumber, seriesApi, detailsApi);
      && (seriesApi(SeriesUrl(seriesSlug)).RequestError? ==> plan == Err(NetworkError))
      && (seriesApi(SeriesUrl(seriesSlug)).Received? ==>
            var located := LocateChapter(seriesApi(SeriesUrl(seriesSlug)).body, chapterNumber);
            && (located.Err? ==> plan == Err(located.error))
            && (located.Ok? && located.value.IsEmpty() ==> plan == Err(NoGroups))
            && (located.Ok? && !located.value.IsEmpty() ==>
                  var reply := detailsApi(ChapterDetailsUrl(SelectGroupUrl(located.value).value));
                  && (reply.RequestError? ==> plan == Err(NetworkError))
                  && (reply.Received? ==> plan == PageUrls(reply.body))))
    ensures PagesToFetch(seriesSlug, chapterNumber, seriesApi, detailsApi).Ok? ==>
      |PagesToFetch(seriesSlug, chapterNumber, seriesApi, detailsApi).value| > 0
  {
    var plan := PagesToFetch(seriesSlug, chapterNumber, seriesApi, detailsApi);
    if plan.Ok? {
      var reply := Receive(seriesApi(SeriesUrl(seriesSlug)));
      var groups := LocateChapter(reply.value, chapterNumber);
      var document := Receive(detailsApi(ChapterDetailsUrl(SelectGroupUrl(groups.value).value)));
      assert plan == PageUrls(document.value);
    }
  }

  // ---------------------------------------------------------------------------
  // The page loop
  // ---------------------------------------------------------------------------

  /** The files the loop saves for `urls`: page n (counted from 1) adds its
      path when its request succeeds and nothing when it fails. */
  function SavedFiles(chapterDir: string, urls: seq<string>, fetch: PageFetcher): seq<string>
    decreases |urls|
  {
    if urls == [] then []
    else
      var n := |urls|;
      SavedFiles(chapterDir, urls[..n - 1], fetch) +
        match fetch(n, urls[n - 1])
        case RequestFailed => []
        case Fetched(contentType) => [PagePath(chapterDir, n, ExtensionFor(contentType))]
  }

  /** Page `page` of `urls` exists and its request succeeds. */
  predicate Succeeded(urls: seq<string>, fetch: PageFetcher, page: int) {
    1 <= page <= |urls| && fetch(page, urls[page - 1]).Fetched?
  }

  /** The numbers of the pages whose request succeeded, in increasing order. */
  function SavedPages(urls: seq<string>, fetch: PageFetcher): (pages: seq<nat>)
    ensures forall k :: 0 <= k < |pages| ==> Succeeded(urls, fetch, pages[k])
    ensures forall p :: Succeeded(urls, fetch, p) ==> p in pages
    ensures forall j, k :: 0 <= j < k < |pages| ==> pages[j] < pages[k]
    ensures |pages| <= |urls|
    decreases |urls|
  {
    if urls == [] then []
    else
      var n := |urls|;
      SavedPages(urls[..n - 1], fetch) + if fetch(n, urls[n - 1]).Fetched? then [n] else []
  }

  /** The extension page `page` is saved under. */
  function PageExtension(urls: seq<string>, fetch: PageFetcher, page: nat): string
    requires Succeeded(urls, fetch, page)
  {
    ExtensionFor(fetch(page, urls[page - 1]).contentType)
  }

  /** Saved file `k` is the path of saved page `k`, under its reply's extension. */
  predicate FilesFollowPages(chapterDir: string, urls: seq<string>, fetch: PageFetcher) {
    var saved, pages := SavedFiles(chapterDir, urls, fetch), SavedPages(urls, fetch);
    && |saved| == |pages|
    && forall k :: 0 <= k < |pages| ==> saved[k] == PagePath(chapterDir, pages[k], PageExtension(urls, fetch, pages[k]))
  }

  /** `downloaded_files` after the loop: one path per successful page, in page
      order, named after the page number and the extension of its reply. */
  lemma {:induction false} SavedFilesAreSavedPages(chapterDir: string, urls: seq<string>, fetch: PageFetcher)
    ensures |SavedFiles(chapterDir, urls, fetch)| == |SavedPages(urls, fetch)|
    ensures forall k :: 0 <= k < |SavedPages(urls, fetch)| ==>
      SavedFiles(chapterDir, urls, fetch)[k] ==
        PagePath(chapterDir, SavedPages(urls, fetch)[k], PageExtension(urls, fetch, SavedPages(urls, fetch)[k]))
    decreases |urls|
  {
    if urls != [] {
      SavedFilesAreSavedPages(chapterDir, urls[..|urls| - 1], fetch);
      FilesFollowPagesStep(chapterDir, urls, fetch);
    }
  }

  /** One more page keeps saved files and saved pages in step. */
  lemma FilesFollowPagesStep(chapterDir: string, urls: seq<string>, fetch: PageFetcher)
    requires urls != [] && FilesFollowPages(chapterDir, urls[..|urls| - 1], fetch)
    ensures FilesFollowPages(chapterDir, urls, fetch)
  {
    var n := |urls|;
    var init := urls[..n - 1];
    var saved0, pages0 := SavedFiles(chapterDir, init, fetch), SavedPages(init, fetch);
    var saved, pages := SavedFiles(chapterDir, urls, fetch), SavedPages(urls, fetch);
    match fetch(n, urls[n - 1])
    case RequestFailed =>
      assert saved == saved0 && pages == pages0;
      forall k | 0 <= k < |pages|
        ensures saved[k] == PagePath(chapterDir, pages[k], PageExtension(urls, fetch, pages[k]))
      {
        SameExtension(init, urls, fetch, pages[k]);
      }
    case Fetched(contentType) =>
      assert saved == saved0 + [PagePath(chapterDir, n, ExtensionFor(contentType))];
      assert pages == pages0 + [n];
      forall k | 0 <= k < |pages|
        ensures saved[k] == PagePath(chapterDir, pages[k], PageExtension(urls, fetch, pages[k]))
      {
        if k < |pages0| {
          SameExtension(init, urls, fetch, pages[k]);
        }
      }
  }

  /** A page of a prefix of the page list has the same reply in the whole list. */
  lemma SameExtension(init: seq<string>, urls: seq<string>, fetch: PageFetcher, page: nat)
    requires init <= urls && Succeeded(init, fetch, page)
    ensures Succeeded(urls, fetch, page)
    ensures PageExtension(init, fetch, page) == PageExtension(urls, fetch, page)
  {
    assert init[page - 1] == urls[page - 1];
  }

  /** No two saved pages share a path. */
  lemma SavedFilesDistinct(chapterDir: string, urls: seq<string>, fetch: PageFetcher)
    ensures forall j, k :: 0 <= j < k < |SavedFiles(chapterDir, urls, fetch)| ==>
      SavedFiles(chapterDir, urls, fetch)[j] != SavedFiles(chapterDir, urls, fetch)[k]
  {
    SavedFilesAreSavedPages(chapterDir, urls, fetch);
    var saved, pages := SavedFiles(chapterDir, urls, fetch), SavedPages(urls, fetch);
    forall j, k | 0 <= j < k < |saved|
      ensures saved[j] != saved[k]
    {
      PagePathsDistinct(chapterDir, pages[j], PageExtension(urls, fetch, pages[j]),
                        pages[k], PageExtension(urls, fetch, pages[k]));
    }
  }

  /** At least one file is saved exactly when at least one page request succeeds. */
  lemma SomethingSaved(chapterDir: string, urls: seq<string>, fetch: PageFetcher)
    ensures |SavedFiles(chapterDir, urls, fetch)| > 0 <==> exists p :: Succeeded(urls, fetch, p)
  {
    SavedFilesAreSavedPages(chapterDir, urls, fetch);
    var pages := SavedPages(urls, fetch);
    if pages != [] {
      assert Succeeded(urls, fetch, pages[0]);
    }
  }

  /** When every page request succeeds, page n is the n-th saved file. */
  lemma AllPagesSaved(chapterDir: string, urls: seq<string>, fetch: PageFetcher)
    requires forall p :: 1 <= p <= |urls| ==> Succeeded(urls, fetch, p)
    ensures |SavedFiles(chapterDir, urls, fetch)| == |urls|
    ensures forall k :: 0 <= k < |urls| ==>
      SavedFiles(chapterDir, urls, fetch)[k] == PagePath(chapterDir, k + 1, PageExtension(urls, fetch, k + 1))
  {
    SavedFilesAreSavedPages(chapterDir, urls, fetch);
    AllPagesNumbered(urls, fetch);
    var pages := SavedPages(urls, fetch);
    forall k | 0 <= k < |urls|
      ensures SavedFiles(chapterDir, urls, fetch)[k] == PagePath(chapterDir, k + 1, PageExtension(urls, fetch, k + 1))
    {
      assert pages[k] == k + 1;
    }
  }

  lemma {:induction false} AllPagesNumbered(urls: seq<string>, fetch: PageFetcher)
    requires forall p :: 1 <= p <= |urls| ==> Succeeded(urls, fetch, p)
    ensures SavedPages(urls, fetch) == seq(|urls|, k => k + 1)
    decreases |urls|
  {
    if urls != [] {
      var n := |urls|;
      var init := urls[..n - 1];
      forall p | 1 <= p <= n - 1
        ensures Succeeded(init, fetch, p)
      {
        assert Succeeded(urls, fetch, p);
      }
      AllPagesNumbered(init, fetch);
      assert Succeeded(urls, fetch, n);
    }
  }

  /** A failed page is skipped and the loop goes on: when only page `failed`
      fails, every other page is saved and exactly one file is missing. */
  lemma OnePageFails(chapterDir: string, urls: seq<string>, fetch: PageFetcher, failed: nat)
    requires 1 <= failed <= |urls| && !Succeeded(urls, fetch, failed)
    requires forall p :: 1 <= p <= |urls| && p != failed ==> Succeeded(urls, fetch, p)
    ensures |SavedFiles(chapterDir, urls, fetch)| == |urls| - 1
    ensures forall p :: 1 <= p <= |urls| ==> (p in SavedPages(urls, fetch) <==> p != failed)
  {
    SavedFilesAreSavedPages(chapterDir, urls, fetch);
    OnePageMissing(urls, fetch, failed);
  }

  lemma {:induction false} OnePageMissing(urls: seq<string>, fetch: PageFetcher, failed: nat)
    requires 1 <= failed <= |urls| && !Succeeded(urls, fetch, failed)
    requires forall p :: 1 <= p <= |urls| && p != failed ==> Succeeded(urls, fetch, p)
    ensures |SavedPages(urls, fetch)| == |urls| - 1
    decreases |urls|
  {
    var n := |urls|;
    var init := urls[..n - 1];
    forall p | 1 <= p <= n - 1
      ensures Succeeded(init, fetch, p) == Succeeded(urls, fetch, p)
    {
    }
    if failed == n {
      AllPagesNumbered(init, fetch);
    } else {
      OnePageMissing(init, fetch, failed);
      assert Succeeded(urls, fetch, n);
    }
  }

  /** The page loop of the downloader: pages are enumerated from 1, every
      reply is examined, and the saved path is appended only on success. */
  method DownloadPages(chapterDir: string, urls: seq<string>, fetch: PageFetcher)
    returns (downloadedFiles: seq<string>)
    ensures downloadedFiles == SavedFiles(chapterDir, urls, fetch)
  {
    downloadedFiles := [];
    var page := 1;
    while page <= |urls|
      invariant 1 <= page <= |urls| + 1
      invariant downloadedFiles == SavedFiles(chapterDir, urls[..page - 1], fetch)
    {
      var proxyUrl := urls[page - 1];
      var reply := fetch(page, proxyUrl);
      if reply.Fetched? {
        var extension := InferExtension(reply.contentType);
        var filePath := JoinPath(chapterDir, PageFileName(page, extension));
        downloadedFiles := downloadedFiles + [filePath];
      }
      assert urls[..page][..page - 1] == urls[..page - 1];
      page := page + 1;
    }
    assert urls[..|urls|] == urls;
  }

  // ---------------------------------------------------------------------------
  // The whole download and the exit code
  // ---------------------------------------------------------------------------

  /** What the download returns: the chapter directory when at least one page
      was saved, otherwise the reason it failed. */
  function ChapterOutcome(seriesSlug: string, chapterNumber: string, outputDir: string,
                          seriesApi: string -> HttpResult<SeriesData>,
                          detailsApi: string -> HttpResult<PageDocument>,
                          fetch: PageFetcher): Result<string, Failure>
  {
    var urls :- PagesToFetch(seriesSlug, chapterNumber, seriesApi, detailsApi);
    var chapterDir := ChapterDir(outputDir, seriesSlug, chapterNumber);
    if |SavedFiles(chapterDir, urls, fetch)| > 0 then Ok(chapterDir) else Err(NothingDownloaded)
  }

  /** The download succeeds exactly when the metadata steps yield a page list
      and at least one page request succeeds, and its result is then the
      chapter directory; partial success is success. */
  lemma ChapterOutcomeSucceeds(seriesSlug: string, chapterNumber: string, outputDir: string,
                               seriesApi: string -> HttpResult<SeriesData>,
                               detailsApi: string -> HttpResult<PageDocument>,
                               fetch: PageFetcher)
    ensures var outcome := ChapterOutcome(seriesSlug, chapterNumber, outputDir, seriesApi, detailsApi, fetch);
            var plan := PagesToFetch(seriesSlug, chapterNumber, seriesApi, detailsApi);
      && (outcome.Ok? <==> plan.Ok? && exists p :: Succeeded(plan.value, fetch, p))
      && (outcome.Ok? ==> outcome.value == ChapterDir(outputDir, seriesSlug, chapterNumber))
      && (plan.Err? ==> outcome == Err(plan.error))
      && (plan.Ok? && outcome.Err? ==> outcome.error == NothingDownloaded)
  {
    var plan := PagesToFetch(seriesSlug, chapterNumber, seriesApi, detailsApi);
    if plan.Ok? {
      SomethingSaved(ChapterDir(outputDir, seriesSlug, chapterNumber), plan.value, fetch);
    }
  }

  /** `download_chapter`: the result path, or `None`. As ghosts it reports
      whether the chapter directory was created and whether it is left on
      disk: it is created only once a non-empty page list is known, and
      removed again when no page was saved, so it is kept exactly when the
      result is a path. */
  method DownloadChapter(seriesSlug: string, chapterNumber: string, outputDir: string,
                         seriesApi: string -> HttpResult<SeriesData>,
                         detailsApi: string -> HttpResult<PageDocument>,
                         fetch: PageFetcher)
    returns (resultPath: Option<string>, ghost chapterDirCreated: bool, ghost chapterDirKept: bool)
    ensures resultPath == ChapterOutcome(seriesSlug, chapterNumber, outputDir, seriesApi, detailsApi, fetch).ToOption()
    ensures chapterDirCreated <==> PagesToFetch(seriesSlug, chapterNumber, seriesApi, detailsApi).Ok?
    ensures chapterDirKept <==> resultPath.Some?
  {
    chapterDirCreated, chapterDirKept := false, false;
    var seriesReply := seriesApi(SeriesUrl(seriesSlug));
    if seriesReply.RequestError? {
      return None, false, false;
    }
    var groups := LocateChapter(seriesReply.body, chapterNumber);
    if groups.Err? {
      return None, false, false;
    }
    var groupUrl := SelectGroupUrl(groups.value);
    if groupUrl.Err? {
      return None, false, false;
    }
    var detailsReply := detailsApi(ChapterDetailsUrl(groupUrl.value));
    if detailsReply.RequestError? {
      return None, false, false;
    }
    var imageUrls := PageUrls(detailsReply.body);
    if imageUrls.Err? {
      return None, false, false;
    }
    var chapterSpecificDir := JoinPath(outputDir, ChapterDirName(seriesSlug, chapterNumber));
    chapterDirCreated, chapterDirKept := true, true;
    var downloadedFiles := DownloadPages(chapterSpecificDir, imageUrls.value, fetch);
    if |downloadedFiles| > 0 {
      resultPath := Some(chapterSpecificDir);
    } else {
      chapterDirKept := false;
      resultPath := None;
    }
  }

  /** The process exit status for a result: 0 when the result is a (non-empty,
      hence true) path, 1 otherwise. */
  function ExitCode(resultPath: Option<string>): int {
    if resultPath.Some? && resultPath.value != "" then 0 else 1
  }

  /** The script exits with 0 exactly when the download saved at least one
      page, and with 1 on every failure. */
  lemma ExitCodeOfDownload(seriesSlug: string, chapterNumber: string, outputDir: string,
                           seriesApi: string -> HttpResult<SeriesData>,
                           detailsApi: string -> HttpResult<PageDocument>,
                           fetch: PageFetcher)
    ensures var outcome := ChapterOutcome(seriesSlug, chapterNumber, outputDir, seriesApi, detailsApi, fetch);
      ExitCode(outcome.ToOption()) == if outcome.Ok? then 0 else 1
  {
    ChapterDirShape(outputDir, seriesSlug, chapterNumber);
  }
}
