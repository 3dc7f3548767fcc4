/** The metadata side of a chapter download: the shapes of the two JSON
    documents the aggregator returns, and the choices made from them before
    any page is fetched (which chapter, which group's page list, which page
    URLs). */
module Selection {
  import opened Wrappers

  /** Why a download gives up. The downloader reports every one of these as
      `None`; they are kept apart here so that each can be stated. */
  datatype Failure =
    | NetworkError        // a metadata request failed or its body was not JSON
    | MissingKey          // an expected key ('chapters', 'groups') was absent
    | ChapterNotFound     // no entry, or a falsy entry, for the chapter number
    | NoGroups            // the chapter lists no group at all
    | UnexpectedDocument  // the page-list document is neither a list nor an object
    | NoPages             // the page list is empty
    | NothingDownloaded   // every page request failed

  /** A JSON object as Python decodes it: key/value pairs in insertion order. */
  datatype Dict<V> = Dict(items: seq<(string, V)>) {

    /** `d.get(key)`: the value of the first pair with that key, if any. */
    function Get(key: string): (r: Option<V>)
      ensures r.Some? ==> exists i :: 0 <= i < |items| && items[i] == (key, r.value)
                                      && forall j :: 0 <= j < i ==> items[j].0 != key
      ensures r.None? <==> forall i :: 0 <= i < |items| ==> items[i].0 != key
      decreases |items|
    {
      if items == [] then None
      else if items[0].0 == key then Some(items[0].1)
      else Dict(items[1..]).Get(key)
    }

    /** Python truthiness of a dict: false exactly when it is empty. */
    predicate IsEmpty() {
      items == []
    }
  }

  /** A chapter entry of the series document. `Falsy` stands for every value
      Python treats as false (null, an empty object); `Record` for a non-empty
      object, whose 'groups' key may be missing. */
  datatype ChapterEntry = Falsy | Record(groups: Option<Dict<string>>)

  /** The series document; `chapters` is absent when it has no 'chapters' key. */
  datatype SeriesData = SeriesData(chapters: Option<Dict<ChapterEntry>>)

  /** The page-list document: a bare array of page URLs, an object (which is
      expected to carry them under 'pages'), or anything else. */
  datatype PageDocument =
    | PageArray(urls: seq<string>)
    | PageObject(fields: Dict<seq<string>>)
    | OtherDocument

  /** The chapter's group table, looked up by the exact chapter-number string. */
  function LocateChapter(series: SeriesData, chapterNumber: string): (r: Result<Dict<string>, Failure>)
    ensures r.Ok? ==> series.chapters.Some? && series.chapters.value.Get(chapterNumber) == Some(Record(Some(r.value)))
    ensures r == Err(MissingKey) <==>
      series.chapters.None? || series.chapters.value.Get(chapterNumber) == Some(Record(None))
    ensures r == Err(ChapterNotFound) <==>
      series.chapters.Some? && series.chapters.value.Get(chapterNumber) in {None, Some(Falsy)}
    ensures r.Err? ==> r.error in {MissingKey, ChapterNotFound}
  {
    match series.chapters
    case None => Err(MissingKey)
    case Some(chapters) =>
      match chapters.Get(chapterNumber)
      case None => Err(ChapterNotFound)
      case Some(Falsy) => Err(ChapterNotFound)
      case Some(Record(groups)) =>
        if groups.None? then Err(MissingKey) else Ok(groups.value)
  }

  /** The group whose page list is preferred. */
  const PreferredGroup: string := "1"

  /** The page-list URL of the chapter: the preferred group's if it is present
      and non-empty, otherwise the first group's, otherwise failure. */
  function SelectGroupUrl(groups: Dict<string>): (r: Result<string, Failure>)
    ensures r.Err? <==> groups.IsEmpty()
    ensures r.Err? ==> r.error == NoGroups
    ensures r.Ok? ==> exists i :: 0 <= i < |groups.items| && groups.items[i].1 == r.value
  {
    var preferred := groups.Get(PreferredGroup);
    if preferred.Some? && preferred.value != "" then Ok(preferred.value)
    else if !groups.IsEmpty() then Ok(groups.items[0].1)
    else Err(NoGroups)
  }

  /** The preferred group wins whenever it names a non-empty URL, wherever it
      stands in the table. */
  lemma PreferredGroupWins(groups: Dict<string>, url: string)
    requires groups.Get(PreferredGroup) == Some(url) && url != ""
    ensures SelectGroupUrl(groups) == Ok(url)
  {
  }

  /** Without a usable preferred group the first group is taken, by key, as
      `groups[list(groups.keys())[0]]`; when that first key is the preferred
      group itself, its empty URL is carried forward. */
  lemma {:induction false} FallbackToFirstGroup(groups: Dict<string>)
    requires !groups.IsEmpty()
    requires groups.Get(PreferredGroup) in {None, Some("")}
    ensures groups.Get(groups.items[0].0).Some?
    ensures SelectGroupUrl(groups) == Ok(groups.Get(groups.items[0].0).value)
    ensures groups.items[0].0 == PreferredGroup ==> SelectGroupUrl(groups) == Ok("")
  {
    assert groups.Get(groups.items[0].0) == Some(groups.items[0].1);
  }

  /** `get('pages', [])` on a page-list object. */
  function PagesField(fields: Dict<seq<string>>): seq<string> {
    fields.Get("pages").GetOr([])
  }

  /** The page URLs of a page-list document, in document order. */
  function PageUrls(document: PageDocument): (r: Result<seq<string>, Failure>)
    ensures r.Ok? ==> |r.value| > 0
  {
    var urls :- match document
      case PageArray(urls) => Ok(urls)
      case PageObject(fields) => Ok(PagesField(fields))
      case OtherDocument => Err(UnexpectedDocument);
    if |urls| == 0 then Err(NoPages) else Ok(urls)
  }

  /** Shape normalisation: an array is taken as it is, an object gives its
      'pages' entry (absent means no pages), any other document is rejected,
      and an empty list is rejected too. */
  lemma PageUrlsCases(document: PageDocument)
    ensures document.PageArray? ==>
      PageUrls(document) == if document.urls == [] then Err(NoPages) else Ok(document.urls)
    ensures document.PageObject? && document.fields.Get("pages").None? ==> PageUrls(document) == Err(NoPages)
    ensures document.PageObject? && document.fields.Get("pages").Some? ==>
      PageUrls(document) == if document.fields.Get("pages").value == [] then Err(NoPages) else Ok(document.fields.Get("pages").value)
    ensures document.OtherDocument? ==> PageUrls(document) == Err(UnexpectedDocument)
  {
  }
}
