# Chapter downloader: a verified model of its decision logic

`scripts/download_chapter.py` downloads the page images of one manga chapter
from the Cubari aggregator. It fetches the series document, finds the chapter
by its number, picks one group's page-list URL, fetches that page list, and
then requests every page in order. Each page it receives is saved as
`page_%03d.<ext>` in a directory named `<safe slug>_Chapter_<n>`. The function
returns that directory when at least one page was saved and `None` otherwise,
and the script turns this into exit status 0 or 1.

This project models the decisions the script makes along the way. Every
network reply is an input. The two metadata requests are functions from the
requested URL to a reply. The page requests are a function from page number
and page URL to a reply. Over these inputs the model proves the naming,
selection and aggregation rules.

Files:

- `wrappers.dfy` (module `Wrappers`): `Option` and `Result`.
- `naming.dfy` (module `Naming`): slug sanitisation, the `%03d` padding,
  page file names, the chapter directory and POSIX `os.path.join`.
- `extension.dfy` (module `ContentType`): content-type to file extension.
  An ordered rule table is the specification. The source's if-chain is the
  method `InferExtension`.
- `selection.dfy` (module `Selection`): the JSON document shapes, the
  chapter lookup, the group choice and the page-list normalisation.
- `download.dfy` (module `Download`): the page loop as a method with a loop
  invariant, the whole download as a method, and the exit code.

Two behaviours are easy to misread. The model follows the code on both:

- The fallback group is not an arbitrary one. It is the first key of the
  decoded JSON object, in insertion order.
- Page numbers are padded to *at least* three digits. Page 1000 is named
  `page_1000.<ext>`.

## Model

| member | source | states |
|---|---|---|
| `Naming.KeepSlugChars` | scripts/download_chapter.py:64 | the filtered slug contains only letters, digits, `_` and `-` |
| `Naming.RStrip` | scripts/download_chapter.py:64 | `rstrip()` gives a prefix of its input that does not end in whitespace, and only whitespace is cut off |
| `Naming.SafeSlug` | scripts/download_chapter.py:64 | the sanitised slug contains only letters, digits, `_` and `-` |
| `Naming.SafeSlugNeedsNoStrip` | scripts/download_chapter.py:64 | the trailing `rstrip()` never changes the filtered slug |
| `Naming.SafeSlugIsFilter` | scripts/download_chapter.py:64 | the sanitised slug is an order-preserving subsequence of the input; it holds each slug character as often as the input does and no other character |
| `Naming.SafeSlugFixedPoints` | scripts/download_chapter.py:64 | sanitising is idempotent, and it leaves a slug unchanged exactly when the slug has only slug characters |
| `Naming.Decimal` | scripts/download_chapter.py:91 | definition of `str(n)` for a page number: a non-empty string of digits; see `DecimalRoundTrip`, `DecimalNoLeadingZero`, `DecimalLength` |
| `Naming.ZeroPad` | scripts/download_chapter.py:91 | definition of the `0<width>d` format; see `ZeroPadSpec`, `ZeroPadInjective` |
| `Naming.DecimalRoundTrip` | scripts/download_chapter.py:91 | the numeral written for a page number reads back as that number |
| `Naming.DecimalNoLeadingZero` | scripts/download_chapter.py:91 | the numeral of a page number starts with `0` exactly when the number is 0, so `str(n)` writes no leading zero |
| `Naming.DecimalLength` | scripts/download_chapter.py:91 | numerals have 1, 2 or 3 digits below 10, 100 and 1000, and at least 4 from 1000 on |
| `Naming.ZeroPadSpec` | scripts/download_chapter.py:91 | `%03d` gives max(3, digit count) digits, ends with the plain numeral and still denotes the number |
| `Naming.ZeroPadInjective` | scripts/download_chapter.py:91 | two different numbers never get the same padded numeral |
| `Naming.PageFileName` | scripts/download_chapter.py:91 | definition of `page_{page:03d}.{extension}`; see `PageFileNameShape`, `PageFileNameTail`, `PageFileNameInjective` |
| `Naming.ChapterDirName` | scripts/download_chapter.py:65 | definition of `{safe_slug}_Chapter_{chapter_number}`; see `ChapterDirShape` |
| `Naming.JoinPath` | scripts/download_chapter.py:65 | definition of POSIX `os.path.join` with two parts (also used at line 91); see `JoinPathInjective` |
| `Naming.ChapterDir` | scripts/download_chapter.py:65 | definition of `chapter_specific_dir`; see `ChapterDirShape` |
| `Naming.PagePath` | scripts/download_chapter.py:91 | definition of `file_path`; see `PagePathsDistinct`, `SavedFilesAreSavedPages` |
| `Naming.PageFileNameShape` | scripts/download_chapter.py:91 | pages 1-999 get exactly three digits; from 1000 on the plain numeral; the digits between `page_` and the dot denote the page number |
| `Naming.PageFileNameTail` | scripts/download_chapter.py:91 | after `page_`, a page file name is its padded numeral, a dot and the extension, and the numeral is exactly its leading digits |
| `Naming.PageFileNameInjective` | scripts/download_chapter.py:91 | equal page file names mean equal page numbers and equal extensions |
| `Naming.JoinPathInjective` | scripts/download_chapter.py:65 | joining one directory with two different relative names gives two different paths |
| `Naming.PagePathsDistinct` | scripts/download_chapter.py:72-91 | two different pages of a chapter are saved under different paths, whatever their extensions |
| `Naming.ChapterDirShape` | scripts/download_chapter.py:64-65 | the chapter directory is a non-empty path ending in `<safe slug>_Chapter_<chapter number>`, and that name is relative |
| `ContentType.Contains` | scripts/download_chapter.py:82-88 | definition of Python's `needle in content_type` on strings; see `ContainsAt`, `ContainsCharsOf` |
| `ContentType.FirstMatch` | scripts/download_chapter.py:82-89 | the table lookup gives the extension of the first matching rule, after no earlier rule matched; it gives nothing exactly when no rule matches |
| `ContentType.ExtensionFor` | scripts/download_chapter.py:79-89 | the inferred extension is always one of `jpg`, `png`, `webp`, `gif` |
| `ContentType.InferExtension` | scripts/download_chapter.py:79-89 | the if-chain that reassigns `extension` from its `png` default picks exactly what the ordered rule table specifies |
| `ContentType.ExtensionPrecedence` | scripts/download_chapter.py:82-89 | `jpg` exactly when jpeg or jpg occurs; `webp` and `gif` only when no earlier rule matches; `png` when png occurs without jpeg/jpg, or nothing is recognised |
| `ContentType.DefaultWhenUnrecognised` | scripts/download_chapter.py:80-81 | a missing header, or one containing none of the recognised names, gives `png` |
| `ContentType.ContainsCharsOf` | scripts/download_chapter.py:82 | a substring match needs every character of the needle in the header (the test is case-sensitive) |
| `ContentType.UpperCaseFallsBack` | scripts/download_chapter.py:82 | `image/JPEG` is not recognised and falls back to `png` |
| `ContentType.NoJpegNorPng` | scripts/download_chapter.py:82-85 | a header without the letters j and n satisfies neither the jpeg/jpg test nor the png test |
| `ContentType.WebpOnly` | scripts/download_chapter.py:86-87 | a header naming webp and none of jpeg, jpg, png gives `webp` |
| `ContentType.WebpWithoutJN` | scripts/download_chapter.py:82-87 | a header naming webp and without the letters j and n gives `webp` |
| `ContentType.CommonHeaders` | scripts/download_chapter.py:79-89 | `image/webp` gives `webp`, `image/jpeg` gives `jpg`, and no header gives `png` |
| `Selection.Dict.Get` | scripts/download_chapter.py:21 | `get` yields the value of the first pair with that key; it yields nothing exactly when no pair has the key |
| `Selection.LocateChapter` | scripts/download_chapter.py:21-26 | the chapter's group table is found only under the exact chapter-number key, and a present record with a `groups` key yields that table; a missing or falsy entry means "not found"; a missing `chapters` or `groups` key is a failure of its own; no other failure is possible |
| `Selection.SelectGroupUrl` | scripts/download_chapter.py:26-36 | selection fails exactly when the group table is empty; otherwise the URL is the value of some group |
| `Selection.PreferredGroupWins` | scripts/download_chapter.py:26-27 | a non-empty URL under group `'1'` is used, wherever that group stands |
| `Selection.FallbackToFirstGroup` | scripts/download_chapter.py:27-33 | without a usable group `'1'`, the URL under the first key is used; when that key is `'1'` itself, its empty URL is carried forward |
| `Selection.PagesField` | scripts/download_chapter.py:50 | definition of `chapter_details.get('pages', [])`; see `PageUrlsCases` |
| `Selection.PageUrls` | scripts/download_chapter.py:47-59 | an accepted page list is never empty |
| `Selection.PageUrlsCases` | scripts/download_chapter.py:47-59 | a list is used as it is, an object gives its `pages` entry or nothing, any other document is rejected, and an empty list is rejected |
| `Download.SeriesUrl` | scripts/download_chapter.py:13 | definition of `series_url`; see `PagesToFetchSteps` |
| `Download.ChapterDetailsUrl` | scripts/download_chapter.py:39 | definition of `chapter_details_url`; see `PagesToFetchSteps` |
| `Download.PagesToFetch` | scripts/download_chapter.py:13-59 | definition of the metadata steps before the page loop; see `PagesToFetchSteps`, `ChapterOutcomeSucceeds` |
| `Download.PagesToFetchSteps` | scripts/download_chapter.py:13-59 | the metadata steps run in source order, and each failure stops the download with its own reason; otherwise the pages come from the document fetched at the selected group's URL |
| `Download.SavedFiles` | scripts/download_chapter.py:70-101 | definition of the final `downloaded_files`; see `SavedFilesAreSavedPages`, `SavedFilesDistinct`, `SomethingSaved`, `AllPagesSaved`, `OnePageFails`, `DownloadPages` |
| `Download.SavedPages` | scripts/download_chapter.py:72-101 | the saved page numbers are exactly the pages whose request succeeded, strictly increasing, and no more than the pages listed |
| `Download.FilesFollowPagesStep` | scripts/download_chapter.py:72-95 | one more loop iteration keeps the saved files in step with the saved pages |
| `Download.SavedFilesAreSavedPages` | scripts/download_chapter.py:70-101 | `downloaded_files` holds one path per successful page, in page order, named after the page number and its reply's extension |
| `Download.SavedFilesDistinct` | scripts/download_chapter.py:72-95 | no two saved files share a path |
| `Download.SomethingSaved` | scripts/download_chapter.py:102-103 | at least one file is saved exactly when at least one page request succeeds |
| `Download.AllPagesSaved` | scripts/download_chapter.py:72-95 | when every page succeeds, the n-th saved file is page n |
| `Download.OnePageFails` | scripts/download_chapter.py:97-100 | a failed page is skipped and the loop goes on: with one failure, every other page is saved and one file fewer results |
| `Download.DownloadPages` | scripts/download_chapter.py:70-101 | the page loop appends exactly the files the specification lists |
| `Download.ChapterOutcome` | scripts/download_chapter.py:102-114 | definition of the return value of `download_chapter`; see `ChapterOutcomeSucceeds`, `DownloadChapter` |
| `Download.ChapterOutcomeSucceeds` | scripts/download_chapter.py:102-114 | the download succeeds, with the chapter directory, exactly when the metadata steps give a page list and at least one page succeeds; partial success is success |
| `Download.DownloadChapter` | scripts/download_chapter.py:7-114 | the function returns the specified outcome as a path or `None`; the chapter directory is created only once a non-empty page list is known, and is kept exactly when a path is returned |
| `Download.ExitCode` | scripts/download_chapter.py:137-144 | definition of the exit status for a result; see `ExitCodeOfDownload` |
| `Download.ExitCodeOfDownload` | scripts/download_chapter.py:137-144 | the process exits with 0 exactly when the download succeeded, and with 1 otherwise |

## Left out

- Network I/O (lines 15-17, 41-43 and 75-76). `requests.get`, `raise_for_status`, the 30-second timeout and JSON decoding are not modelled. Their results are inputs: a failed request or undecodable body, or a decoded document; for pages, a failure or an image with its optional content type.
- Logging to stdout and stderr, including the `DOWNLOAD_PATH:` line, is not modelled. Neither is the `argparse` command line (lines 127-132). The chapter number is therefore always a string, so `str(chapter_number)` is the identity.
- Filesystem effects (lines 10, 66, 92-93 and 110) are not modelled. Only ghost flags record whether the chapter directory was created and whether it is kept.
- `Download.DownloadChapter`: assumes `os.rmdir` succeeds. The source leaves the directory in place when removal fails, for example when the directory already existed with files in it.
- `Download.DownloadChapter`: assumes `os.makedirs` and the page file writes succeed. In the source, a failing write is not a request error. It leaves the page loop, and the catch-all handler (lines 122-124) then returns `None` for the whole chapter.
- The three `except` handlers (lines 116-124) are collapsed into failure reasons. Every reason maps to `None`.
- Documents shaped differently from what the code indexes are not modelled:
  - a series document that is not an object;
  - a `chapters` value that is null or not an object (line 21);
  - a chapter entry that is truthy but not an object;
  - a `groups` value that is not an object (line 26);
  - a group URL that is not a string;
  - a `pages` entry that is not a list.

  In the source these raise inside the `try` and become `None`, or they iterate over unexpected values.
- JSON objects with a repeated key are not modelled. Python's decoder keeps the last value for such a key, while `Selection.Dict.Get` returns the first.
- The unused `zipfile` import (line 5) has no counterpart.
- Python's `str.isalnum` and `str.isspace` accept Unicode letters, digits and spaces. The model uses ASCII only.
- `os.path.join` is modelled with POSIX rules. Windows drive letters and backslashes are not.

