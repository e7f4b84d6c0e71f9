# NextGEN gallery scraper, report aggregation and API data printer, in Dafny

This project models the logic of three parts of a WordPress export toolkit and proves
properties of that model.

- **`ngg_scraper.py`, the NextGEN gallery scraper.** For each post record of an export, it:
  - fetches the post's page;
  - collects candidate image URLs in two passes:
    - the `href` of each gallery-selector element that names an image;
    - the `href` or `src` of each `<a>`/`<img>` under `/wp-content/gallery/`, rewritten from thumbnail to full size;
  - makes each URL absolute against the post link;
  - saves each image under `output/slug/filename`;
  - skips files that already exist and counts new downloads.

  Modules:
  - `Urls` holds the pure string rules (the image-extension test, the thumbnail rewrite, absolutisation, and the file name taken from `urlparse(...).path`).
  - `Gallery` holds the two collection passes: the method `CollectCandidates` and the function `Candidates` that specifies it.
  - `Crawler` holds the record loop:
    - the methods `ScrapeNggImages`, `ProcessPost`, `SavePostImages`, `DownloadImages` and `DownloadImage`;
    - the functions that specify them (`Crawl`, `Records`, `RecordStep`, `DownloadAll`, `SaveImage`);
    - the lemmas about runs: growth of the counter, isolation of failures, and the rerun that downloads nothing.
- **`Report.py`, the report generator.** Module `Report` models:
  - the indented category tree `tree_categories`;
  - `posts_per_category`, which groups post titles by category name;
  - the per-author post count and its stable descending sort;
  - the two orders in which category groups are listed.

  `Sorting` is a stable sort with the meaning of Python's `sorted`/`list.sort` with a key and `reverse`.
- **`lib/infodisplayer.py`, the API information printer.** Module `InfoDisplayer` models:
  - `recurse_list_or_dict`, the recursive text rendering of decoded JSON;
  - the comma-joined methods and allowed-values lines;
  - the `+` sign put in front of a GMT offset.

`Strings` holds the Python string operations these need:
- `in`, `replace`, `join`, `split`;
- `str` of an int;
- string comparison.

`Wrappers` holds `Option`, `Result` and `Field`. `Field` distinguishes a member that is missing, `null` or present.

### How the scraper's environment is modelled

- **Filesystem.** It is a set of normalised paths. Files and directories share one namespace, as `os.path.exists` sees them.
- **Servers.** Three oracles stand for them:
  - `pageAt` gives an exception, or a status and the parsed page;
  - `imageAt` gives an exception, or a status and whether the body streams to the end;
  - `canOpen` tells whether a file can be opened.
- **`makedirs`.** The oracle `canMakeDirs` tells whether it succeeds.
- **The run's state.** It holds:
  - the paths;
  - `total_downloaded`;
  - the pages and images requested;
  - the number of delays taken.
- **Iteration order.** Set iteration order is not modelled. Each download loop picks an arbitrary next candidate and reports the order it used as a ghost result. Every property about runs holds for any such order.

A record whose title is not a JSON object raises outside the `try`, and so does an output folder that cannot be created; either ends the run, and the model returns `Crashed` for both. Everything else that raises inside the `try` only ends the current record.

### Behaviour worth knowing

The model follows the code in each case:

- **Deduplication.** Candidates are de-duplicated as raw strings, before absolutisation. So `//host/a.jpg` and `https://host/a.jpg` are two candidates that write the same file.
- **The delay.** It is skipped when a page cannot be fetched or answers with a status other than 200.
- **Partial files.** A write that fails part-way leaves the file behind without counting it. A rerun then skips it.
- **Unparsable URLs.** A candidate whose URL `urlsplit` rejects ends the whole record. Its network location must hold a `[` without a `]`, or the reverse, as in `//[h/wp-content/gallery/y.jpg`. `urljoin` and `urlparse` run outside the per-image `try`, so the candidates not yet visited are skipped, and so is the delay (`Crawler.UnparsableCandidateEndsLoop`). Which candidates come before it depends on the set's iteration order.
- **Thumbnails.** Pass 1 adds a thumbnail `href` verbatim while pass 2 rewrites the same URL. So both the thumbnail and the full-size image are downloaded (`Gallery.ThumbnailAnchorYieldsBoth`).

## Model

| member | source | states |
|---|---|---|
| Urls.ImageUrlIgnoresLetterCase | ngg_scraper.py:123-124 | the extension test ignores letter case: two URLs equal up to ASCII case are image URLs together or not at all |
| Urls.ImageUrlDecidedAfterSeparator | ngg_scraper.py:123-124 | after a `?` or `#`, only the text that follows it decides the extension test, since the match is anchored at the end |
| Urls.QueryDefeatsExtension | ngg_scraper.py:123-124 | a query string or fragment without a dot makes the test fail: `photo.jpg?v=2` is not an image URL |
| Gallery.ImageUrlOfSuffix | ngg_scraper.py:123-124 | any prefix before an image file name still gives an image URL |
| Urls.IsImageUrl | ngg_scraper.py:123-124 | definition: one of `.jpg`, `.jpeg`, `.png`, `.gif`, `.webp`, in any ASCII letter case, ends the URL |
| Gallery.CollectCandidates | ngg_scraper.py:53-78 | the two loops fill `images_to_download` with exactly the pass 1 URLs and the pass 2 URLs |
| Gallery.Pass1Members | ngg_scraper.py:57-60 | a URL is collected by pass 1 iff it is the non-empty `href` of a selected element and passes the extension test; it is kept verbatim |
| Gallery.Pass2Members | ngg_scraper.py:63-78 | a URL is collected by pass 2 iff it is the rewritten `href`-or-`src` of an `<a>`/`<img>` mentioning `/wp-content/gallery/`; no extension test is made |
| Gallery.SourceUsedWhenHrefEmpty | ngg_scraper.py:64-65 | an element with a missing or empty `href` contributes its `src` |
| Gallery.ThumbnailAnchorYieldsBoth | ngg_scraper.py:57-78 | a selected anchor to `dir/thumbs/thumbs_name` makes both that thumbnail and `dir/name` candidates, and they differ |
| Urls.ThumbnailRewrittenToFullSize | ngg_scraper.py:71-76 | `dir/thumbs/thumbs_name` is rewritten to `dir/name` |
| Urls.ThumbsFolderRewrittenToParent | ngg_scraper.py:71-76 | `dir/thumbs/name`, without the `thumbs_` prefix, is rewritten to `dir/name` |
| Urls.ThumbsRewrite | ngg_scraper.py:71-76 | definition: when the URL contains `/thumbs/`, every `/thumbs/thumbs_` and then every `/thumbs/` becomes `/`, scanning left to right without overlap as `str.replace` does; other URLs are kept |
| Urls.ThumbsRewriteShortens | ngg_scraper.py:71-76 | the rewrite only removes text, and removes some exactly when the URL contains `/thumbs/` |
| Urls.ProtocolRelativeKeepsItsHost | ngg_scraper.py:92-93 | a `//host/...` URL gets `https:` and keeps its own host, whatever the post link |
| Urls.RootedPathTakesLinkOrigin | ngg_scraper.py:94-95 | a `/path` URL becomes the post link's scheme and authority, as `urlsplit` reads them after stripping leading controls and spaces and deleting tabs and line breaks, followed by the path, when that scheme allows relative references |
| Urls.AbsolutiseIgnoresLinkLeadingSpace | ngg_scraper.py:94-95 | controls and spaces in front of the post link do not change the absolutised URL |
| Urls.PaddedLinkJoined | ngg_scraper.py:94-95 | an `https` link with controls or spaces in front keeps its host: with the link `" https://site/p"`, `/a.jpg` becomes `https://site/a.jpg` |
| Urls.AbsolutiseKeepsOthers | ngg_scraper.py:92-95 | a URL that does not start with `/` is left unchanged |
| Urls.AbsolutiseIdempotent | ngg_scraper.py:92-95 | once the link has a scheme, absolutising an absolutised URL changes nothing |
| Urls.Absolutise | ngg_scraper.py:92-95 | a `//host/...` URL parses with scheme `https` and its own host; a `/path` URL gets the scheme and authority of the post link as `urlsplit` reads it; any other URL is kept |
| Urls.FilenameIgnoresQuery | ngg_scraper.py:97 | a query string never reaches the file name, whatever tab or line break it holds |
| Urls.Filename | ngg_scraper.py:97 | the file name, the base name of `urlparse(url).path`, never contains `/`, so the file lands directly in the post's directory |
| Urls.FilenameIgnoresUnsafeChar | ngg_scraper.py:97 | a tab, carriage return or line feed anywhere in the URL does not change the file name: `urlsplit` deletes them first |
| Urls.LeadingSpaceIgnored | ngg_scraper.py:97 | C0 controls and spaces in front of a URL do not reach what `urlsplit` parses |
| Urls.OpenBracketHostRaises | ngg_scraper.py:92-97 | a protocol-relative URL whose host has a `[` and no `]` cannot be parsed once `https:` is put in front |
| Urls.NoBracketNoRaise | ngg_scraper.py:92-97 | a URL without `[` or `]` always parses |
| Urls.BasenameOfConcat | ngg_scraper.py:97 | the base name is the text after the last `/` |
| Crawler.DownloadImage | ngg_scraper.py:100-113 | one candidate's skip-or-fetch-and-write does what `SaveImage` describes |
| Crawler.SaveImage | ngg_scraper.py:100-113 | definition: an existing file is skipped; otherwise the image is requested, and a 200 response whose file opens creates it, counting it only when the body streams to the end |
| Crawler.SaveImageEffect | ngg_scraper.py:100-113 | an existing file is never requested; files are only added, and only the target; the counter rises by one iff the file did not exist, the response is 200 and the write completes; failures change nothing on disk |
| Crawler.DownloadImages | ngg_scraper.py:91-113 | the loop visits the candidates in some order; its result is that of the jobs of the candidates before the first unparsable one, and it reports a raise iff some candidate cannot be parsed |
| Crawler.SavePostImages | ngg_scraper.py:85-115 | the directory is made only for a non-empty candidate set, then the loop runs; the delay is taken unless a candidate cannot be parsed |
| Crawler.ProcessPost | ngg_scraper.py:32-118 | one record: a non-object title ends the run, a missing link or a failed page leaves the state as it was apart from the request |
| Crawler.ScrapeNggImages | ngg_scraper.py:12-120 | the whole run equals `Crawl` over the posts, for the candidate orders it used |
| Crawler.RecordStep | ngg_scraper.py:31-118 | definition: a non-object title crashes the run; a record without a link is skipped; otherwise the page is requested and its gallery saved |
| Crawler.Crawl | ngg_scraper.py:12-120 | definition: the output folder is created or the run crashes, then the records run in order |
| Crawler.RunJobsGrows | ngg_scraper.py:91-113 | the download loop never removes a file, raises the counter by at most one per candidate, and never by more than the number of new files |
| Crawler.AllTargetsExistNothingHappens | ngg_scraper.py:97-102 | when every candidate's file exists, the loop requests nothing and changes nothing |
| Crawler.FailedImageIsolated | ngg_scraper.py:104-113 | a failed image whose URL parses leaves the filesystem and counter as if it had not been a candidate |
| Crawler.UnparsableCandidateEndsLoop | ngg_scraper.py:92-117 | a candidate whose URL cannot be parsed ends the loop: the candidates after it are never visited |
| Crawler.UnparsableCandidateSkipsDelay | ngg_scraper.py:92-117 | such a candidate also skips the delay after the loop |
| Crawler.ParsedAppend | ngg_scraper.py:91-97 | the loop gets through all of a prefix of the visit order before the rest, unless a candidate of that prefix cannot be parsed |
| Crawler.RecordsGrow | ngg_scraper.py:31-118 | over the record loop files are only added and `total_downloaded` never decreases nor exceeds the number of new files |
| Crawler.RecordsCompleteUnlessBadTitle | ngg_scraper.py:31-118 | the run completes iff every record's title is an object: exceptions inside the `try` never stop later records |
| Crawler.CrashIsFinal | ngg_scraper.py:31-33 | once the run has crashed, later records change nothing |
| Crawler.FailedRecordIsolated | ngg_scraper.py:36-45 | a record without a link, or whose page fails or is not 200, takes no delay and leaves the later records running as if it were absent |
| Crawler.VisitPageQuiet | ngg_scraper.py:80-89 | a page with no candidates creates no directory and downloads nothing |
| Crawler.SettledInAnyOrder | ngg_scraper.py:91 | whether a record has nothing left to fetch does not depend on the visit order, when every candidate parses or the order is the same |
| Crawler.RecordsSettle | ngg_scraper.py:31-118 | after a completed run in which `makedirs` never fails, every record has its directory, and each candidate the loop reached is on disk or fails; the loop reaches all of them unless one cannot be parsed |
| Crawler.SettledRecordsQuiet | ngg_scraper.py:97-102 | a run over settled records changes nothing on disk and counts nothing |
| Crawler.RerunDownloadsNothing | ngg_scraper.py:12-120 | running the scraper again over its own output completes, adds no file and reports zero new downloads, in any visit order for records whose candidates all parse and in the same order for the others |
| Report.Children | Report.py:26 | the children list holds every category of the input with that parent, as often as it occurs, no other, in input order; it is empty iff none has that parent |
| Report.TreeCategories | Report.py:23-30 | the tree text is empty iff no category hangs under the given parent |
| Report.TreeIsOutline | Report.py:23-30 | the tree is the depth-first outline rendered line by line: each category at four more spaces than its parent, followed by its own subtree |
| Report.OutlineTopLevel | Report.py:26-28 | the categories at the outermost level are exactly the children of the parent, in input order |
| Report.UnreachedCycleIgnored | Report.py:23-30 | a parent cycle the walk never reaches does not stop it: `[{id: 1, parent: 0}, {id: 7, parent: 7}]` gives category 1 alone |
| Report.PostsPerCategory | Report.py:33-43 | the nested loops produce the grouping `PostsPerCategorySpec` describes, or its error |
| Report.FilePost | Report.py:38-42 | one post's titles are filed under each of its category labels, in its category order |
| Report.CategoryNamesLastWins | Report.py:35 | building `cat_map` fails iff some category lacks its id or name; otherwise every id maps to the name of its last category |
| Report.EntriesOutcome | Report.py:37-42 | grouping fails iff some post has a `null` category list, or a non-object title together with at least one category; a post without categories adds nothing; there is one entry per (post, category id) |
| Report.GroupEntriesKeys | Report.py:39-40 | the groups are exactly the labels that occur, each once, so categories sharing a name share a group |
| Report.GroupEntriesOrder | Report.py:40 | the groups come in the order their labels first occur |
| Report.GroupEntriesTitles | Report.py:40-42 | each group holds exactly the titles filed under its label, in post order |
| Report.GroupSizesAddUp | Report.py:37-42 | the group sizes add up to the number of (post, category id) pairs |
| Report.SizeOrderCorrect | Report.py:119 | the size section is a permutation of the groups, larger groups first, equal sizes in dict order |
| Report.LabelOrderCorrect | Report.py:148 | the label section is a permutation of the groups in strictly increasing label order |
| Report.UsersWithCount | Report.py:183-197 | the counting loop, the row loop and the sort give the stable sort of the (name, count) rows |
| Report.UsersOrderedByCount | Report.py:196-197 | the user list is a permutation of the rows, higher counts first, equal counts in input order |
| Report.CountByZero | Report.py:183-193 | a user's count is zero iff no post names them as author, and never exceeds the number of posts |
| Report.CountByIsCardinality | Report.py:183-186 | a user's count is the number of posts whose `author` is the user's id |
| Sorting.SortByCorrect | Report.py:197 | the sort is sorted, a permutation of its input, and stable: equivalent elements keep their input order, as Python's `sort` does with `reverse=True` |
| Sorting.SortBy | Report.py:197 | definition: insertion of each element after the elements already placed that it does not precede, which keeps equal elements in input order |
| InfoDisplayer.RecurseListOrDict | lib/infodisplayer.py:493-531 | the loops build exactly the rendering `Render` describes |
| InfoDisplayer.Render | lib/infodisplayer.py:493-531 | definition: a list renders item by item and an object member by member, each value by `Piece`, nested containers one tab further in |
| InfoDisplayer.AppendValue | lib/infodisplayer.py:504-515 | a value's contribution: nested containers one tab in, multi-line strings on fresh lines, anything else after a space |
| InfoDisplayer.SingleLineStringVerbatim | lib/infodisplayer.py:510-513 | a string without a line break follows a space, unchanged by the replace |
| InfoDisplayer.MultiLineStringIndented | lib/infodisplayer.py:507-509 | a multi-line string is printed one line per line, each indented one tab further |
| InfoDisplayer.SingleLineStringsShareALine | lib/infodisplayer.py:503-517 | a list of single-line strings prints on one line, each string after a space |
| InfoDisplayer.ScalarsOnePerLine | lib/infodisplayer.py:514-517 | a list of non-string scalars prints one value per line |
| InfoDisplayer.FlatObjectOneMemberPerLine | lib/infodisplayer.py:519-531 | an object of scalars prints each member on its own line: key, a space, the value |
| InfoDisplayer.CommaJoinLine | lib/infodisplayer.py:125-132 | the `first`-flag loop gives the lead followed by the items joined with `", "` |
| InfoDisplayer.MethodsLine | lib/infodisplayer.py:125-132 | the methods line is four spaces and the methods joined with `", "` |
| InfoDisplayer.AllowedValuesLine | lib/infodisplayer.py:145-153 | the allowed-values line is its lead and the values joined with `", "` |
| InfoDisplayer.CommaJoinReadsBack | lib/infodisplayer.py:125-132 | splitting the joined line on `", "` gives the items back when none contains that separator |
| InfoDisplayer.GmtOffsetSigned | lib/infodisplayer.py:57-59 | a whole-hour offset always prints with exactly one sign: `-` for negative offsets, `+` otherwise |
| Strings.SplitJoin | lib/infodisplayer.py:125-132 | joining a non-empty list on a separator that cannot overlap itself (such as `", "`), then splitting on it, gives the items back when no item contains the separator |
| Strings.IntToDecimalRoundTrip | lib/infodisplayer.py:57 | `str(n)` has a minus sign iff `n` is negative, and reads back as `n` |

## Left out

- HTTP is not modelled:
  - `requests.Session`, headers, timeouts and chunk sizes;
  - bytes written to a file.

  An oracle gives each response instead.
- HTML parsing and CSS selector matching are not modelled. A page is its sequence of elements, each flagged as matching the gallery selector or not.
- The filesystem and `json.load` are not modelled. Instead:
  - `makedirs` creates one path; the parents it would also create are not added;
  - path equivalences other than trailing `/` are not modelled.
- `time.sleep` is counted, not timed. Argument parsing, `print` and the output of `report.txt` are left out.
- `is_image_url`: Python's `$` also matching before a final newline is not modelled. A URL ending in `.jpg\n` counts as not an image here.
- Urls.RootedPathTakesLinkOrigin: `urljoin` is modelled only for references starting with a single `/`, the only case the scraper passes it, as the scheme and authority `urlsplit` reads from the link (after its cleaning) followed by the reference. The following normalisations of the reference are not modelled, so for such references the URL requested can differ from Python's:
  - dot segments are not removed;
  - an empty `?` or `#` is not dropped;
  - an empty `;` parameter list is not dropped (`/a.jpg;` stays as it is, where `urlunparse` writes `/a.jpg`);
  - `urljoin`'s own deletion of tabs and line breaks is not applied (`/\t/host/x.jpg` is not turned into a reference to `host`).

  The file name is not affected by the last three: `Urls.UrlPath` cuts the parameters and the query, and cleans the URL as `urlsplit` does.
- Urls.PaddedLinkJoined: its joined URL is Python's only for references without the forms listed on the line above (dot segments, an empty `?`, `#` or `;`, tabs and line breaks); for those, the request can differ while the file name does not.
- Urls.ParseRaises: `urlsplit` raising on a network location with unbalanced brackets is modelled. Its further checks are not: the IPv6 or IPvFuture syntax of a bracketed host, and the NFKC check of a non-ASCII host. Both depend on the Python version, so such URLs parse in the model.
- Set iteration order is not modelled. When two candidates share a file name, which one is written depends on the order, so only order-independent properties are stated.
- Posts are assumed to be JSON objects, with an id that is an int when present and a slug that is a string or `null`. A slug of another type is not modelled.
- Report: category ids and parents are taken as ints or missing. A `null` id or parent reads as missing, that is 0, whereas Python compares `None`, which equals no int: a category whose parent is `null` is the child of no int id, so it is not a root, and one whose id is `null` recurses with `parent=None`. This is not modelled. Category names are assumed to be strings when present. A category list that is neither a list nor `null` is not modelled, and user names are taken as strings or `null`.
- Report: the assembly of the report text and the page and media sections are left out, since they only print fields.
- Report.TreeCategories: requires a rank over the categories the walk reaches, with each child ranked below its parent. Unreached ids get rank 0 and are unconstrained. So the model covers exactly the inputs on which the walk from the starting parent is finite. Python also raises `RecursionError` on an acyclic chain of categories deeper than its recursion limit (about a thousand); the model renders such a chain. An unreached cycle is allowed (`Report.UnreachedCycleIgnored`). A reached cycle makes Python raise `RecursionError` after about a thousand nested calls. So does a category whose id is missing or 0, at any depth of the walk from the roots, because its subtree starts again at the roots. That error is not modelled.
- Report.UsersWithCount: the in-place `list.sort` is modelled as the function `Sorting.SortBy` on the sequence of rows.
- InfoDisplayer: the `display_*` print loops, `html.unescape`, date formatting, the CSV reference file and console logging are left out.
- InfoDisplayer.GmtOffsetSigned: states the sign rule for integer offsets only. Fractional offsets printed by `str` of a float are not modelled.
- Crawler.RerunDownloadsNothing: for a record with a candidate that cannot be parsed, assumes the rerun visits the candidates in the same order. In another order the loop stops at a different point, and the rerun may download a candidate the first run never reached. It also assumes `makedirs` never fails. Otherwise a file written by a later record could take the path of an earlier record's missing directory, and the second run would differ.
