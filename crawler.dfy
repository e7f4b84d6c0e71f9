/**
 * The record loop of the NextGEN gallery scraper, `scrape_ngg_images`
 * (ngg_scraper.py:12-120), as a state machine over an abstract filesystem and abstract
 * servers.
 *
 * The filesystem is the set of existing paths, files and directories alike, each written
 * without trailing `/`. The web is a set of deterministic oracles: what fetching a page
 * or an image answers, whether a file can be opened for writing and whether a directory
 * can be created. The run's observable state is the filesystem, the counter
 * `total_downloaded`, the requests made, in order, and the number of delays taken.
 * Python iterates a set in an arbitrary order, so every function that processes
 * `images_to_download` takes the order as a parameter and the properties hold for any
 * enumeration of the set.
 */
module Crawler {
  import opened Wrappers
  import opened Strings
  import opened Urls
  import opened Gallery

  // ---------------------------------------------------------------------------
  // Environment

  /** What `session.get(link)` gives: an exception, or a status and the parsed page. */
  datatype PageResponse = PageRaised | PageFetched(status: int, page: seq<Element>)

  /** What `session.get(img_url, stream=True)` gives: an exception, or a status and
      whether streaming the body to the file completes without raising. */
  datatype ImageResponse = ImageRaised | ImageFetched(status: int, streamCompletes: bool)

  datatype Env = Env(
    pageAt: string -> PageResponse,
    imageAt: string -> ImageResponse,
    canOpen: string -> bool,
    canMakeDirs: string -> bool)

  /** One record of posts.json, as far as the scraper reads it. `titleIsObject` holds
      when `title` is missing or a JSON object: anything else makes `.get("rendered")`
      raise outside the record's `try`. */
  datatype Post = Post(link: Option<string>, titleIsObject: bool, slug: Field<string>, id: Option<int>)

  // ---------------------------------------------------------------------------
  // Paths

  /** A path as `os.path.exists` sees it: trailing `/` do not matter. */
  function Norm(p: string): string
    decreases |p|
  {
    if |p| > 1 && p[|p| - 1] == '/' then Norm(p[..|p| - 1]) else p
  }

  predicate Exists(paths: set<string>, p: string) {
    Norm(p) in paths
  }

  /** `os.path.join(a, b)` on POSIX. */
  function PathJoin(a: string, b: string): string {
    if StartsWith(b, "/") then b
    else if a == "" || a[|a| - 1] == '/' then a + b
    else a + "/" + b
  }

  /** `post.get("slug", str(post.get("id")))`; `None` when the slug is `null`, which makes
      `os.path.join` raise. */
  function SlugOf(post: Post): Option<string> {
    match post.slug
    case Present(s) => Some(s)
    case Null => None
    case Absent => Some(match post.id case Some(n) => IntToDecimal(n) case None => "None")
  }

  // ---------------------------------------------------------------------------
  // State and steps

  datatype CrawlState = CrawlState(
    paths: set<string>,
    total: nat,
    pagesFetched: seq<string>,
    imagesFetched: seq<string>,
    sleeps: nat)

  datatype Crash = OutputFolderNotCreated | TitleNotAnObject

  /** How a run ends: normally, or stopped by an exception no `try` catches, with the
      state reached by then. */
  datatype Outcome = Completed(st: CrawlState) | Crashed(st: CrawlState, reason: Crash)

  /** The file an image candidate is saved to (ngg_scraper.py:92-98). */
  function TargetOf(link: string, dir: string, raw: string): string {
    PathJoin(dir, Filename(Absolutise(raw, link)))
  }

  /** What the inner loop does with one candidate: the absolute URL it requests and the
      file it writes. */
  datatype Job = Job(url: string, target: string)

  function JobOf(link: string, dir: string, raw: string): Job {
    Job(Absolutise(raw, link), TargetOf(link, dir, raw))
  }

  /** The job maker of a post: its link and its media directory fixed. */
  function JobFor(link: string, dir: string): string -> Job {
    raw => JobOf(link, dir, raw)
  }

  /** `f` applied to each candidate, in order. */
  function MapJobs(f: string -> Job, order: seq<string>): (r: seq<Job>)
    ensures |r| == |order|
    decreases |order|
  {
    if |order| == 0 then [] else MapJobs(f, order[..|order| - 1]) + [f(order[|order| - 1])]
  }

  /** Turning candidate `raw` into a file name raises (ngg_scraper.py:92-97): `urljoin`
      parses the post link and the reference, then `urlparse` parses the absolute URL.
      The exception is outside the per-image `try`, so it ends the record. */
  predicate CandidateRaises(link: string, raw: string) {
    var joins := StartsWith(raw, "/") && !StartsWith(raw, "//");
    (joins && (ParseRaises(link) || ParseRaises(raw))) || ParseRaises(Absolutise(raw, link))
  }

  /** The test of a post: its link fixed. */
  function RaisesFor(link: string): string -> bool {
    raw => CandidateRaises(link, raw)
  }

  predicate AllParse(link: string, order: seq<string>) {
    NoneFail(RaisesFor(link), order)
  }

  predicate NoneFail(fails: string -> bool, order: seq<string>) {
    forall raw :: raw in order ==> !fails(raw)
  }

  predicate SomeRaises(link: string, images: set<string>) {
    exists raw :: raw in images && CandidateRaises(link, raw)
  }

  /** The candidates the loop gets through when it visits `order`: those before the
      first one that raises. */
  function Parsed(link: string, order: seq<string>): seq<string> {
    TakeUntil(RaisesFor(link), order)
  }

  /** The longest prefix of `order` in which nothing fails. */
  function TakeUntil(fails: string -> bool, order: seq<string>): seq<string>
    decreases |order|
  {
    if |order| == 0 || fails(order[0]) then [] else [order[0]] + TakeUntil(fails, order[1..])
  }

  /** The jobs the loop runs when it visits the candidates in `order`. */
  function Jobs(link: string, dir: string, order: seq<string>): seq<Job> {
    MapJobs(JobFor(link, dir), Parsed(link, order))
  }

  /** The response makes the download leave the filesystem as it is. */
  predicate ImageFails(env: Env, url: string, target: string) {
    match env.imageAt(url)
    case ImageRaised => true
    case ImageFetched(status, _) => status != 200 || !env.canOpen(Norm(target))
  }

  /** The skip-or-download of an absolute `url` into the file `target`
      (ngg_scraper.py:100-113): an existing file is never requested again, and the
      counter rises by one only when a new file is written to the end. */
  function SaveImage(env: Env, url: string, target: string, st: CrawlState): CrawlState {
    if Exists(st.paths, target) then st
    else
      var st1 := st.(imagesFetched := st.imagesFetched + [url]);
      match env.imageAt(url)
      case ImageRaised => st1
      case ImageFetched(status, completes) =>
        if status != 200 || !env.canOpen(Norm(target)) then st1
        else st1.(paths := st1.paths + {Norm(target)}, total := if completes then st1.total + 1 else st1.total)
  }

  /** The skip-or-download of an absolute `url` into the file `target`: an existing file
      is never requested again, a failed request leaves the filesystem alone, and the
      counter rises by one exactly when a new file is written to the end. */
  lemma SaveImageEffect(env: Env, url: string, target: string, st: CrawlState)
    ensures var r := SaveImage(env, url, target, st);
      && st.paths <= r.paths <= st.paths + {Norm(target)}
      && (r.total == st.total || (r.total == st.total + 1 && Norm(target) in r.paths - st.paths))
      && (Exists(st.paths, target) ==> r == st)
      && (!Exists(st.paths, target) ==> r.imagesFetched == st.imagesFetched + [url])
      && (r.paths != st.paths <==> !Exists(st.paths, target) && !ImageFails(env, url, target))
      && (r.total == st.total + 1 <==>
           !Exists(st.paths, target) && env.imageAt(url) == ImageFetched(200, true) && env.canOpen(Norm(target)))
      && r.pagesFetched == st.pagesFetched && r.sleeps == st.sleeps
  {
  }

  /** The inner loop over the jobs, in order. */
  function RunJobs(env: Env, jobs: seq<Job>, st: CrawlState): CrawlState
    decreases |jobs|
  {
    if |jobs| == 0 then st
    else
      var job := jobs[|jobs| - 1];
      SaveImage(env, job.url, job.target, RunJobs(env, jobs[..|jobs| - 1], st))
  }

  /** The inner loop over `images_to_download`, visited in `order` (ngg_scraper.py:91-113). */
  function DownloadAll(env: Env, link: string, dir: string, order: seq<string>, st: CrawlState): CrawlState {
    RunJobs(env, Jobs(link, dir, order), st)
  }

  /** The candidates a record yields: empty unless its page is fetched with status 200. */
  function CandidatesOf(env: Env, post: Post): set<string> {
    if post.link.Some? && post.link.value != "" then PageCandidates(env, post.link.value) else {}
  }

  /** The candidates found on the page at `link`: none unless it answers with status 200. */
  function PageCandidates(env: Env, link: string): set<string> {
    match env.pageAt(link)
    case PageRaised => {}
    case PageFetched(status, page) => if status == 200 then Candidates(page) else {}
  }

  /** One iteration of the record loop (ngg_scraper.py:31-118). */
  function RecordStep(env: Env, out: string, post: Post, order: seq<string>, st: CrawlState): Outcome {
    if !post.titleIsObject then Crashed(st, TitleNotAnObject)
    else if !Truthy(post.link) then Completed(st)
    else
      var link := post.link.value;
      Completed(VisitPage(env, out, link, SlugOf(post), order, st.(pagesFetched := st.pagesFetched + [link])))
  }

  /** The part of a record inside the `try`, once its page is requested
      (ngg_scraper.py:42-115). */
  function VisitPage(env: Env, out: string, link: string, slug: Option<string>, order: seq<string>,
                     st: CrawlState): CrawlState
  {
    match env.pageAt(link)
    case PageRaised => st
    case PageFetched(status, page) =>
      if status != 200 then st else SaveGallery(env, out, link, slug, Candidates(page), order, st)
  }

  /** The post's candidates are saved under `out/slug`, then the delay is taken
      (ngg_scraper.py:85-115). A `null` slug, a failing `makedirs` or a candidate whose
      URL cannot be parsed raise before the delay. */
  function SaveGallery(env: Env, out: string, link: string, slug: Option<string>, images: set<string>,
                       order: seq<string>, st: CrawlState): CrawlState
  {
    if images == {} then st.(sleeps := st.sleeps + 1)
    else match slug
      case None => st
      case Some(s) =>
        var dir := PathJoin(out, s);
        if Exists(st.paths, dir) || env.canMakeDirs(Norm(dir)) then
          var st1 := if Exists(st.paths, dir) then st else st.(paths := st.paths + {Norm(dir)});
          var st2 := DownloadAll(env, link, dir, order, st1);
          if SomeRaises(link, images) then st2 else st2.(sleeps := st2.sleeps + 1)
        else st
  }

  /** The record loop over `posts`, `orders[i]` being the order the i-th record's
      candidates are visited in. */
  function Records(env: Env, out: string, posts: seq<Post>, orders: seq<seq<string>>, st: CrawlState): Outcome
    requires |orders| == |posts|
    decreases |posts|
  {
    if |posts| == 0 then Completed(st)
    else match Records(env, out, posts[..|posts| - 1], orders[..|posts| - 1], st)
      case Crashed(s, why) => Crashed(s, why)
      case Completed(s) => RecordStep(env, out, posts[|posts| - 1], orders[|posts| - 1], s)
  }

  function InitialState(paths: set<string>): CrawlState {
    CrawlState(paths, 0, [], [], 0)
  }

  /** A whole run of `scrape_ngg_images` on a filesystem holding `paths`. */
  function Crawl(env: Env, out: string, posts: seq<Post>, orders: seq<seq<string>>, paths: set<string>): Outcome
    requires |orders| == |posts|
  {
    if !Exists(paths, out) && !env.canMakeDirs(Norm(out)) then Crashed(InitialState(paths), OutputFolderNotCreated)
    else Records(env, out, posts, orders, InitialState(if Exists(paths, out) then paths else paths + {Norm(out)}))
  }

  /** `order` visits every element of `s` exactly once. */
  ghost predicate IsEnumeration(order: seq<string>, s: set<string>) {
    (forall x :: x in order <==> x in s) && Distinct(order)
  }

  ghost predicate Distinct(order: seq<string>) {
    forall i, j :: 0 <= i < j < |order| ==> order[i] != order[j]
  }

  /** Visiting one more element of the set keeps `order` an enumeration of what has
      been visited. */
  lemma VisitOne(order: seq<string>, images: set<string>, remaining: set<string>, x: string)
    requires remaining <= images && x in remaining
    requires forall y :: y in order <==> y in images - remaining
    requires Distinct(order)
    ensures forall y :: y in order + [x] <==> y in images - (remaining - {x})
    ensures Distinct(order + [x])
  {
    assert x !in order;
    forall i, j | 0 <= i < j < |order| + 1 ensures (order + [x])[i] != (order + [x])[j] {
      if j == |order| {
        assert (order + [x])[i] == order[i];
      }
    }
  }

  ghost function Enumerate(s: set<string>): (r: seq<string>)
    ensures IsEnumeration(r, s)
    decreases s
  {
    if s == {} then []
    else
      var x :| x in s;
      var rest := Enumerate(s - {x});
      [x] + rest
  }

  // ---------------------------------------------------------------------------
  // The loops

  /** The download loop (ngg_scraper.py:91-113): visits the set in some order, and the
      result is that of visiting it in that order. `raised` reports a candidate whose
      URL cannot be parsed, which leaves the loop and the record. */
  method DownloadImages(env: Env, link: string, dir: string, images: set<string>, st: CrawlState)
    returns (r: CrawlState, raised: bool, ghost order: seq<string>)
    ensures IsEnumeration(order, images)
    ensures r == DownloadAll(env, link, dir, order, st)
    ensures raised <==> SomeRaises(link, images)
  {
    r := st;
    raised := false;
    order := [];
    var remaining := images;
    ghost var f := JobFor(link, dir);
    while remaining != {}
      invariant remaining <= images
      invariant forall x :: x in order <==> x in images - remaining
      invariant Distinct(order)
      invariant AllParse(link, order)
      invariant r == RunJobs(env, MapJobs(f, order), st)
      decreases remaining
    {
      var imgUrl :| imgUrl in remaining;
      VisitOne(order, images, remaining, imgUrl);
      var url := imgUrl;
      var fails := false;
      if StartsWith(url, "//") {
        url := "https:" + url;
      } else if StartsWith(url, "/") {
        fails := ParseRaises(link) || ParseRaises(url);
        url := JoinRooted(link, url);
      }
      assert url == Absolutise(imgUrl, link);
      fails := fails || ParseRaises(url);
      if fails {
        raised := true;
        EndAtRaise(link, order, imgUrl, images, remaining);
        order := order + [imgUrl] + Enumerate(remaining - {imgUrl});
        return;
      }
      RunJobsSnoc(env, f, order, imgUrl, st);
      assert f(imgUrl) == Job(url, PathJoin(dir, Filename(url)));
      remaining := remaining - {imgUrl};
      order := order + [imgUrl];
      var filename := Filename(url);
      var filepath := PathJoin(dir, filename);
      r := DownloadImage(env, url, filepath, r);
    }
    ParsedWhenAllParse(link, order);
  }

  /** A candidate that raises, met after `done`, ends the loop: the order is completed
      with the candidates never reached, and the jobs run are those of `done`. */
  lemma EndAtRaise(link: string, done: seq<string>, x: string, images: set<string>, remaining: set<string>)
    requires remaining <= images && x in remaining
    requires forall y :: y in done <==> y in images - remaining
    requires Distinct(done) && AllParse(link, done)
    requires CandidateRaises(link, x)
    ensures var order := done + [x] + Enumerate(remaining - {x});
      IsEnumeration(order, images) && Parsed(link, order) == done
    ensures SomeRaises(link, images)
  {
    var rest := Enumerate(remaining - {x});
    EnumerationCompleted(done, x, images, remaining);
    TakeUntilStops(RaisesFor(link), done, x, rest);
  }

  /** The visited candidates, the current one and an enumeration of the others make up
      an enumeration of the set. */
  lemma EnumerationCompleted(done: seq<string>, x: string, images: set<string>, remaining: set<string>)
    requires remaining <= images && x in remaining
    requires forall y :: y in done <==> y in images - remaining
    requires Distinct(done)
    ensures IsEnumeration(done + [x] + Enumerate(remaining - {x}), images)
  {
    VisitOne(done, images, remaining, x);
    var rest := Enumerate(remaining - {x});
    var order := done + [x] + rest;
    forall i, j | 0 <= i < j < |order| ensures order[i] != order[j] {
      if j >= |done| + 1 {
        assert order[j] == rest[j - |done| - 1];
        assert order[j] in remaining - {x};
        if i >= |done| + 1 {
          assert order[i] == rest[i - |done| - 1];
        } else {
          assert order[i] == (done + [x])[i];
          assert order[i] in done + [x];
        }
      } else {
        assert order[i] == (done + [x])[i] && order[j] == (done + [x])[j];
      }
    }
  }

  lemma TakeUntilStops(fails: string -> bool, done: seq<string>, x: string, rest: seq<string>)
    requires NoneFail(fails, done) && fails(x)
    ensures TakeUntil(fails, done + [x] + rest) == done
  {
    assert done + [x] + rest == done + ([x] + rest);
    TakeUntilAppend(fails, done, [x] + rest);
    assert ([x] + rest)[0] == x;
    assert done + [] == done;
  }

  /** The fetch and write of one image (ngg_scraper.py:100-113). */
  method DownloadImage(env: Env, url: string, filepath: string, st: CrawlState) returns (r: CrawlState)
    ensures r == SaveImage(env, url, filepath, st)
  {
    r := st;
    if Exists(r.paths, filepath) {
      return;
    }
    r := r.(imagesFetched := r.imagesFetched + [url]);
    var response := env.imageAt(url);
    if response.ImageFetched? && response.status == 200 {
      if env.canOpen(Norm(filepath)) {
        r := r.(paths := r.paths + {Norm(filepath)});
        if response.streamCompletes {
          r := r.(total := r.total + 1);
        }
      }
    }
  }

  /** `scrape_ngg_images` (ngg_scraper.py:12-120), once `posts.json` is loaded. */
  method ScrapeNggImages(env: Env, posts: seq<Post>, outputFolder: string, paths: set<string>)
    returns (outcome: Outcome, ghost orders: seq<seq<string>>)
    ensures |orders| == |posts|
    ensures forall i :: 0 <= i < |posts| ==> IsEnumeration(orders[i], CandidatesOf(env, posts[i]))
    ensures outcome == Crawl(env, outputFolder, posts, orders, paths)
  {
    orders := seq(|posts|, k requires 0 <= k < |posts| => Enumerate(CandidatesOf(env, posts[k])));
    var st := InitialState(paths);
    if !Exists(st.paths, outputFolder) {
      if !env.canMakeDirs(Norm(outputFolder)) {
        return Crashed(st, OutputFolderNotCreated), orders;
      }
      st := st.(paths := st.paths + {Norm(outputFolder)});
    }
    ghost var start := st;
    for i := 0 to |posts|
      invariant |orders| == |posts|
      invariant forall k :: 0 <= k < |posts| ==> IsEnumeration(orders[k], CandidatesOf(env, posts[k]))
      invariant Records(env, outputFolder, posts[..i], orders[..i], start) == Completed(st)
    {
      var result;
      ghost var order;
      result, order := ProcessPost(env, outputFolder, posts[i], st);
      ghost var before := orders;
      orders := orders[i := order];
      assert orders[..i] == before[..i];
      RecordsStep(env, outputFolder, posts, orders, i, start, st);
      if result.Crashed? {
        CrashEndsRun(env, outputFolder, posts, orders, i, start);
        return result, orders;
      }
      st := result.st;
    }
    assert posts[..|posts|] == posts && orders[..|posts|] == orders;
    outcome := Completed(st);
  }

  lemma RecordsStep(env: Env, out: string, posts: seq<Post>, orders: seq<seq<string>>, i: nat, start: CrawlState,
                    st: CrawlState)
    requires i < |posts| == |orders|
    requires Records(env, out, posts[..i], orders[..i], start) == Completed(st)
    ensures Records(env, out, posts[..i + 1], orders[..i + 1], start) == RecordStep(env, out, posts[i], orders[i], st)
  {
    assert posts[..i + 1][..i] == posts[..i];
    assert orders[..i + 1][..i] == orders[..i];
  }

  lemma CrashEndsRun(env: Env, out: string, posts: seq<Post>, orders: seq<seq<string>>, i: nat, start: CrawlState)
    requires i < |posts| == |orders|
    requires Records(env, out, posts[..i + 1], orders[..i + 1], start).Crashed?
    ensures Records(env, out, posts, orders, start) == Records(env, out, posts[..i + 1], orders[..i + 1], start)
  {
    assert posts[..i + 1] + posts[i + 1..] == posts;
    assert orders[..i + 1] + orders[i + 1..] == orders;
    CrashIsFinal(env, out, posts[..i + 1], posts[i + 1..], orders[..i + 1], orders[i + 1..], start);
  }

  /** One record of the loop (ngg_scraper.py:32-118): the title is read outside the
      `try`, everything after it inside, so only a bad title ends the run. */
  method ProcessPost(env: Env, outputFolder: string, post: Post, st: CrawlState)
    returns (outcome: Outcome, ghost order: seq<string>)
    ensures IsEnumeration(order, CandidatesOf(env, post))
    ensures outcome == RecordStep(env, outputFolder, post, order, st)
  {
    order := Enumerate(CandidatesOf(env, post));
    if !post.titleIsObject {
      return Crashed(st, TitleNotAnObject), order;
    }
    var link := post.link;
    var slug := SlugOf(post);
    if !(link.Some? && link.value != "") {
      return Completed(st), order;
    }
    var next := st.(pagesFetched := st.pagesFetched + [link.value]);
    var response := env.pageAt(link.value);
    if response.PageRaised? || response.status != 200 {
      return Completed(next), order;
    }
    var imagesToDownload := CollectCandidates(response.page);
    next, order := SavePostImages(env, outputFolder, link.value, slug, imagesToDownload, next);
    return Completed(next), order;
  }

  /** Directory creation, the download loop and the delay (ngg_scraper.py:85-115). */
  method SavePostImages(env: Env, outputFolder: string, link: string, slug: Option<string>,
                        imagesToDownload: set<string>, st: CrawlState)
    returns (next: CrawlState, ghost order: seq<string>)
    ensures IsEnumeration(order, imagesToDownload)
    ensures next == SaveGallery(env, outputFolder, link, slug, imagesToDownload, order, st)
  {
    next := st;
    order := Enumerate(imagesToDownload);
    if imagesToDownload != {} {
      if slug.None? {
        return;
      }
      var postMediaDir := PathJoin(outputFolder, slug.value);
      if !Exists(next.paths, postMediaDir) {
        if !env.canMakeDirs(Norm(postMediaDir)) {
          return;
        }
        next := next.(paths := next.paths + {Norm(postMediaDir)});
      }
      var raised;
      next, raised, order := DownloadImages(env, link, postMediaDir, imagesToDownload, next);
      if raised {
        return;
      }
    }
    next := next.(sleeps := next.sleeps + 1);
  }

  // ---------------------------------------------------------------------------
  // Properties of the run

  /** An uncaught exception ends the run: later records are never reached. */
  lemma {:induction false} CrashIsFinal(env: Env, out: string, done: seq<Post>, later: seq<Post>,
                                        doneOrders: seq<seq<string>>, laterOrders: seq<seq<string>>, st: CrawlState)
    requires |doneOrders| == |done| && |laterOrders| == |later|
    requires Records(env, out, done, doneOrders, st).Crashed?
    ensures Records(env, out, done + later, doneOrders + laterOrders, st) == Records(env, out, done, doneOrders, st)
    decreases |later|
  {
    if |later| == 0 {
      assert done + later == done && doneOrders + laterOrders == doneOrders;
    } else {
      var n := |done + later|;
      assert (done + later)[..n - 1] == done + later[..|later| - 1];
      assert (doneOrders + laterOrders)[..n - 1] == doneOrders + laterOrders[..|later| - 1];
      CrashIsFinal(env, out, done, later[..|later| - 1], doneOrders, laterOrders[..|later| - 1], st);
    }
  }

  /** Two states that agree on the filesystem, the counter and the delays. */
  predicate SameCore(a: CrawlState, b: CrawlState) {
    a.paths == b.paths && a.total == b.total && a.sleeps == b.sleeps
  }

  predicate SameOutcomeCore(a: Outcome, b: Outcome) {
    a.Completed? == b.Completed? && SameCore(a.st, b.st) && (a.Crashed? ==> a.reason == b.reason)
  }

  /** The i-th job is that of the i-th candidate. */
  lemma {:induction false} MapJobsAt(f: string -> Job, order: seq<string>, i: int)
    requires 0 <= i < |order|
    ensures MapJobs(f, order)[i] == f(order[i])
    decreases |order|
  {
    if i < |order| - 1 {
      MapJobsAt(f, order[..|order| - 1], i);
    }
  }

  lemma MapJobsAppend(f: string -> Job, o1: seq<string>, o2: seq<string>)
    ensures MapJobs(f, o1 + o2) == MapJobs(f, o1) + MapJobs(f, o2)
  {
    var a := MapJobs(f, o1 + o2);
    var b := MapJobs(f, o1) + MapJobs(f, o2);
    assert |a| == |b|;
    forall i | 0 <= i < |a| ensures a[i] == b[i] {
      MapJobsAt(f, o1 + o2, i);
      if i < |o1| {
        assert (o1 + o2)[i] == o1[i];
        MapJobsAt(f, o1, i);
      } else {
        assert (o1 + o2)[i] == o2[i - |o1|];
        MapJobsAt(f, o2, i - |o1|);
      }
    }
  }

  lemma MapJobsAround(f: string -> Job, before: seq<string>, raw: string, after: seq<string>)
    ensures MapJobs(f, before + [raw] + after) == MapJobs(f, before) + [f(raw)] + MapJobs(f, after)
    ensures MapJobs(f, before + after) == MapJobs(f, before) + MapJobs(f, after)
  {
    MapJobsAppend(f, before + [raw], after);
    MapJobsAppend(f, before, [raw]);
    MapJobsAppend(f, before, after);
    var one := MapJobs(f, [raw]);
    assert |one| == 1 && one[0] == f(raw);
    assert one == [f(raw)];
  }

  /** The job of every candidate visited is one the loop runs. */
  lemma MapJobsCover(f: string -> Job, order: seq<string>, raw: string)
    requires raw in order
    ensures f(raw) in MapJobs(f, order)
  {
    var i :| 0 <= i < |order| && order[i] == raw;
    MapJobsAt(f, order, i);
  }

  /** The loop gets through all of `a` before it reaches `b`, unless a candidate of `a`
      raises. */
  lemma ParsedAppend(link: string, a: seq<string>, b: seq<string>)
    ensures Parsed(link, a + b) == if AllParse(link, a) then a + Parsed(link, b) else Parsed(link, a)
  {
    TakeUntilAppend(RaisesFor(link), a, b);
  }

  lemma {:induction false} TakeUntilAppend(fails: string -> bool, a: seq<string>, b: seq<string>)
    ensures TakeUntil(fails, a + b) == if NoneFail(fails, a) then a + TakeUntil(fails, b) else TakeUntil(fails, a)
    decreases |a|
  {
    if |a| == 0 {
      assert a + b == b;
    } else {
      assert (a + b)[0] == a[0];
      assert (a + b)[1..] == a[1..] + b;
      TakeUntilAppend(fails, a[1..], b);
      assert forall raw :: raw in a <==> raw == a[0] || raw in a[1..];
      if NoneFail(fails, a) {
        assert [a[0]] + (a[1..] + TakeUntil(fails, b)) == a + TakeUntil(fails, b);
      }
    }
  }

  /** When every candidate parses, the loop gets through all of them. */
  lemma ParsedWhenAllParse(link: string, order: seq<string>)
    requires AllParse(link, order)
    ensures Parsed(link, order) == order
  {
    ParsedAppend(link, order, []);
    assert order + [] == order;
  }

  /** The loop gets through candidates of `order` only. */
  lemma ParsedWithin(link: string, order: seq<string>)
    ensures forall x :: x in Parsed(link, order) ==> x in order
  {
    TakeUntilWithin(RaisesFor(link), order);
  }

  lemma {:induction false} TakeUntilWithin(fails: string -> bool, order: seq<string>)
    ensures forall x :: x in TakeUntil(fails, order) ==> x in order
    decreases |order|
  {
    if |order| > 0 && !fails(order[0]) {
      TakeUntilWithin(fails, order[1..]);
      assert forall x :: x in order[1..] ==> x in order;
    }
  }

  lemma RunJobsSnoc(env: Env, f: string -> Job, order: seq<string>, raw: string, st: CrawlState)
    ensures RunJobs(env, MapJobs(f, order + [raw]), st)
      == SaveImage(env, f(raw).url, f(raw).target, RunJobs(env, MapJobs(f, order), st))
  {
    MapJobsAppend(f, order, [raw]);
    var one := MapJobs(f, [raw]);
    assert |one| == 1 && one[0] == f(raw);
    assert one == [f(raw)];
  }

  /** Running jobs one batch after the other. */
  lemma {:induction false} RunJobsAppend(env: Env, j1: seq<Job>, j2: seq<Job>, st: CrawlState)
    ensures RunJobs(env, j1 + j2, st) == RunJobs(env, j2, RunJobs(env, j1, st))
    decreases |j2|
  {
    if |j2| == 0 {
      assert j1 + j2 == j1;
    } else {
      assert (j1 + j2)[..|j1 + j2| - 1] == j1 + j2[..|j2| - 1];
      RunJobsAppend(env, j1, j2[..|j2| - 1], st);
    }
  }

  /** The download loop never removes a file and never lowers the counter; the counter
      rises at most once per candidate, and only with a new file. */
  lemma {:induction false} RunJobsGrows(env: Env, jobs: seq<Job>, st: CrawlState)
    ensures st.paths <= RunJobs(env, jobs, st).paths
    ensures st.total <= RunJobs(env, jobs, st).total <= st.total + |jobs|
    ensures RunJobs(env, jobs, st).total - st.total <= |RunJobs(env, jobs, st).paths - st.paths|
    ensures RunJobs(env, jobs, st).pagesFetched == st.pagesFetched
    ensures RunJobs(env, jobs, st).sleeps == st.sleeps
    decreases |jobs|
  {
    if |jobs| > 0 {
      var mid := RunJobs(env, jobs[..|jobs| - 1], st);
      RunJobsGrows(env, jobs[..|jobs| - 1], st);
      var job := jobs[|jobs| - 1];
      SaveImageGrows(env, job.url, job.target, mid, st);
    }
  }

  /** One more image keeps the count of downloads within the count of new files. */
  lemma SaveImageGrows(env: Env, url: string, target: string, st: CrawlState, base: CrawlState)
    requires base.paths <= st.paths && base.total <= st.total
    requires st.total - base.total <= |st.paths - base.paths|
    ensures var r := SaveImage(env, url, target, st);
      base.paths <= r.paths && st.total <= r.total <= st.total + 1 &&
      r.total - base.total <= |r.paths - base.paths|
  {
    var r := SaveImage(env, url, target, st);
    var t := Norm(target);
    if r.total == st.total + 1 {
      assert r.paths - base.paths == (st.paths - base.paths) + {t};
      assert t !in st.paths - base.paths;
    } else {
      CardinalityOfSubset(st.paths - base.paths, r.paths - base.paths);
    }
  }

  lemma NewFilesAddUp(a: set<string>, b: set<string>, c: set<string>)
    requires a <= b <= c
    ensures |c - a| == |b - a| + |c - b|
  {
    assert c - a == (b - a) + (c - b);
    assert (b - a) !! (c - b);
  }

  lemma CardinalityOfSubset(a: set<string>, b: set<string>)
    requires a <= b
    ensures |a| <= |b|
  {
    assert b == a + (b - a);
  }

  lemma {:induction false} ExistingJobsDoNothing(env: Env, jobs: seq<Job>, st: CrawlState)
    requires forall job :: job in jobs ==> Exists(st.paths, job.target)
    ensures RunJobs(env, jobs, st) == st
    decreases |jobs|
  {
    if |jobs| > 0 {
      var init := jobs[..|jobs| - 1];
      assert forall job :: job in init ==> job in jobs;
      ExistingJobsDoNothing(env, init, st);
      assert jobs[|jobs| - 1] in jobs;
    }
  }

  /** When every candidate's file already exists, the loop requests nothing and changes
      nothing (ngg_scraper.py:100-102). */
  lemma AllTargetsExistNothingHappens(env: Env, link: string, dir: string, order: seq<string>, st: CrawlState)
    requires forall raw :: raw in order ==> Exists(st.paths, TargetOf(link, dir, raw))
    ensures DownloadAll(env, link, dir, order, st) == st
  {
    var jobs := Jobs(link, dir, order);
    var visited := Parsed(link, order);
    ParsedWithin(link, order);
    forall job | job in jobs ensures Exists(st.paths, job.target) {
      var i :| 0 <= i < |jobs| && jobs[i] == job;
      MapJobsAt(JobFor(link, dir), visited, i);
      assert visited[i] in visited;
    }
    ExistingJobsDoNothing(env, jobs, st);
  }

  /** The filesystem and the counter after the loop depend only on the filesystem and
      the counter before it, not on the requests already made. */
  lemma {:induction false} RunJobsIgnoresLog(env: Env, jobs: seq<Job>, a: CrawlState, b: CrawlState)
    requires SameCore(a, b)
    ensures SameCore(RunJobs(env, jobs, a), RunJobs(env, jobs, b))
    decreases |jobs|
  {
    if |jobs| > 0 {
      RunJobsIgnoresLog(env, jobs[..|jobs| - 1], a, b);
    }
  }

  lemma FailedJobIsolated(env: Env, before: seq<Job>, job: Job, after: seq<Job>, st: CrawlState)
    requires ImageFails(env, job.url, job.target)
    ensures SameCore(RunJobs(env, before + [job] + after, st), RunJobs(env, before + after, st))
  {
    var mid := RunJobs(env, before, st);
    RunJobsAppend(env, before + [job], after, st);
    RunJobsAppend(env, before, after, st);
    assert (before + [job])[..|before|] == before;
    var next := SaveImage(env, job.url, job.target, mid);
    assert SameCore(next, mid);
    RunJobsIgnoresLog(env, after, next, mid);
  }

  /** A failed image (an exception, a status other than 200, a file that cannot be
      opened) whose URL parses leaves the rest of the loop exactly as if it had not been
      a candidate. */
  lemma FailedImageIsolated(env: Env, link: string, dir: string, before: seq<string>, raw: string, after: seq<string>,
                            st: CrawlState)
    requires !CandidateRaises(link, raw)
    requires ImageFails(env, Absolutise(raw, link), TargetOf(link, dir, raw))
    ensures SameCore(DownloadAll(env, link, dir, before + [raw] + after, st), DownloadAll(env, link, dir, before + after, st))
  {
    var f := JobFor(link, dir);
    TakeUntilAround(RaisesFor(link), before, raw, after);
    if AllParse(link, before) {
      var rest := Parsed(link, after);
      MapJobsAround(f, before, raw, rest);
      assert f(raw) == JobOf(link, dir, raw);
      FailedJobIsolated(env, MapJobs(f, before), f(raw), MapJobs(f, rest), st);
    }
  }

  /** Taking out an element that does not fail changes the prefix only by that element. */
  lemma TakeUntilAround(fails: string -> bool, before: seq<string>, x: string, after: seq<string>)
    requires !fails(x)
    ensures NoneFail(fails, before) ==>
      TakeUntil(fails, before + [x] + after) == before + [x] + TakeUntil(fails, after)
      && TakeUntil(fails, before + after) == before + TakeUntil(fails, after)
    ensures !NoneFail(fails, before) ==>
      TakeUntil(fails, before + [x] + after) == TakeUntil(fails, before) == TakeUntil(fails, before + after)
  {
    assert before + [x] + after == before + ([x] + after);
    TakeUntilAppend(fails, before, [x] + after);
    TakeUntilAppend(fails, before, after);
    assert ([x] + after)[0] == x && ([x] + after)[1..] == after;
  }

  /** A candidate whose URL cannot be parsed ends the loop: the candidates after it are
      never visited (ngg_scraper.py:92-97, 117). */
  lemma UnparsableCandidateEndsLoop(env: Env, link: string, dir: string, before: seq<string>, raw: string,
                                    after: seq<string>, st: CrawlState)
    requires CandidateRaises(link, raw)
    ensures DownloadAll(env, link, dir, before + [raw] + after, st) == DownloadAll(env, link, dir, before, st)
  {
    assert before + [raw] + after == before + ([raw] + after);
    ParsedAppend(link, before, [raw] + after);
    ParsedAppend(link, before, []);
    assert before + [] == before;
  }

  /** Such a candidate also skips the delay that follows the loop (ngg_scraper.py:115). */
  lemma UnparsableCandidateSkipsDelay(env: Env, out: string, link: string, slug: Option<string>, images: set<string>,
                                      order: seq<string>, raw: string, st: CrawlState)
    requires raw in images && CandidateRaises(link, raw)
    ensures SaveGallery(env, out, link, slug, images, order, st).sleeps == st.sleeps
  {
    if slug.Some? {
      var dir := PathJoin(out, slug.value);
      var st1 := if Exists(st.paths, dir) then st else st.(paths := st.paths + {Norm(dir)});
      RunJobsGrows(env, Jobs(link, dir, order), st1);
    }
  }

  // Record level

  lemma {:induction false} RecordsAppend(env: Env, out: string, p1: seq<Post>, p2: seq<Post>,
                                         o1: seq<seq<string>>, o2: seq<seq<string>>, st: CrawlState)
    requires |o1| == |p1| && |o2| == |p2|
    requires Records(env, out, p1, o1, st).Completed?
    ensures Records(env, out, p1 + p2, o1 + o2, st) == Records(env, out, p2, o2, Records(env, out, p1, o1, st).st)
    decreases |p2|
  {
    if |p2| == 0 {
      assert p1 + p2 == p1 && o1 + o2 == o1;
    } else {
      var n := |p1 + p2|;
      assert (p1 + p2)[..n - 1] == p1 + p2[..|p2| - 1];
      assert (o1 + o2)[..n - 1] == o1 + o2[..|p2| - 1];
      RecordsAppend(env, out, p1, p2[..|p2| - 1], o1, o2[..|p2| - 1], st);
    }
  }

  lemma RecordStepIgnoresLog(env: Env, out: string, post: Post, order: seq<string>, a: CrawlState, b: CrawlState)
    requires SameCore(a, b)
    ensures SameOutcomeCore(RecordStep(env, out, post, order, a), RecordStep(env, out, post, order, b))
  {
    if post.titleIsObject && Truthy(post.link) {
      var link := post.link.value;
      var a0 := a.(pagesFetched := a.pagesFetched + [link]);
      var b0 := b.(pagesFetched := b.pagesFetched + [link]);
      match env.pageAt(link)
      case PageRaised =>
      case PageFetched(status, page) =>
        if status == 200 && Candidates(page) != {} && SlugOf(post).Some? {
          var dir := PathJoin(out, SlugOf(post).value);
          if Exists(a.paths, dir) || env.canMakeDirs(Norm(dir)) {
            var a1 := if Exists(a0.paths, dir) then a0 else a0.(paths := a0.paths + {Norm(dir)});
            var b1 := if Exists(b0.paths, dir) then b0 else b0.(paths := b0.paths + {Norm(dir)});
            RunJobsIgnoresLog(env, Jobs(link, dir, order), a1, b1);
          }
        }
    }
  }

  lemma {:induction false} RecordsIgnoreLog(env: Env, out: string, posts: seq<Post>, orders: seq<seq<string>>,
                                            a: CrawlState, b: CrawlState)
    requires |orders| == |posts| && SameCore(a, b)
    ensures SameOutcomeCore(Records(env, out, posts, orders, a), Records(env, out, posts, orders, b))
    decreases |posts|
  {
    if |posts| > 0 {
      var n := |posts| - 1;
      RecordsIgnoreLog(env, out, posts[..n], orders[..n], a, b);
      var ra := Records(env, out, posts[..n], orders[..n], a);
      var rb := Records(env, out, posts[..n], orders[..n], b);
      if ra.Completed? {
        RecordStepIgnoresLog(env, out, posts[n], orders[n], ra.st, rb.st);
      }
    }
  }

  /** A record without a link, or whose page cannot be fetched or answers with a status
      other than 200, changes neither the filesystem, the counter nor the delays, and the
      later records run as if it were absent (ngg_scraper.py:36-45). */
  lemma FailedRecordIsolated(env: Env, out: string, before: seq<Post>, post: Post, after: seq<Post>,
                             ob: seq<seq<string>>, order: seq<string>, oa: seq<seq<string>>, st: CrawlState)
    requires |ob| == |before| && |oa| == |after|
    requires post.titleIsObject
    requires !Truthy(post.link) || env.pageAt(post.link.value).PageRaised? || env.pageAt(post.link.value).status != 200
    ensures SameOutcomeCore(Records(env, out, before + [post] + after, ob + [order] + oa, st),
                            Records(env, out, before + after, ob + oa, st))
  {
    var rb := Records(env, out, before, ob, st);
    if rb.Crashed? {
      CrashIsFinal(env, out, before, [post] + after, ob, [order] + oa, st);
      CrashIsFinal(env, out, before, after, ob, oa, st);
      assert before + [post] + after == before + ([post] + after);
      assert ob + [order] + oa == ob + ([order] + oa);
    } else {
      var p1 := before + [post];
      var o1 := ob + [order];
      assert p1[..|before|] == before && o1[..|before|] == ob;
      var r1 := Records(env, out, p1, o1, st);
      assert r1 == RecordStep(env, out, post, order, rb.st);
      assert r1.Completed? && SameCore(r1.st, rb.st);
      RecordsAppend(env, out, p1, after, o1, oa, st);
      RecordsAppend(env, out, before, after, ob, oa, st);
      RecordsIgnoreLog(env, out, after, oa, r1.st, rb.st);
    }
  }

  /** A record never removes a file, never lowers the counter, and every download it
      counts is a file that did not exist before. */
  lemma RecordStepGrows(env: Env, out: string, post: Post, order: seq<string>, st: CrawlState)
    ensures Grown(st, RecordStep(env, out, post, order, st).st)
  {
    if post.titleIsObject && Truthy(post.link) {
      var link := post.link.value;
      VisitPageGrows(env, out, link, SlugOf(post), order, st.(pagesFetched := st.pagesFetched + [link]));
    }
  }

  lemma VisitPageGrows(env: Env, out: string, link: string, slug: Option<string>, order: seq<string>, st: CrawlState)
    ensures Grown(st, VisitPage(env, out, link, slug, order, st))
  {
    match env.pageAt(link)
    case PageRaised =>
    case PageFetched(status, page) =>
      if status == 200 {
        SaveGalleryGrows(env, out, link, slug, Candidates(page), order, st);
      }
  }

  lemma SaveGalleryGrows(env: Env, out: string, link: string, slug: Option<string>, images: set<string>,
                         order: seq<string>, st: CrawlState)
    ensures Grown(st, SaveGallery(env, out, link, slug, images, order, st))
  {
    if images != {} && slug.Some? {
      var dir := PathJoin(out, slug.value);
      if Exists(st.paths, dir) || env.canMakeDirs(Norm(dir)) {
        var s1 := if Exists(st.paths, dir) then st else st.(paths := st.paths + {Norm(dir)});
        var s2 := DownloadAll(env, link, dir, order, s1);
        SaveGalleryDownloads(env, out, link, slug.value, images, order, st);
        DownloadAllGrows(env, link, dir, order, s1);
        assert Grown(st, s1);
        GrownTrans(st, s1, s2);
      }
    }
  }

  /** A non-empty gallery whose directory exists or can be made is downloaded into it,
      then the delay is taken. */
  lemma SaveGalleryDownloads(env: Env, out: string, link: string, slug: string, images: set<string>,
                             order: seq<string>, st: CrawlState)
    requires images != {}
    requires Exists(st.paths, PathJoin(out, slug)) || env.canMakeDirs(Norm(PathJoin(out, slug)))
    ensures var dir := PathJoin(out, slug);
      var s1 := if Exists(st.paths, dir) then st else st.(paths := st.paths + {Norm(dir)});
      var s2 := DownloadAll(env, link, dir, order, s1);
      var r := SaveGallery(env, out, link, Some(slug), images, order, st);
      r.paths == s2.paths && r.total == s2.total
      && r.sleeps == if SomeRaises(link, images) then s2.sleeps else s2.sleeps + 1
  {
  }

  lemma DownloadAllGrows(env: Env, link: string, dir: string, order: seq<string>, st: CrawlState)
    ensures Grown(st, DownloadAll(env, link, dir, order, st))
  {
    RunJobsGrows(env, Jobs(link, dir, order), st);
  }

  /** From `a` to `b` files are only added, the counter and the delays only rise, and
      the counter rises by no more than the number of new files. */
  ghost predicate Grown(a: CrawlState, b: CrawlState) {
    a.paths <= b.paths && a.total <= b.total && a.sleeps <= b.sleeps && b.total - a.total <= |b.paths - a.paths|
  }

  lemma GrownTrans(a: CrawlState, b: CrawlState, c: CrawlState)
    requires Grown(a, b) && Grown(b, c)
    ensures Grown(a, c)
  {
    NewFilesAddUp(a.paths, b.paths, c.paths);
  }

  /** Over the whole record loop, files are only ever added, `total_downloaded` never
      decreases, and it never exceeds the number of files the run created. */
  lemma {:induction false} RecordsGrow(env: Env, out: string, posts: seq<Post>, orders: seq<seq<string>>, st: CrawlState)
    requires |orders| == |posts|
    ensures var r := Records(env, out, posts, orders, st).st;
      st.paths <= r.paths && st.total <= r.total && r.total - st.total <= |r.paths - st.paths|
    decreases |posts|
  {
    if |posts| > 0 {
      var n := |posts| - 1;
      RecordsGrow(env, out, posts[..n], orders[..n], st);
      var mid := Records(env, out, posts[..n], orders[..n], st);
      if mid.Completed? {
        RecordStepGrows(env, out, posts[n], orders[n], mid.st);
        var r := RecordStep(env, out, posts[n], orders[n], mid.st).st;
        NewFilesAddUp(st.paths, mid.st.paths, r.paths);
      }
    }
  }

  /** Only a record whose title is not a JSON object stops the run. */
  lemma {:induction false} RecordsCompleteUnlessBadTitle(env: Env, out: string, posts: seq<Post>,
                                                         orders: seq<seq<string>>, st: CrawlState)
    requires |orders| == |posts|
    ensures Records(env, out, posts, orders, st).Completed? <==> forall i :: 0 <= i < |posts| ==> posts[i].titleIsObject
    decreases |posts|
  {
    if |posts| > 0 {
      var n := |posts| - 1;
      RecordsCompleteUnlessBadTitle(env, out, posts[..n], orders[..n], st);
      assert forall i :: 0 <= i < n ==> posts[..n][i] == posts[i];
    }
  }

  // Settledness and the rerun

  /** Running this job again can change nothing: its file exists, or its request fails. */
  ghost predicate JobSettled(env: Env, job: Job, paths: set<string>) {
    Exists(paths, job.target) || ImageFails(env, job.url, job.target)
  }

  /** Processing this record again, its candidates visited in `order`, can change
      nothing on disk: its directory exists and each of its jobs is settled. */
  ghost predicate PostSettled(env: Env, out: string, post: Post, order: seq<string>, paths: set<string>) {
    post.link.Some? && |order| > 0 && SlugOf(post).Some? ==>
      var dir := PathJoin(out, SlugOf(post).value);
      Exists(paths, dir) && JobsSettled(env, Jobs(post.link.value, dir, order), paths)
  }

  ghost predicate JobsSettled(env: Env, jobs: seq<Job>, paths: set<string>) {
    forall job :: job in jobs ==> JobSettled(env, job, paths)
  }

  /** After the loop, every job it ran is settled. */
  lemma {:induction false} RunJobsSettles(env: Env, jobs: seq<Job>, st: CrawlState)
    ensures JobsSettled(env, jobs, RunJobs(env, jobs, st).paths)
    decreases |jobs|
  {
    if |jobs| > 0 {
      var init := jobs[..|jobs| - 1];
      RunJobsSettles(env, init, st);
      var mid := RunJobs(env, init, st);
      var last := jobs[|jobs| - 1];
      var r := SaveImage(env, last.url, last.target, mid);
      SaveImageSettles(env, last.url, last.target, mid);
      forall job | job in jobs ensures JobSettled(env, job, r.paths) {
        if job != last {
          assert job in init by {
            var k :| 0 <= k < |jobs| && jobs[k] == job;
            assert init[k] == job;
          }
          assert JobSettled(env, job, mid.paths);
        }
      }
    }
  }

  lemma SaveImageSettles(env: Env, url: string, target: string, st: CrawlState)
    ensures var r := SaveImage(env, url, target, st);
      st.paths <= r.paths && (Exists(r.paths, target) || ImageFails(env, url, target))
  {
  }

  /** Settled jobs change neither the filesystem nor the counter. */
  lemma {:induction false} SettledJobsQuiet(env: Env, jobs: seq<Job>, st: CrawlState)
    requires JobsSettled(env, jobs, st.paths)
    ensures RunJobs(env, jobs, st).paths == st.paths
    ensures RunJobs(env, jobs, st).total == st.total
    decreases |jobs|
  {
    if |jobs| > 0 {
      var init := jobs[..|jobs| - 1];
      assert forall job :: job in init ==> job in jobs;
      SettledJobsQuiet(env, init, st);
      assert jobs[|jobs| - 1] in jobs;
    }
  }

  lemma PostSettledPersists(env: Env, out: string, post: Post, order: seq<string>, paths: set<string>, more: set<string>)
    requires PostSettled(env, out, post, order, paths) && paths <= more
    ensures PostSettled(env, out, post, order, more)
  {
  }

  /** A second visit of a record's candidates, in `o2` after `o1`, reaches the same
      candidates: the order is the same, or every candidate's URL parses so that the
      loop reaches all of them either way. */
  ghost predicate RevisitsAlike(post: Post, o1: seq<string>, o2: seq<string>) {
    o1 == o2 || (post.link.Some? && AllParse(post.link.value, o1))
  }

  /** Settledness does not depend on the order the candidates are visited in, as long
      as the loop reaches the same candidates. */
  lemma SettledInAnyOrder(env: Env, out: string, post: Post, o1: seq<string>, o2: seq<string>, paths: set<string>)
    requires IsEnumeration(o1, CandidatesOf(env, post)) && IsEnumeration(o2, CandidatesOf(env, post))
    requires RevisitsAlike(post, o1, o2)
    requires PostSettled(env, out, post, o1, paths)
    ensures PostSettled(env, out, post, o2, paths)
  {
    SameElements(o1, o2, CandidatesOf(env, post));
    if o1 != o2 && |o2| > 0 && SlugOf(post).Some? {
      var link := post.link.value;
      var dir := PathJoin(out, SlugOf(post).value);
      assert o2[0] in o1;
      ParsedWhenAllParse(link, o1);
      ParsedWhenAllParse(link, o2);
      SettledOverFewerCandidates(env, JobFor(link, dir), o1, o2, paths);
    }
  }

  /** Two enumerations of one set visit the same elements. */
  lemma SameElements(o1: seq<string>, o2: seq<string>, s: set<string>)
    requires IsEnumeration(o1, s) && IsEnumeration(o2, s)
    ensures forall x :: x in o2 ==> x in o1
  {
  }

  lemma SettledOverFewerCandidates(env: Env, f: string -> Job, o1: seq<string>, o2: seq<string>, paths: set<string>)
    requires forall x :: x in o2 ==> x in o1
    requires JobsSettled(env, MapJobs(f, o1), paths)
    ensures JobsSettled(env, MapJobs(f, o2), paths)
  {
    forall job | job in MapJobs(f, o2) ensures JobSettled(env, job, paths) {
      var i :| 0 <= i < |o2| && MapJobs(f, o2)[i] == job;
      MapJobsAt(f, o2, i);
      assert o2[i] in o1;
      MapJobsCover(f, o1, o2[i]);
    }
  }

  /** Once a record is processed with `makedirs` succeeding, it is settled. */
  lemma RecordStepSettles(env: Env, out: string, post: Post, order: seq<string>, st: CrawlState)
    requires forall d :: env.canMakeDirs(d)
    requires IsEnumeration(order, CandidatesOf(env, post))
    requires RecordStep(env, out, post, order, st).Completed?
    ensures PostSettled(env, out, post, order, RecordStep(env, out, post, order, st).st.paths)
  {
    EnumerationNonEmpty(order, CandidatesOf(env, post));
    if post.link.Some? && |order| > 0 && SlugOf(post).Some? {
      var link := post.link.value;
      VisitPageSettles(env, out, link, SlugOf(post).value, order, st.(pagesFetched := st.pagesFetched + [link]));
    }
  }

  lemma EnumerationNonEmpty(order: seq<string>, s: set<string>)
    requires IsEnumeration(order, s)
    ensures |order| > 0 <==> s != {}
  {
    if |order| > 0 {
      assert order[0] in s;
    }
    if s != {} {
      var x :| x in s;
      assert x in order;
    }
  }

  lemma VisitPageSettles(env: Env, out: string, link: string, slug: string, order: seq<string>, st: CrawlState)
    requires forall d :: env.canMakeDirs(d)
    requires link != ""
    requires env.pageAt(link).PageFetched? && env.pageAt(link).status == 200
    requires Candidates(env.pageAt(link).page) != {}
    ensures var dir := PathJoin(out, slug); var r := VisitPage(env, out, link, Some(slug), order, st);
      Exists(r.paths, dir) && JobsSettled(env, Jobs(link, dir, order), r.paths)
  {
    SaveGallerySettles(env, out, link, slug, Candidates(env.pageAt(link).page), order, st);
  }

  lemma SaveGallerySettles(env: Env, out: string, link: string, slug: string, images: set<string>,
                           order: seq<string>, st: CrawlState)
    requires forall d :: env.canMakeDirs(d)
    requires images != {}
    ensures var dir := PathJoin(out, slug); var r := SaveGallery(env, out, link, Some(slug), images, order, st);
      Exists(r.paths, dir) && JobsSettled(env, Jobs(link, dir, order), r.paths)
  {
    var dir := PathJoin(out, slug);
    var s1 := if Exists(st.paths, dir) then st else st.(paths := st.paths + {Norm(dir)});
    var jobs := Jobs(link, dir, order);
    SaveGalleryDownloads(env, out, link, slug, images, order, st);
    RunJobsSettles(env, jobs, s1);
    RunJobsGrows(env, jobs, s1);
    assert Exists(s1.paths, dir);
  }

  /** A settled record changes nothing on disk and counts nothing. */
  lemma SettledRecordQuiet(env: Env, out: string, post: Post, order: seq<string>, st: CrawlState)
    requires IsEnumeration(order, CandidatesOf(env, post))
    requires PostSettled(env, out, post, order, st.paths)
    ensures RecordStep(env, out, post, order, st).st.paths == st.paths
    ensures RecordStep(env, out, post, order, st).st.total == st.total
  {
    if post.titleIsObject && Truthy(post.link) {
      var link := post.link.value;
      EnumerationNonEmpty(order, CandidatesOf(env, post));
      VisitPageQuiet(env, out, link, SlugOf(post), order, st.(pagesFetched := st.pagesFetched + [link]));
    }
  }

  lemma VisitPageQuiet(env: Env, out: string, link: string, slug: Option<string>, order: seq<string>, st: CrawlState)
    requires PageCandidates(env, link) != {} && slug.Some? ==>
      var dir := PathJoin(out, slug.value);
      Exists(st.paths, dir) && JobsSettled(env, Jobs(link, dir, order), st.paths)
    ensures VisitPage(env, out, link, slug, order, st).paths == st.paths
    ensures VisitPage(env, out, link, slug, order, st).total == st.total
  {
    match env.pageAt(link)
    case PageRaised =>
    case PageFetched(status, page) =>
      if status == 200 {
        SaveGalleryQuiet(env, out, link, slug, Candidates(page), order, st);
      }
  }

  lemma SaveGalleryQuiet(env: Env, out: string, link: string, slug: Option<string>, images: set<string>,
                         order: seq<string>, st: CrawlState)
    requires images != {} && slug.Some? ==>
      var dir := PathJoin(out, slug.value);
      Exists(st.paths, dir) && JobsSettled(env, Jobs(link, dir, order), st.paths)
    ensures SaveGallery(env, out, link, slug, images, order, st).paths == st.paths
    ensures SaveGallery(env, out, link, slug, images, order, st).total == st.total
  {
    if images != {} && slug.Some? {
      SaveGalleryDownloads(env, out, link, slug.value, images, order, st);
      SettledJobsQuiet(env, Jobs(link, PathJoin(out, slug.value), order), st);
    }
  }

  lemma {:induction false} RecordsSettle(env: Env, out: string, posts: seq<Post>, orders: seq<seq<string>>, st: CrawlState)
    requires |orders| == |posts|
    requires forall d :: env.canMakeDirs(d)
    requires forall i :: 0 <= i < |posts| ==> IsEnumeration(orders[i], CandidatesOf(env, posts[i]))
    requires Records(env, out, posts, orders, st).Completed?
    ensures forall i :: 0 <= i < |posts| ==> PostSettled(env, out, posts[i], orders[i], Records(env, out, posts, orders, st).st.paths)
    decreases |posts|
  {
    if |posts| > 0 {
      var n := |posts| - 1;
      RecordsSettle(env, out, posts[..n], orders[..n], st);
      var mid := Records(env, out, posts[..n], orders[..n], st).st;
      var r := RecordStep(env, out, posts[n], orders[n], mid);
      assert Records(env, out, posts, orders, st) == r;
      RecordStepSettles(env, out, posts[n], orders[n], mid);
      RecordStepGrows(env, out, posts[n], orders[n], mid);
      forall i | 0 <= i < |posts| ensures PostSettled(env, out, posts[i], orders[i], r.st.paths) {
        if i < n {
          assert posts[..n][i] == posts[i] && orders[..n][i] == orders[i];
          PostSettledPersists(env, out, posts[i], orders[i], mid.paths, r.st.paths);
        }
      }
    }
  }

  lemma {:induction false} SettledRecordsQuiet(env: Env, out: string, posts: seq<Post>, orders: seq<seq<string>>, st: CrawlState)
    requires |orders| == |posts|
    requires forall i :: 0 <= i < |posts| ==> IsEnumeration(orders[i], CandidatesOf(env, posts[i]))
    requires forall i :: 0 <= i < |posts| ==> PostSettled(env, out, posts[i], orders[i], st.paths)
    ensures Records(env, out, posts, orders, st).st.paths == st.paths
    ensures Records(env, out, posts, orders, st).st.total == st.total
    decreases |posts|
  {
    if |posts| > 0 {
      var n := |posts| - 1;
      assert forall i :: 0 <= i < n ==> posts[..n][i] == posts[i] && orders[..n][i] == orders[i];
      SettledRecordsQuiet(env, out, posts[..n], orders[..n], st);
      var mid := Records(env, out, posts[..n], orders[..n], st);
      if mid.Completed? {
        SettledRecordQuiet(env, out, posts[n], orders[n], mid.st);
      }
    }
  }

  /** Running the scraper a second time over the same posts, against the same servers,
      creates no file and downloads nothing, whatever order the sets are visited in:
      every candidate of the first run either left its file behind or fails again. It
      assumes `makedirs` always succeeds: otherwise a later record could create a file
      where an earlier record's directory was refused, and the second run would then
      proceed into it. */
  lemma RerunDownloadsNothing(env: Env, out: string, posts: seq<Post>, orders1: seq<seq<string>>,
                              orders2: seq<seq<string>>, paths: set<string>)
    requires |orders1| == |posts| && |orders2| == |posts|
    requires forall d :: env.canMakeDirs(d)
    requires forall i :: 0 <= i < |posts| ==> IsEnumeration(orders1[i], CandidatesOf(env, posts[i]))
    requires forall i :: 0 <= i < |posts| ==> IsEnumeration(orders2[i], CandidatesOf(env, posts[i]))
    requires forall i :: 0 <= i < |posts| ==> RevisitsAlike(posts[i], orders1[i], orders2[i])
    requires Crawl(env, out, posts, orders1, paths).Completed?
    ensures Crawl(env, out, posts, orders2, Crawl(env, out, posts, orders1, paths).st.paths).Completed?
    ensures Crawl(env, out, posts, orders2, Crawl(env, out, posts, orders1, paths).st.paths).st.paths
         == Crawl(env, out, posts, orders1, paths).st.paths
    ensures Crawl(env, out, posts, orders2, Crawl(env, out, posts, orders1, paths).st.paths).st.total == 0
  {
    var start := InitialState(if Exists(paths, out) then paths else paths + {Norm(out)});
    var p1 := Crawl(env, out, posts, orders1, paths).st.paths;
    RecordsGrow(env, out, posts, orders1, start);
    assert Exists(p1, out);
    RecordsSettle(env, out, posts, orders1, start);
    forall i | 0 <= i < |posts| ensures PostSettled(env, out, posts[i], orders2[i], p1) {
      SettledInAnyOrder(env, out, posts[i], orders1[i], orders2[i], p1);
    }
    RecordsCompleteUnlessBadTitle(env, out, posts, orders1, start);
    RecordsCompleteUnlessBadTitle(env, out, posts, orders2, InitialState(p1));
    SettledRecordsQuiet(env, out, posts, orders2, InitialState(p1));
  }
}
