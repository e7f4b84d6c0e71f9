/**
 * The candidate collection of the NextGEN gallery scraper (ngg_scraper.py:53-78): two
 * passes over the parsed page gather raw image URLs into one set of strings.
 *
 * HTML parsing is abstracted: a page is the sequence of its elements in document order,
 * and each element records its tag, whether it matches the gallery selector
 * `.ngg-gallery-thumbnail a, .ngg-fancybox`, and its `href` and `src` attributes.
 */
module Gallery {
  import opened Wrappers
  import opened Strings
  import opened Urls

  datatype Tag = Anchor | Image | OtherTag

  datatype Element = Element(tag: Tag, inGallerySelector: bool, href: Option<string>, src: Option<string>)

  /** A present, non-empty attribute: Python's truthiness of `tag.get(...)`. */
  predicate Truthy(a: Option<string>) {
    a.Some? && a.value != ""
  }

  const GalleryPath := "/wp-content/gallery/"

  /** The URL of pass 2: `tag.get("href") or tag.get("src")`. */
  function LinkOf(e: Element): Option<string> {
    if Truthy(e.href) then e.href else e.src
  }

  /** Pass 1 on one element: a selected element's `href` when it names an image. */
  function SelectedHref(e: Element): Option<string> {
    if e.inGallerySelector && Truthy(e.href) && IsImageUrl(e.href.value) then e.href else None
  }

  /** Pass 2 applies to an `<a>` or `<img>` whose URL mentions the gallery folder. */
  predicate IsGalleryElement(e: Element) {
    (e.tag == Anchor || e.tag == Image) && Truthy(LinkOf(e)) && Contains(LinkOf(e).value, GalleryPath)
  }

  /** Pass 2 on one element: the gallery URL, rewritten from thumbnail to full size. */
  function GalleryUrl(e: Element): Option<string> {
    if IsGalleryElement(e) then Some(ThumbsRewrite(LinkOf(e).value)) else None
  }

  function AsSet(o: Option<string>): set<string> {
    match o
    case None => {}
    case Some(u) => {u}
  }

  /** The set after pass 1 has seen the elements of `page`, in order. */
  function Pass1(page: seq<Element>): set<string>
    decreases |page|
  {
    if |page| == 0 then {} else Pass1(page[..|page| - 1]) + AsSet(SelectedHref(page[|page| - 1]))
  }

  /** What pass 2 adds after seeing the elements of `page`, in order. */
  function Pass2(page: seq<Element>): set<string>
    decreases |page|
  {
    if |page| == 0 then {} else Pass2(page[..|page| - 1]) + AsSet(GalleryUrl(page[|page| - 1]))
  }

  /** `images_to_download` once both passes are done. */
  function Candidates(page: seq<Element>): set<string> {
    Pass1(page) + Pass2(page)
  }

  /** The two loops that fill `images_to_download` (ngg_scraper.py:53-78). */
  method CollectCandidates(page: seq<Element>) returns (images: set<string>)
    ensures images == Candidates(page)
  {
    images := {};
    for i := 0 to |page|
      invariant images == Pass1(page[..i])
    {
      Pass1Step(page, i);
      var e := page[i];
      if e.inGallerySelector {
        var href := e.href;
        if href.Some? && href.value != "" && IsImageUrl(href.value) {
          images := images + {href.value};
        }
      }
    }
    assert page[..|page|] == page;
    ghost var pass1 := images;
    for i := 0 to |page|
      invariant images == pass1 + Pass2(page[..i])
    {
      Pass2Step(page, i);
      var e := page[i];
      if e.tag == Anchor || e.tag == Image {
        var url := if e.href.Some? && e.href.value != "" then e.href else e.src;
        if url.Some? && url.value != "" && Contains(url.value, GalleryPath) {
          if Contains(url.value, ThumbsDir) {
            var fullUrl := ReplaceAll(ReplaceAll(url.value, ThumbsFile, "/"), ThumbsDir, "/");
            assert GalleryUrl(e) == Some(fullUrl);
            images := images + {fullUrl};
          } else {
            assert GalleryUrl(e) == Some(url.value);
            images := images + {url.value};
          }
        }
      }
    }
  }

  lemma Pass1Step(page: seq<Element>, i: nat)
    requires i < |page|
    ensures Pass1(page[..i + 1]) == Pass1(page[..i]) + AsSet(SelectedHref(page[i]))
  {
    assert page[..i + 1][..i] == page[..i];
  }

  lemma Pass2Step(page: seq<Element>, i: nat)
    requires i < |page|
    ensures Pass2(page[..i + 1]) == Pass2(page[..i]) + AsSet(GalleryUrl(page[i]))
  {
    assert page[..i + 1][..i] == page[..i];
  }

  /** Pass 1 collects exactly the image `href`s of the selected elements, verbatim. */
  lemma {:induction false} Pass1Members(page: seq<Element>, u: string)
    ensures u in Pass1(page) <==>
      exists i :: 0 <= i < |page| && page[i].inGallerySelector && page[i].href == Some(u) &&
        u != "" && IsImageUrl(u)
    decreases |page|
  {
    if |page| > 0 {
      var init := page[..|page| - 1];
      Pass1Members(init, u);
      if u in Pass1(init) {
        var i :| 0 <= i < |init| && init[i].inGallerySelector && init[i].href == Some(u) && u != "" && IsImageUrl(u);
        assert page[i] == init[i];
      }
      if exists i :: 0 <= i < |page| && page[i].inGallerySelector && page[i].href == Some(u) && u != "" && IsImageUrl(u) {
        var i :| 0 <= i < |page| && page[i].inGallerySelector && page[i].href == Some(u) && u != "" && IsImageUrl(u);
        if i < |init| {
          assert init[i] == page[i];
        }
      }
    }
  }

  /** Pass 2 collects exactly the rewritten URLs of the gallery elements: no extension
      test is made. */
  lemma {:induction false} Pass2Members(page: seq<Element>, u: string)
    ensures u in Pass2(page) <==>
      exists i :: 0 <= i < |page| && IsGalleryElement(page[i]) && ThumbsRewrite(LinkOf(page[i]).value) == u
    decreases |page|
  {
    if |page| > 0 {
      var init := page[..|page| - 1];
      Pass2Members(init, u);
      if u in Pass2(init) {
        var i :| 0 <= i < |init| && IsGalleryElement(init[i]) && ThumbsRewrite(LinkOf(init[i]).value) == u;
        assert page[i] == init[i];
      }
      if exists i :: 0 <= i < |page| && IsGalleryElement(page[i]) && ThumbsRewrite(LinkOf(page[i]).value) == u {
        var i :| 0 <= i < |page| && IsGalleryElement(page[i]) && ThumbsRewrite(LinkOf(page[i]).value) == u;
        if i < |init| {
          assert init[i] == page[i];
        }
      }
    }
  }

  /** An element whose `href` is empty falls back to its `src` in pass 2. */
  lemma SourceUsedWhenHrefEmpty(page: seq<Element>, i: nat, s: string)
    requires i < |page| && (page[i].tag == Anchor || page[i].tag == Image)
    requires !Truthy(page[i].href) && page[i].src == Some(s)
    requires Contains(s, GalleryPath) && !Contains(s, ThumbsDir)
    ensures s in Candidates(page)
  {
    Pass2Members(page, s);
  }

  /** A selected anchor pointing at a gallery thumbnail contributes both the thumbnail,
      verbatim from pass 1, and the full-size image rewritten by pass 2: pass 1 does no
      rewrite, so both files are downloaded. */
  lemma ThumbnailAnchorYieldsBoth(page: seq<Element>, i: nat, dir: string, name: string)
    requires i < |page| && page[i].tag == Anchor && page[i].inGallerySelector
    requires page[i].href == Some(dir + ThumbsFile + name)
    requires StartsWith(dir, GalleryPath)
    requires !Contains(dir + "/" + name, ThumbsDir) && IsImageUrl(name)
    ensures dir + ThumbsFile + name in Candidates(page)
    ensures dir + "/" + name in Candidates(page)
    ensures dir + ThumbsFile + name != dir + "/" + name
  {
    var thumb := dir + ThumbsFile + name;
    assert thumb == (dir + ThumbsFile) + name;
    ImageUrlOfSuffix(dir + ThumbsFile, name);
    Pass1Members(page, thumb);
    assert thumb[..|GalleryPath|] == dir[..|GalleryPath|];
    assert MatchAt(thumb, GalleryPath, 0);
    assert LinkOf(page[i]) == Some(thumb);
    ThumbnailRewrittenToFullSize(dir, name);
    Pass2Members(page, dir + "/" + name);
    assert |thumb| != |dir + "/" + name|;
  }

  /** Whether a URL names an image depends only on its end. */
  lemma ImageUrlOfSuffix(prefix: string, name: string)
    requires IsImageUrl(name)
    ensures IsImageUrl(prefix + name)
  {
    var e :| e in ImageExtensions && EndsWithIgnoringCase(name, e);
    var s := prefix + name;
    forall k | 0 <= k < |e| ensures MatchesIgnoringCase(s[|s| - |e| + k], e[k]) {
      assert s[|s| - |e| + k] == name[|name| - |e| + k];
    }
    assert EndsWithIgnoringCase(s, e);
  }
}
