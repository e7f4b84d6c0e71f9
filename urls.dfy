/**
 * The URL rules of the NextGEN gallery scraper (ngg_scraper.py): the image-extension
 * test, the thumbnail-to-full-size rewrite, absolutisation against the post link and
 * the file name taken from the URL path. The parts of `urllib.parse` these reach
 * (`urlparse`, `urljoin` with a reference that starts with a single `/`) are modelled
 * here as far as they decide the result.
 */
module Urls {
  import opened Wrappers
  import opened Strings

  // ---------------------------------------------------------------------------
  // is_image_url: re.search(r"\.(jpg|jpeg|png|gif|webp)$", url, re.IGNORECASE)

  const ImageExtensions: seq<string> := [".jpg", ".jpeg", ".png", ".gif", ".webp"]

  predicate IsAsciiUpper(c: char) { 'A' <= c <= 'Z' }
  predicate IsAsciiLower(c: char) { 'a' <= c <= 'z' }

  function AsciiLowerChar(c: char): char {
    if IsAsciiUpper(c) then (c as int + 32) as char else c
  }

  function AsciiUpperChar(c: char): char {
    if IsAsciiLower(c) then (c as int - 32) as char else c
  }

  /** Whether the text character `c` matches the pattern character `p` (a lower-case
      ASCII letter or `.`) under re.IGNORECASE: the letter in either case, and for `i`
      also the two Turkish forms U+0130 and U+0131 that Python's matcher treats as `i`. */
  predicate MatchesIgnoringCase(c: char, p: char) {
    c == p
    || (IsAsciiLower(p) && c == AsciiUpperChar(p))
    || (p == 'i' && (c == '\U{130}' || c == '\U{131}'))
  }

  /** `ext` matches the very end of `s`, letter case ignored. */
  predicate EndsWithIgnoringCase(s: string, ext: string) {
    |ext| <= |s| && forall k :: 0 <= k < |ext| ==> MatchesIgnoringCase(s[|s| - |ext| + k], ext[k])
  }

  /** is_image_url (ngg_scraper.py:123-124). */
  predicate IsImageUrl(url: string) {
    exists e :: e in ImageExtensions && EndsWithIgnoringCase(url, e)
  }

  lemma ExtensionCharacters()
    ensures forall e, k :: e in ImageExtensions && 0 <= k < |e| ==> e[k] == '.' || IsAsciiLower(e[k])
    ensures forall e :: e in ImageExtensions ==> |e| > 0 && e[0] == '.'
  {
  }

  /** A `?` or `#` separator hides every extension before it: the URL is an image URL
      exactly when the text after the separator is one on its own. */
  lemma {:induction false} ImageUrlDecidedAfterSeparator(base: string, sep: char, tail: string)
    requires sep == '?' || sep == '#'
    ensures IsImageUrl(base + [sep] + tail) <==> IsImageUrl(tail)
  {
    ExtensionCharacters();
    forall e | e in ImageExtensions
      ensures EndsWithIgnoringCase(base + [sep] + tail, e) <==> EndsWithIgnoringCase(tail, e)
    {
      ExtensionAfterSeparator(base, sep, tail, e);
    }
  }

  lemma ExtensionAfterSeparator(base: string, sep: char, tail: string, e: string)
    requires sep == '?' || sep == '#'
    requires forall k :: 0 <= k < |e| ==> e[k] == '.' || IsAsciiLower(e[k])
    ensures EndsWithIgnoringCase(base + [sep] + tail, e) <==> EndsWithIgnoringCase(tail, e)
  {
    var s := base + [sep] + tail;
    if |e| <= |tail| {
      forall k | 0 <= k < |e|
        ensures MatchesIgnoringCase(s[|s| - |e| + k], e[k]) <==> MatchesIgnoringCase(tail[|tail| - |e| + k], e[k])
      {
        assert s[|s| - |e| + k] == tail[|tail| - |e| + k];
      }
    } else {
      var k0 := |e| - |tail| - 1;
      assert s[|s| - |e| + k0] == sep;
      assert !MatchesIgnoringCase(sep, e[k0]);
    }
  }

  /** So a query string or fragment without a dot after the extension makes the test fail:
      `photo.jpg?v=2` is not an image URL. */
  lemma QueryDefeatsExtension(base: string, sep: char, tail: string)
    requires sep == '?' || sep == '#'
    requires '.' !in tail
    ensures !IsImageUrl(base + [sep] + tail)
  {
    ImageUrlDecidedAfterSeparator(base, sep, tail);
    ExtensionCharacters();
    forall e | e in ImageExtensions
      ensures !EndsWithIgnoringCase(tail, e)
    {
      if |e| <= |tail| {
        assert tail[|tail| - |e|] != '.';
        assert !MatchesIgnoringCase(tail[|tail| - |e|], e[0]);
      }
    }
  }

  /** Two URLs that differ only in the case of ASCII letters are both image URLs or both not. */
  lemma {:induction false} ImageUrlIgnoresLetterCase(a: string, b: string)
    requires |a| == |b|
    requires forall i :: 0 <= i < |a| ==> AsciiLowerChar(a[i]) == AsciiLowerChar(b[i])
    ensures IsImageUrl(a) <==> IsImageUrl(b)
  {
    ExtensionCharacters();
    forall c: char, p: char | p == '.' || IsAsciiLower(p)
      ensures MatchesIgnoringCase(c, p) <==> MatchesIgnoringCase(AsciiLowerChar(c), p)
    {
    }
    forall e | e in ImageExtensions
      ensures EndsWithIgnoringCase(a, e) <==> EndsWithIgnoringCase(b, e)
    {
      if |e| <= |a| {
        forall k | 0 <= k < |e|
          ensures MatchesIgnoringCase(a[|a| - |e| + k], e[k]) <==> MatchesIgnoringCase(b[|b| - |e| + k], e[k])
        {
          assert AsciiLowerChar(a[|a| - |e| + k]) == AsciiLowerChar(b[|b| - |e| + k]);
        }
      }
    }
  }

  // ---------------------------------------------------------------------------
  // Thumbnail rewrite (ngg_scraper.py:71-78)

  const ThumbsDir := "/thumbs/"
  const ThumbsFile := "/thumbs/thumbs_"

  /** `url.replace("/thumbs/thumbs_", "/").replace("/thumbs/", "/")` when the URL contains
      `/thumbs/`; any other URL is kept as it is. */
  function ThumbsRewrite(url: string): string {
    if Contains(url, ThumbsDir) then ReplaceAll(ReplaceAll(url, ThumbsFile, "/"), ThumbsDir, "/")
    else url
  }

  /** The rewrite only ever removes text, and removes some exactly when the URL has a
      `/thumbs/` segment. */
  lemma ThumbsRewriteShortens(url: string)
    ensures |ThumbsRewrite(url)| <= |url|
    ensures |ThumbsRewrite(url)| < |url| <==> Contains(url, ThumbsDir)
  {
    if Contains(url, ThumbsDir) {
      var once := ReplaceAll(url, ThumbsFile, "/");
      ReplaceAllShortens(url, ThumbsFile, "/");
      ReplaceAllShortens(once, ThumbsDir, "/");
      if !Contains(url, ThumbsFile) {
        ReplaceAllWithoutMatch(url, ThumbsFile, "/");
      }
    }
  }

  /** No `/thumbs/` occurrence can start inside `dir` in `dir + "/thumbs/" + rest` when
      `dir + "/"` has none: one that fits inside `dir + "/"` is excluded by hypothesis,
      and one that reaches further would need a letter of `thumbs` to be the `/`. */
  lemma NoThumbsInsideDir(dir: string, rest: string)
    requires !Contains(dir + "/", ThumbsDir)
    ensures forall i: nat :: i < |dir| ==> !MatchAt(dir + ThumbsDir + rest, ThumbsDir, i)
    ensures forall i: nat :: i < |dir| ==> !MatchAt(dir + ThumbsDir + rest, ThumbsFile, i)
  {
    var s := dir + ThumbsDir + rest;
    var u := dir + "/";
    assert ThumbsFile[..8] == ThumbsDir;
    forall i: nat | i < |dir|
      ensures !MatchAt(s, ThumbsDir, i) && !MatchAt(s, ThumbsFile, i)
    {
      if i + 8 <= |dir| + 1 {
        assert s[i..i + 8] == u[i..i + 8];
        assert !MatchAt(u, ThumbsDir, i);
      } else {
        var j := |dir| - i;
        assert 0 < j < 7;
        assert s[|dir|] == '/';
        assert ThumbsDir[j] != '/';
        if i + 8 <= |s| {
          assert s[i..i + 8][j] == '/';
        }
      }
      if i + 15 <= |s| {
        assert s[i..i + 15][..8] == s[i..i + 8];
      }
    }
  }

  lemma NoThumbsInTail(dir: string, name: string)
    requires !Contains(dir + "/" + name, ThumbsDir)
    ensures !Contains(dir + "/", ThumbsDir)
    ensures !Contains(name, ThumbsDir) && !Contains(name, ThumbsFile)
  {
    var u := dir + "/" + name;
    var k := |dir| + 1;
    assert u[..k] == dir + "/";
    assert u[k..] == name;
    forall i: nat | i <= k
      ensures !MatchAt(dir + "/", ThumbsDir, i)
    {
      assert !MatchAt(u, ThumbsDir, i);
      if i + 8 <= k {
        assert u[..k][i..i + 8] == u[i..i + 8];
      }
    }
    assert ThumbsFile[..8] == ThumbsDir;
    forall i: nat | i <= |name|
      ensures !MatchAt(name, ThumbsDir, i) && !MatchAt(name, ThumbsFile, i)
    {
      assert !MatchAt(u, ThumbsDir, k + i);
      if i + 8 <= |name| {
        assert u[k..][i..i + 8] == u[k + i..k + i + 8];
      }
      if i + 15 <= |name| {
        assert name[i..i + 15][..8] == name[i..i + 8];
      }
    }
  }

  lemma {:induction false} ThumbnailFirstReplace(dir: string, name: string)
    requires !Contains(dir + "/" + name, ThumbsDir)
    ensures ReplaceAll(dir + ThumbsFile + name, ThumbsFile, "/") == dir + "/" + name
  {
    NoThumbsInTail(dir, name);
    NoThumbnailInsideDir(dir, name);
    ReplaceAllAfterPrefix(dir, ThumbsFile, name, "/");
  }

  lemma NoThumbnailInsideDir(dir: string, name: string)
    requires !Contains(dir + "/", ThumbsDir)
    ensures forall i: nat :: i < |dir| ==> !MatchAt(dir + ThumbsFile + name, ThumbsFile, i)
  {
    assert dir + ThumbsFile + name == dir + ThumbsDir + ("thumbs_" + name);
    NoThumbsInsideDir(dir, "thumbs_" + name);
  }

  /** The gallery's thumbnail `dir/thumbs/thumbs_name` is rewritten to the full-size
      `dir/name` (for example `.../album/thumbs/thumbs_DSC.jpg` to `.../album/DSC.jpg`),
      provided `dir/name` itself has no `/thumbs/` segment. */
  lemma {:induction false} ThumbnailRewrittenToFullSize(dir: string, name: string)
    requires !Contains(dir + "/" + name, ThumbsDir)
    ensures ThumbsRewrite(dir + ThumbsFile + name) == dir + "/" + name
  {
    var s := dir + ThumbsFile + name;
    assert s[|dir|..|dir| + 8] == ThumbsDir;
    assert MatchAt(s, ThumbsDir, |dir|);
    ThumbnailFirstReplace(dir, name);
    ReplaceAllWithoutMatch(dir + "/" + name, ThumbsDir, "/");
  }

  /** No `/thumbs/thumbs_` occurrence starts within the `/thumbs/` that is followed by a
      name not starting with `thumbs_`. */
  lemma NoThumbsFileAtFolder(dir: string, name: string)
    requires !Contains(dir + "/" + name, ThumbsDir)
    requires !StartsWith(name, "thumbs_")
    ensures forall i: nat :: |dir| <= i < |dir| + 8 ==> !MatchAt(dir + ThumbsDir + name, ThumbsFile, i)
  {
    var s := dir + ThumbsDir + name;
    var u := dir + "/" + name;
    forall i: nat | |dir| <= i < |dir| + 8 && i + 15 <= |s|
      ensures !MatchAt(s, ThumbsFile, i)
    {
      if i == |dir| {
        assert s[i..i + 15][8..] == name[..7];
      } else if i == |dir| + 7 {
        assert s[i + 1..] == name;
        assert s[i..i + 8] == "/" + name[..7];
        assert u[|dir| + 1..] == name;
        assert u[|dir|..|dir| + 8] == "/" + name[..7];
        assert !MatchAt(u, ThumbsDir, |dir|);
        assert s[i..i + 15][..8] == s[i..i + 8];
      } else {
        assert s[i] == ThumbsDir[i - |dir|];
        assert s[i..i + 15][0] == s[i];
      }
    }
  }

  lemma NoThumbsFileInName(dir: string, name: string)
    requires !Contains(name, ThumbsFile)
    ensures forall i: nat :: |dir| + 8 <= i ==> !MatchAt(dir + ThumbsDir + name, ThumbsFile, i)
  {
    var s := dir + ThumbsDir + name;
    var k := |dir| + 8;
    assert s[k..] == name;
    forall i: nat | k <= i && i + 15 <= |s|
      ensures !MatchAt(s, ThumbsFile, i)
    {
      assert !MatchAt(name, ThumbsFile, i - k);
      assert s[k..][i - k..i - k + 15] == s[i..i + 15];
    }
  }

  lemma NoThumbsFileAround(dir: string, name: string)
    requires !Contains(dir + "/" + name, ThumbsDir)
    requires !StartsWith(name, "thumbs_")
    ensures !Contains(dir + ThumbsDir + name, ThumbsFile)
  {
    var s := dir + ThumbsDir + name;
    NoThumbsInTail(dir, name);
    NoThumbsInsideDir(dir, name);
    NoThumbsFileAtFolder(dir, name);
    NoThumbsFileInName(dir, name);
    forall i | 0 <= i <= |s| ensures !MatchAt(s, ThumbsFile, i) {
      if i < |dir| {
      } else if i < |dir| + 8 {
      } else {
      }
    }
  }

  /** A file directly in a `thumbs/` folder, without the `thumbs_` prefix, is rewritten to
      the same name in the parent folder. */
  lemma ThumbsFolderRewrittenToParent(dir: string, name: string)
    requires !Contains(dir + "/" + name, ThumbsDir)
    requires !StartsWith(name, "thumbs_")
    ensures ThumbsRewrite(dir + ThumbsDir + name) == dir + "/" + name
  {
    var s := dir + ThumbsDir + name;
    NoThumbsFileAround(dir, name);
    ReplaceAllWithoutMatch(s, ThumbsFile, "/");
    ThumbsFolderSecondReplace(dir, name);
    assert s[|dir|..|dir| + 8] == ThumbsDir;
    assert MatchAt(s, ThumbsDir, |dir|);
  }

  lemma ThumbsFolderSecondReplace(dir: string, name: string)
    requires !Contains(dir + "/" + name, ThumbsDir)
    ensures ReplaceAll(dir + ThumbsDir + name, ThumbsDir, "/") == dir + "/" + name
  {
    NoThumbsInTail(dir, name);
    NoThumbsInsideDir(dir, name);
    ReplaceAllAfterPrefix(dir, ThumbsDir, name, "/");
  }

  // ---------------------------------------------------------------------------
  // urlsplit / urlparse, as far as the scraper uses them

  /** `s.find(c)`. */
  function Find(s: string, c: char): (r: Option<nat>)
    ensures r.Some? ==> r.value < |s| && s[r.value] == c && c !in s[..r.value]
    ensures r.None? ==> c !in s
    decreases |s|
  {
    if |s| == 0 then None
    else if s[0] == c then Some(0)
    else match Find(s[1..], c)
      case None => None
      case Some(i) => Some(i + 1)
  }

  /** The text before the first `c` (all of `s` when there is none): `s.split(c, 1)[0]`. */
  function Before(s: string, c: char): (r: string)
    ensures c !in r
    ensures Find(s, c).None? ==> r == s
  {
    match Find(s, c)
    case None => s
    case Some(i) => s[..i]
  }

  /** The text after the last `/`: `s[s.rfind('/') + 1:]`, os.path.basename. */
  function Basename(s: string): (r: string)
    ensures '/' !in r
    ensures |r| <= |s| && r == s[|s| - |r|..]
    ensures |r| < |s| ==> s[|s| - |r| - 1] == '/'
    decreases |s|
  {
    if |s| == 0 then ""
    else if s[|s| - 1] == '/' then ""
    else
      var init := s[..|s| - 1];
      var r0 := Basename(init);
      assert init[|init| - |r0|..] + [s[|s| - 1]] == s[|s| - |r0| - 1..];
      assert |r0| < |init| ==> init[|init| - |r0| - 1] == s[|s| - |r0| - 2];
      r0 + [s[|s| - 1]]
  }

  predicate IsAsciiLetter(c: char) { IsAsciiLower(c) || IsAsciiUpper(c) }

  predicate IsSchemeChar(c: char) {
    IsAsciiLetter(c) || '0' <= c <= '9' || c == '+' || c == '-' || c == '.'
  }

  function AsciiLower(s: string): (r: string)
    ensures |r| == |s|
    ensures forall i :: 0 <= i < |s| ==> r[i] == AsciiLowerChar(s[i])
  {
    seq(|s|, i requires 0 <= i < |s| => AsciiLowerChar(s[i]))
  }

  /** The characters `urlsplit` strips from the start of a URL: the C0 controls and the
      space. */
  predicate IsC0OrSpace(c: char) { c <= ' ' }

  /** Tab, carriage return and line feed, which `urlsplit` deletes wherever they occur. */
  predicate IsUnsafeUrlChar(c: char) { c == '\t' || c == '\r' || c == '\n' }

  /** `s.lstrip()` of the C0 controls and the space. */
  function LStripC0(s: string): (r: string)
    ensures |r| <= |s| && r == s[|s| - |r|..]
    ensures |r| > 0 ==> !IsC0OrSpace(r[0])
    decreases |s|
  {
    if |s| > 0 && IsC0OrSpace(s[0]) then LStripC0(s[1..]) else s
  }

  /** `s` with every tab, carriage return and line feed deleted. */
  function RemoveUnsafe(s: string): (r: string)
    ensures forall k :: 0 <= k < |r| ==> !IsUnsafeUrlChar(r[k])
    ensures forall c :: c in r ==> c in s
    decreases |s|
  {
    if |s| == 0 then ""
    else (if IsUnsafeUrlChar(s[0]) then "" else [s[0]]) + RemoveUnsafe(s[1..])
  }

  /** The text `urlsplit` splits: the URL without its leading controls and spaces and
      without any tab or line break. */
  function Clean(url: string): string {
    RemoveUnsafe(LStripC0(url))
  }

  /** urlsplit's scheme: the text before the first `:` when it starts with an ASCII letter
      and holds only scheme characters, lower-cased; returns it with the rest of the URL. */
  function SplitScheme(url: string): (r: (string, string))
    ensures r.0 == "" ==> r.1 == url
    ensures r.0 != "" ==> IsAsciiLetter(r.0[0]) && AsciiLower(r.0) == r.0
    ensures r.0 != "" ==> forall k :: 0 <= k < |r.0| ==> IsSchemeChar(r.0[k])
  {
    match Find(url, ':')
    case Some(i) =>
      if i > 0 && IsAsciiLetter(url[0]) && forall k :: 0 <= k < i ==> IsSchemeChar(url[k])
      then (AsciiLower(url[..i]), url[i + 1..])
      else ("", url)
    case None => ("", url)
  }

  /** Index of the first `/`, `?` or `#` in `s` at or after `from`, or `|s|`. */
  function NetlocEnd(s: string, from: nat): (r: nat)
    requires from <= |s|
    ensures from <= r <= |s|
    ensures forall k :: from <= k < r ==> s[k] != '/' && s[k] != '?' && s[k] != '#'
    ensures r < |s| ==> s[r] == '/' || s[r] == '?' || s[r] == '#'
    decreases |s| - from
  {
    if from == |s| then from
    else if s[from] == '/' || s[from] == '?' || s[from] == '#' then from
    else NetlocEnd(s, from + 1)
  }

  /** urlsplit's network location: when the rest starts with `//`, the text up to the next
      `/`, `?` or `#`; returns it with what follows. */
  function SplitNetloc(rest: string): (r: (string, string))
    ensures r.0 + r.1 == rest || (StartsWith(rest, "//") && "//" + r.0 + r.1 == rest)
    ensures forall k :: 0 <= k < |r.0| ==> r.0[k] != '/' && r.0[k] != '?' && r.0[k] != '#'
  {
    if StartsWith(rest, "//") then
      var e := NetlocEnd(rest, 2);
      (rest[2..e], rest[e..])
    else ("", rest)
  }

  const UsesParams: seq<string> :=
    ["", "ftp", "hdl", "prospero", "http", "imap", "https", "shttp", "rtsp", "rtsps",
     "rtspu", "sip", "sips", "mms", "sftp", "tel"]

  /** urlparse's `_splitparams`: cut the path at the first `;` after its last `/`. */
  function StripParams(path: string): string {
    var name := Basename(path);
    path[..|path| - |name|] + Before(name, ';')
  }

  /** `urlparse(url).path`: the path of the URL once `urlsplit` has cleaned it. */
  function UrlPath(url: string): string {
    SplitPath(Clean(url))
  }

  /** The path `urlparse` finds in an already cleaned URL: what follows the authority,
      up to the query or fragment, with the parameters cut off when the scheme has them. */
  function SplitPath(url: string): string {
    var path := PathWithParams(url);
    if SplitScheme(url).0 in UsesParams then StripParams(path) else path
  }

  /** What follows the authority, without the fragment and the query. */
  function PathWithParams(url: string): string {
    var afterNetloc := SplitNetloc(SplitScheme(url).1).1;
    Before(Before(afterNetloc, '#'), '?')
  }

  /** The network location `urlsplit` finds, when the cleaned URL has one: after the
      scheme, the text starts with `//`. */
  function Authority(url: string): Option<string> {
    var rest := SplitScheme(Clean(url)).1;
    if StartsWith(rest, "//") then Some(SplitNetloc(rest).0) else None
  }

  /** `urlsplit(url)` raises `ValueError("Invalid IPv6 URL")`: the network location holds
      a `[` without a `]`, or a `]` without a `[`. */
  predicate ParseRaises(url: string) {
    match Authority(url)
    case None => false
    case Some(net) => ('[' in net) != (']' in net)
  }

  /** `os.path.basename(urlparse(img_url).path)` (ngg_scraper.py:97). */
  function Filename(url: string): (r: string)
    ensures '/' !in r
  {
    Basename(UrlPath(url))
  }

  lemma {:induction false} BasenameOfConcat(a: string, b: string)
    requires '/' !in b
    ensures Basename(a + "/" + b) == b
    decreases |b|
  {
    var s := a + "/" + b;
    if |b| > 0 {
      assert s[|s| - 1] == b[|b| - 1];
      assert s[..|s| - 1] == a + "/" + b[..|b| - 1];
      BasenameOfConcat(a, b[..|b| - 1]);
      assert b[..|b| - 1] + [b[|b| - 1]] == b;
    } else {
      assert s[|s| - 1] == '/';
    }
  }

  // ---------------------------------------------------------------------------
  // Absolutisation (ngg_scraper.py:92-95)

  const UsesRelative: seq<string> :=
    ["", "ftp", "http", "gopher", "nntp", "imap", "wais", "file", "https", "shttp", "mms",
     "prospero", "rtsp", "rtsps", "rtspu", "sftp", "svn", "svn+ssh", "ws", "wss"]

  /** The scheme and authority of the post link as `urlunsplit` writes them back. */
  function Origin(link: string): string {
    var (scheme, rest) := SplitScheme(link);
    Unsplit(scheme, SplitNetloc(rest).0)
  }

  /** `urlunsplit((scheme, netloc, "", "", ""))`. */
  function Unsplit(scheme: string, netloc: string): string {
    (if scheme == "" then "" else scheme + ":") + (if scheme != "" || netloc != "" then "//" + netloc else "")
  }

  /** `urljoin(link, ref)` for a reference that starts with a single `/`: the scheme and
      authority of the link as `urlsplit` reads it (cleaned first) followed by the
      reference, when that scheme allows relative references; the reference unchanged
      otherwise. */
  function JoinRooted(link: string, ref: string): string {
    var base := Clean(link);
    if SplitScheme(base).0 in UsesRelative then Origin(base) + ref else ref
  }

  /** The absolutisation applied to each collected URL: `//host/...` gets `https:`,
      `/path` is joined to the post link, anything else is kept. */
  function Absolutise(url: string, link: string): (r: string)
    ensures StartsWith(url, "//") ==> SplitScheme(r) == ("https", url)
    ensures StartsWith(url, "/") && !StartsWith(url, "//") && SplitScheme(Clean(link)).0 in UsesRelative ==>
      Origin(r) == Origin(Clean(link))
    ensures !StartsWith(url, "/") ==> r == url
  {
    if StartsWith(url, "//") then
      HttpsIsLowerCase();
      SchemeSplitsOff("https", url);
      assert "https:" + url == "https" + ":" + url;
      "https:" + url
    else if StartsWith(url, "/") then
      OriginOfJoinedPath(url, Clean(link));
      JoinRooted(link, url)
    else url
  }

  lemma FindInPrefix(x: string, y: string, c: char)
    requires Find(x, c).Some?
    ensures Find(x + y, c) == Find(x, c)
    decreases |x|
  {
    if x[0] != c {
      assert (x + y)[1..] == x[1..] + y;
      FindInPrefix(x[1..], y, c);
    }
  }

  lemma FindAfterPrefix(x: string, y: string, c: char)
    requires c !in x
    ensures Find(x + y, c) == (match Find(y, c) case None => None case Some(j) => Some(|x| + j))
    decreases |x|
  {
    if |x| == 0 {
      assert x + y == y;
    } else {
      assert (x + y)[1..] == x[1..] + y;
      FindAfterPrefix(x[1..], y, c);
    }
  }

  lemma BeforeWithPrefix(x: string, y: string, c: char)
    requires c !in x
    ensures Before(x + y, c) == x + Before(y, c)
  {
    FindAfterPrefix(x, y, c);
    match Find(y, c)
    case None =>
    case Some(j) =>
      assert (x + y)[..|x| + j] == x + y[..j];
  }

  lemma NetlocEndWithPrefix(x: string, y: string, from: nat)
    requires from <= |x|
    ensures NetlocEnd(x, from) < |x| ==> NetlocEnd(x + y, from) == NetlocEnd(x, from)
    ensures NetlocEnd(x, from) == |x| ==> NetlocEnd(x + y, from) == NetlocEnd(x + y, |x|)
    decreases |x| - from
  {
    if from < |x| && x[from] != '/' && x[from] != '?' && x[from] != '#' {
      NetlocEndWithPrefix(x, y, from + 1);
    }
  }

  /** A string with no `c` in it keeps that property in each of its suffixes. */
  lemma NotInSuffix(s: string, k: nat, c: char)
    requires k <= |s| && c !in s
    ensures c !in s[k..]
  {
    forall j | 0 <= j < |s[k..]| ensures s[k..][j] != c {
      assert s[k..][j] == s[k + j];
    }
  }

  /** A URL that does not start with a letter has no scheme. */
  lemma NoSchemeWithoutLetter(url: string)
    requires |url| > 0 && !IsAsciiLetter(url[0])
    ensures SplitScheme(url) == ("", url)
  {
  }

  /** A lower-case scheme followed by `:` is split off again. */
  lemma SchemeSplitsOff(scheme: string, tail: string)
    requires scheme != "" && IsAsciiLetter(scheme[0]) && AsciiLower(scheme) == scheme
    requires forall k :: 0 <= k < |scheme| ==> IsSchemeChar(scheme[k])
    ensures SplitScheme(scheme + ":" + tail) == (scheme, tail)
  {
    var r := scheme + ":" + tail;
    assert ':' !in scheme by {
      forall k | 0 <= k < |scheme| ensures scheme[k] != ':' {
        assert IsSchemeChar(scheme[k]);
      }
    }
    assert r == scheme + (":" + tail);
    FindAfterPrefix(scheme, ":" + tail, ':');
    assert Find(r, ':') == Some(|scheme|);
    assert r[..|scheme|] == scheme;
    assert r[|scheme| + 1..] == tail;
  }

  /** An authority with no `/`, `?` or `#`, followed by a path, is split off again. */
  lemma NetlocSplitsOff(net: string, path: string)
    requires forall k :: 0 <= k < |net| ==> net[k] != '/' && net[k] != '?' && net[k] != '#'
    requires StartsWith(path, "/")
    ensures SplitNetloc("//" + net + path) == (net, path)
  {
    var t := "//" + net + path;
    assert t[..2] == "//";
    NetlocEndWithPrefix("//" + net, path, 2);
    assert NetlocEnd(t, 2) == 2 + |net|;
    assert t[2..2 + |net|] == net;
    assert t[2 + |net|..] == path;
  }

  /** A scheme-relative `//host/path` is completed with `https:` and keeps its own host,
      whatever the post link is. */
  lemma ProtocolRelativeKeepsItsHost(url: string, link: string)
    requires StartsWith(url, "//")
    ensures Absolutise(url, link) == "https:" + url
    ensures Origin(Absolutise(url, link)) == "https://" + SplitNetloc(url).0
  {
    HttpsIsLowerCase();
    SchemeSplitsOff("https", url);
    var r := "https:" + url;
    assert r == "https" + ":" + url;
    assert Absolutise(url, link) == r;
  }

  lemma HttpsIsLowerCase()
    ensures AsciiLower("https") == "https"
    ensures forall k :: 0 <= k < |"https"| ==> IsSchemeChar("https"[k])
  {
    var h := "https";
    var l := AsciiLower(h);
    forall k | 0 <= k < 5 ensures l[k] == h[k] {
      assert IsAsciiLower(h[k]);
    }
  }

  /** A `/path` reference is joined to the post link: the result is the scheme and
      authority of the cleaned link followed by the reference, and it has that origin. */
  lemma RootedPathTakesLinkOrigin(url: string, link: string)
    requires StartsWith(url, "/") && !StartsWith(url, "//")
    requires SplitScheme(Clean(link)).0 in UsesRelative
    ensures Absolutise(url, link) == Origin(Clean(link)) + url
    ensures Origin(Absolutise(url, link)) == Origin(Clean(link))
  {
    assert Absolutise(url, link) == Origin(Clean(link)) + url;
    OriginOfJoinedPath(url, Clean(link));
  }

  /** Controls and spaces in front of the post link do not change how a URL is made
      absolute, since `urljoin` splits the link with `urlsplit`. */
  lemma AbsolutiseIgnoresLinkLeadingSpace(url: string, a: string, link: string)
    requires forall k :: 0 <= k < |a| ==> IsC0OrSpace(a[k])
    ensures Absolutise(url, a + link) == Absolutise(url, link)
  {
    LeadingSpaceIgnored(a, link);
  }

  /** An `https` link with controls or spaces in front, such as `" https://site/p"`, still
      lends a `/path` reference its scheme and host: `/a.jpg` becomes
      `https://site/a.jpg`. */
  lemma PaddedLinkJoined(pad: string, host: string, path: string, url: string)
    requires forall k :: 0 <= k < |pad| ==> IsC0OrSpace(pad[k])
    requires Visible(host) && Visible(path) && StartsWith(path, "/")
    requires forall k :: 0 <= k < |host| ==> host[k] != '/' && host[k] != '?' && host[k] != '#'
    requires StartsWith(url, "/") && !StartsWith(url, "//")
    ensures Absolutise(url, pad + ("https:" + ("//" + host + path))) == "https://" + host + url
  {
    var link := "https:" + ("//" + host + path);
    AbsolutiseIgnoresLinkLeadingSpace(url, pad, link);
    HttpsLinkOrigin(host, path);
    assert "https" in UsesRelative;
    RootedPathTakesLinkOrigin(url, link);
  }

  /** An `https` link with a plain host: `urlsplit` reads its scheme and host back. */
  lemma HttpsLinkOrigin(host: string, path: string)
    requires Visible(host) && Visible(path) && StartsWith(path, "/")
    requires forall k :: 0 <= k < |host| ==> host[k] != '/' && host[k] != '?' && host[k] != '#'
    ensures Clean("https:" + ("//" + host + path)) == "https:" + ("//" + host + path)
    ensures SplitScheme(Clean("https:" + ("//" + host + path))).0 == "https"
    ensures Origin(Clean("https:" + ("//" + host + path))) == "https://" + host
  {
    var rest := "//" + host + path;
    var url := "https:" + rest;
    HttpsLinkClean(host, path);
    assert SplitScheme(url) == ("https", rest) by {
      HttpsIsLowerCase();
      SchemeSplitsOff("https", rest);
      assert url == "https" + ":" + rest;
    }
    NetlocSplitsOff(host, path);
    assert Origin(url) == Unsplit("https", host);
  }

  lemma HttpsLinkClean(host: string, path: string)
    requires Visible(host) && Visible(path)
    ensures Clean("https:" + ("//" + host + path)) == "https:" + ("//" + host + path)
  {
    var rest := "//" + host + path;
    assert Visible("//") && Visible("https:");
    VisibleAppend("//", host);
    VisibleAppend("//" + host, path);
    VisibleAppend("https:", rest);
    VisibleIsClean("https:" + rest);
  }

  lemma OriginOfJoinedPath(url: string, link: string)
    requires StartsWith(url, "/") && !StartsWith(url, "//")
    ensures Origin(Origin(link) + url) == Origin(link)
  {
    var (scheme, rest) := SplitScheme(link);
    UnsplitThenPath(scheme, SplitNetloc(rest).0, url);
  }

  /** A scheme and authority as urlsplit returns them, written back and followed by a
      rooted path, split into the same scheme and authority again. */
  lemma UnsplitThenPath(scheme: string, net: string, url: string)
    requires scheme != "" ==> IsAsciiLetter(scheme[0]) && AsciiLower(scheme) == scheme
    requires scheme != "" ==> forall k :: 0 <= k < |scheme| ==> IsSchemeChar(scheme[k])
    requires forall k :: 0 <= k < |net| ==> net[k] != '/' && net[k] != '?' && net[k] != '#'
    requires StartsWith(url, "/") && !StartsWith(url, "//")
    ensures Origin(Unsplit(scheme, net) + url) == Unsplit(scheme, net)
  {
    var r := Unsplit(scheme, net) + url;
    NetlocSplitsOff(net, url);
    if scheme == "" {
      assert !IsAsciiLetter(url[0]);
      if net == "" {
        assert r == url;
        NoSchemeWithoutLetter(url);
      } else {
        assert r == "//" + net + url;
        NoSchemeWithoutLetter(r);
      }
    } else {
      assert r == scheme + ":" + ("//" + net + url);
      SchemeSplitsOff(scheme, "//" + net + url);
    }
  }

  /** Only URLs starting with `/` are rewritten. */
  lemma AbsolutiseKeepsOthers(url: string, link: string)
    requires |url| > 0 && url[0] != '/'
    ensures Absolutise(url, link) == url
  {
    assert !StartsWith(url, "/") && !StartsWith(url, "//");
  }

  lemma OriginStartsWithScheme(link: string)
    requires SplitScheme(link).0 != ""
    ensures |Origin(link)| > 0 && IsAsciiLetter(Origin(link)[0])
  {
    var scheme := SplitScheme(link).0;
    assert Origin(link) == scheme + (":" + "//" + SplitNetloc(SplitScheme(link).1).0);
  }

  /** Once the post link carries a scheme, absolutising an already absolutised URL
      changes nothing. */
  lemma AbsolutiseIdempotent(url: string, link: string)
    requires SplitScheme(Clean(link)).0 != ""
    ensures Absolutise(Absolutise(url, link), link) == Absolutise(url, link)
  {
    var r := Absolutise(url, link);
    if StartsWith(url, "//") {
      assert r == "https:" + url;
      AbsolutiseKeepsOthers(r, link);
    } else if StartsWith(url, "/") && SplitScheme(Clean(link)).0 in UsesRelative {
      assert r == Origin(Clean(link)) + url;
      OriginStartsWithScheme(Clean(link));
      assert r[0] == Origin(Clean(link))[0];
      AbsolutiseKeepsOthers(r, link);
    } else {
      assert r == url;
    }
  }

  /** A query appended to a URL stays at the end of what follows the scheme. */
  lemma SchemeIgnoresQuery(u: string, q: string)
    requires '?' !in u
    ensures SplitScheme(u + ("?" + q)).0 == SplitScheme(u).0
    ensures SplitScheme(u + ("?" + q)).1 == SplitScheme(u).1 + ("?" + q)
    ensures '?' !in SplitScheme(u).1 || SplitScheme(u).1 == u
  {
    var v := u + ("?" + q);
    match Find(u, ':')
    case Some(i) =>
      FindInPrefix(u, "?" + q, ':');
      assert v[..i] == u[..i];
      assert v[i + 1..] == u[i + 1..] + ("?" + q);
      NotInSuffix(u, i + 1, '?');
    case None =>
      FindAfterPrefix(u, "?" + q, ':');
      match Find("?" + q, ':')
      case None =>
      case Some(j) =>
        assert j > 0;
        assert !IsSchemeChar(v[|u|]);
  }

  /** A query appended after the authority stays at the end of the path part. */
  lemma NetlocIgnoresQuery(ru: string, q: string)
    requires '?' !in ru
    ensures SplitNetloc(ru + ("?" + q)).1 == SplitNetloc(ru).1 + ("?" + q)
    ensures '?' !in SplitNetloc(ru).1
  {
    var rv := ru + ("?" + q);
    if StartsWith(ru, "//") {
      assert rv[..2] == ru[..2];
      NetlocEndWithPrefix(ru, "?" + q, 2);
      var e := NetlocEnd(ru, 2);
      if e == |ru| {
        assert rv[|ru|] == '?';
        assert NetlocEnd(rv, |ru|) == |ru|;
      }
      assert rv[NetlocEnd(rv, 2)..] == ru[e..] + ("?" + q);
      NotInSuffix(ru, e, '?');
    } else {
      assert !StartsWith(rv, "//") by {
        if |ru| >= 2 { assert rv[..2] == ru[..2]; } else { assert rv[|ru|] == '?'; }
      }
    }
  }

  /** The query string never reaches the file name: `urlparse` cuts it off the path. */
  lemma FilenameIgnoresQuery(u: string, q: string)
    requires '?' !in u && '#' !in u
    ensures Filename(u + "?" + q) == Filename(u)
  {
    UrlPathIgnoresQuery(u, q);
  }

  lemma UrlPathIgnoresQuery(u: string, q: string)
    requires '?' !in u && '#' !in u
    ensures UrlPath(u + "?" + q) == UrlPath(u)
  {
    ConcatAssoc(u, "?", q);
    CleanWithQuery(u, q);
    SplitPathIgnoresAppendedQuery(Clean(u), RemoveUnsafe(q));
  }

  lemma SplitPathIgnoresAppendedQuery(u: string, q: string)
    requires '?' !in u && '#' !in u
    ensures SplitPath(u + ("?" + q)) == SplitPath(u)
  {
    SchemeIgnoresQuery(u, q);
    PathIgnoresQuery(u, q);
    SplitPathFromParts(u + ("?" + q), u);
  }

  /** `urlparse(url).path` depends only on the scheme and the part after the authority. */
  lemma SplitPathFromParts(a: string, b: string)
    requires SplitScheme(a).0 == SplitScheme(b).0 && PathWithParams(a) == PathWithParams(b)
    ensures SplitPath(a) == SplitPath(b)
  {
  }

  /** Cleaning stops at a visible character. */
  lemma {:induction false} LStripBeforeVisible(u: string, t: string)
    requires |t| > 0 && !IsC0OrSpace(t[0])
    ensures LStripC0(u + t) == LStripC0(u) + t
    decreases |u|
  {
    if |u| == 0 {
      assert u + t == t;
    } else {
      assert (u + t)[0] == u[0];
      assert (u + t)[1..] == u[1..] + t;
      if IsC0OrSpace(u[0]) {
        LStripBeforeVisible(u[1..], t);
      }
    }
  }

  lemma {:induction false} RemoveUnsafeConcat(a: string, b: string)
    ensures RemoveUnsafe(a + b) == RemoveUnsafe(a) + RemoveUnsafe(b)
    decreases |a|
  {
    if |a| == 0 {
      assert a + b == b;
    } else {
      assert (a + b)[0] == a[0];
      assert (a + b)[1..] == a[1..] + b;
      RemoveUnsafeConcat(a[1..], b);
    }
  }

  /** A query appended to a URL with neither `?` nor `#` is still appended once the URL
      is cleaned. */
  lemma CleanWithQuery(u: string, q: string)
    requires '?' !in u && '#' !in u
    ensures Clean(u + ("?" + q)) == Clean(u) + ("?" + RemoveUnsafe(q))
    ensures '?' !in Clean(u) && '#' !in Clean(u)
  {
    var t := "?" + q;
    LStripBeforeVisible(u, t);
    RemoveUnsafeConcat(LStripC0(u), t);
    assert t[1..] == q;
    assert RemoveUnsafe(t) == "?" + RemoveUnsafe(q);
    var k := |u| - |LStripC0(u)|;
    NotInSuffix(u, k, '?');
    NotInSuffix(u, k, '#');
  }

  /** A tab, carriage return or line feed anywhere in a URL does not reach what `urlsplit`
      parses. */
  lemma {:induction false} UnsafeCharIgnored(a: string, c: char, b: string)
    requires IsUnsafeUrlChar(c)
    ensures Clean(a + [c] + b) == Clean(a + b)
    decreases |a|
  {
    if |a| == 0 {
      assert a + [c] + b == [c] + b;
      assert a + b == b;
      assert ([c] + b)[1..] == b;
    } else if IsC0OrSpace(a[0]) {
      assert (a + [c] + b)[0] == a[0];
      assert (a + [c] + b)[1..] == a[1..] + [c] + b;
      assert (a + b)[0] == a[0];
      assert (a + b)[1..] == a[1..] + b;
      UnsafeCharIgnored(a[1..], c, b);
    } else {
      assert (a + [c] + b)[0] == a[0];
      assert (a + b)[0] == a[0];
      assert a + [c] + b == a + ([c] + b);
      RemoveUnsafeConcat(a, [c] + b);
      RemoveUnsafeConcat(a, b);
      assert ([c] + b)[1..] == b;
    }
  }

  /** The file name of an image does not change when a tab or a line break is taken out
      of its URL: `urlsplit` deletes them before it finds the path. */
  lemma FilenameIgnoresUnsafeChar(a: string, c: char, b: string)
    requires IsUnsafeUrlChar(c)
    ensures Filename(a + [c] + b) == Filename(a + b)
  {
    UnsafeCharIgnored(a, c, b);
  }

  /** Controls and spaces in front of a URL do not reach what `urlsplit` parses. */
  lemma {:induction false} LeadingSpaceIgnored(a: string, b: string)
    requires forall k :: 0 <= k < |a| ==> IsC0OrSpace(a[k])
    ensures Clean(a + b) == Clean(b)
    decreases |a|
  {
    if |a| > 0 {
      assert (a + b)[0] == a[0];
      assert (a + b)[1..] == a[1..] + b;
      LeadingSpaceIgnored(a[1..], b);
    } else {
      assert a + b == b;
    }
  }

  /** Every character of the authority occurs in the URL. */
  lemma AuthorityFromUrl(url: string)
    requires Authority(url).Some?
    ensures forall c :: c in Authority(url).value ==> c in url
  {
    var u := Clean(url);
    var (scheme, rest) := SplitScheme(u);
    if scheme != "" {
      var i := Find(u, ':').value;
      assert rest == u[i + 1..];
    }
    var net := SplitNetloc(rest).0;
    assert rest == "//" + net + SplitNetloc(rest).1;
    forall c | c in net ensures c in url {
      var k :| 0 <= k < |net| && net[k] == c;
      assert rest[2 + k] == c;
      assert c in u;
      assert c in LStripC0(url);
    }
  }

  /** A URL without controls and spaces is parsed as it is. */
  lemma {:induction false} VisibleIsClean(url: string)
    requires Visible(url)
    ensures Clean(url) == url
  {
    RemoveSafe(url);
  }

  lemma {:induction false} RemoveSafe(s: string)
    requires forall k :: 0 <= k < |s| ==> !IsC0OrSpace(s[k])
    ensures RemoveUnsafe(s) == s
    decreases |s|
  {
    if |s| > 0 {
      assert !IsC0OrSpace(s[0]);
      RemoveSafe(s[1..]);
    }
  }

  /** Only a bracket in the URL can make `urlsplit` raise. */
  lemma NoBracketNoRaise(url: string)
    requires '[' !in url && ']' !in url
    ensures !ParseRaises(url)
  {
    if Authority(url).Some? {
      AuthorityFromUrl(url);
    }
  }

  /** A protocol-relative URL whose host has an opening bracket but no closing one,
      completed with `https:`, cannot be parsed. */
  lemma OpenBracketHostRaises(host: string, path: string)
    requires '[' in host && ']' !in host
    requires forall k :: 0 <= k < |host| ==> host[k] != '/' && host[k] != '?' && host[k] != '#'
    requires StartsWith(path, "/")
    requires Visible(host) && Visible(path)
    ensures ParseRaises("https:" + ("//" + host + path))
  {
    var rest := "//" + host + path;
    HttpsAuthority(host, path);
    NetlocSplitsOff(host, path);
    assert SplitNetloc(rest).0 == host;
  }

  lemma HttpsAuthority(host: string, path: string)
    requires Visible(host) && Visible(path)
    ensures Authority("https:" + ("//" + host + path)) == Some(SplitNetloc("//" + host + path).0)
  {
    var rest := "//" + host + path;
    var url := "https:" + rest;
    assert Clean(url) == url by {
      assert Visible("//") && Visible("https:");
      VisibleAppend("//", host);
      VisibleAppend("//" + host, path);
      VisibleAppend("https:", rest);
      VisibleIsClean(url);
    }
    assert SplitScheme(url) == ("https", rest) by {
      HttpsIsLowerCase();
      SchemeSplitsOff("https", rest);
      assert url == "https" + ":" + rest;
    }
    assert rest[..2] == "//";
  }

  /** No C0 control and no space. */
  predicate Visible(s: string) {
    forall k :: 0 <= k < |s| ==> !IsC0OrSpace(s[k])
  }

  lemma VisibleAppend(a: string, b: string)
    requires Visible(a) && Visible(b)
    ensures Visible(a + b)
  {
    forall k | 0 <= k < |a + b| ensures !IsC0OrSpace((a + b)[k]) {
      if k >= |a| {
        assert (a + b)[k] == b[k - |a|];
      }
    }
  }

  /** `//[h/wp-content/gallery/y.jpg` is such a URL. */
  lemma BracketedGalleryUrlRaises()
    ensures ParseRaises("https:" + ("//" + "[h" + "/wp-content/gallery/y.jpg"))
  {
    var path := "/wp-content/gallery/y.jpg";
    assert "[h"[0] == '[';
    OpenBracketHostRaises("[h", path);
  }


  lemma PathIgnoresQuery(u: string, q: string)
    requires '?' !in u && '#' !in u
    ensures PathWithParams(u + ("?" + q)) == PathWithParams(u)
  {
    AfterNetlocIgnoresQuery(u, q);
    CutAtQuery(SplitNetloc(SplitScheme(u).1).1, q);
  }

  lemma AfterNetlocIgnoresQuery(u: string, q: string)
    requires '?' !in u && '#' !in u
    ensures SplitNetloc(SplitScheme(u + ("?" + q)).1).1 == SplitNetloc(SplitScheme(u).1).1 + ("?" + q)
    ensures '?' !in SplitNetloc(SplitScheme(u).1).1 && '#' !in SplitNetloc(SplitScheme(u).1).1
  {
    SchemeIgnoresQuery(u, q);
    NetlocIgnoresQuery(SplitScheme(u).1, q);
    PathHasNoHash(u);
  }

  /** Cutting at the fragment, then at the query, leaves what came before the `?`. */
  lemma CutAtQuery(au: string, q: string)
    requires '?' !in au && '#' !in au
    ensures Before(Before(au + ("?" + q), '#'), '?') == au
    ensures Before(Before(au, '#'), '?') == au
  {
    BeforeWithPrefix(au, "?" + q, '#');
    BeforeWithPrefix("?", q, '#');
    assert Before(au + ("?" + q), '#') == au + ("?" + Before(q, '#'));
    BeforeWithPrefix(au, "?" + Before(q, '#'), '?');
    assert Before("?" + Before(q, '#'), '?') == "";
  }

  lemma PathHasNoHash(u: string)
    requires '#' !in u
    ensures '#' !in SplitNetloc(SplitScheme(u).1).1
  {
    var (s, ru) := SplitScheme(u);
    if s != "" {
      var i := Find(u, ':').value;
      assert ru == u[i + 1..];
      NotInSuffix(u, i + 1, '#');
    }
    var e := if StartsWith(ru, "//") then NetlocEnd(ru, 2) else 0;
    assert SplitNetloc(ru).1 == ru[e..];
    NotInSuffix(ru, e, '#');
  }
}
