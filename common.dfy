/** Helpers shared by the extractors (coursera/extractors/common.py): the
    course-wide store of stylesheets and images under `shared_assets`, the
    relative links that point into it, the rewriting of `url(...)`
    references inside a stylesheet, and the download of the PDFs a page
    links to.  Hashing is the uninterpreted `md5` (its hex digest), the
    network is `fetch` (the body length the server sends, or None), and the
    page's DOM is the list of attribute values it would hand back. */
module Common {
  import opened Base
  import opened Fs
  import opened Utils
  import opened Files

  // ---------------------------------------------------------------------
  // Relative links into shared_assets
  // ---------------------------------------------------------------------

  /** `len(item_dir.parts) - len(shared_assets_dir.parent.parts)`. */
  function Depth(itemDir: Path, sharedAssetsDir: Path): int
    requires |sharedAssetsDir| >= 1
  {
    |itemDir| - |Parent(sharedAssetsDir)|
  }

  /** The name every relative asset link climbs back to. */
  const SharedAssets := "shared_assets"

  /** `"../" * depth + "shared_assets/<kind>/<name>"`. */
  function AssetRel(itemDir: Path, sharedAssetsDir: Path, kind: string, name: string): string
    requires |sharedAssetsDir| >= 1
  {
    Repeat("../", Depth(itemDir, sharedAssetsDir)) + (SharedAssets + "/" + kind + "/" + name)
  }

  /** How a page in `dir` resolves the relative reference `rel`: each
      leading "../" climbs one level (never above the top), the rest is
      appended part by part. */
  function ResolveRel(dir: Path, rel: string): Path
    decreases |rel|
  {
    if StartsWith(rel, "../") then ResolveRel(if |dir| > 0 then dir[..|dir| - 1] else dir, rel[3..])
    else dir + PathParts(rel)
  }

  /** One path component: neither empty nor "." and without a slash. */
  predicate IsSegment(s: string)
  {
    s != [] && s != "." && '/' !in s
  }

  /** Climbing `n` levels removes the last `n` components. */
  lemma {:induction false} ClimbRepeat(dir: Path, n: nat, x: string)
    requires n <= |dir| && !StartsWith(x, "../")
    ensures ResolveRel(dir, Repeat("../", n) + x) == dir[..|dir| - n] + PathParts(x)
    decreases n
  {
    if n == 0 {
      ClimbNone(dir, x);
    } else {
      ClimbRepeat(dir[..|dir| - 1], n - 1, x);
      ClimbStep(dir, n, x);
    }
  }

  lemma ClimbNone(dir: Path, x: string)
    ensures ResolveRel(dir, Repeat("../", 0) + x) == ResolveRel(dir, x)
    ensures dir[..|dir| - 0] == dir
  {
    assert Repeat("../", 0) + x == x;
  }

  /** The first of `n` climbs, and where the remaining ones end. */
  lemma ClimbStep(dir: Path, n: nat, x: string)
    requires 0 < n <= |dir|
    ensures ResolveRel(dir, Repeat("../", n) + x) == ResolveRel(dir[..|dir| - 1], Repeat("../", n - 1) + x)
    ensures dir[..|dir| - 1][..|dir| - 1 - (n - 1)] == dir[..|dir| - n]
  {
    var y := Repeat("../", n - 1) + x;
    assert Repeat("../", n) + x == "../" + y;
    ClimbOne(dir, y);
  }

  /** A leading "../" drops the last component. */
  lemma ClimbOne(dir: Path, y: string)
    requires |dir| > 0
    ensures ResolveRel(dir, "../" + y) == ResolveRel(dir[..|dir| - 1], y)
  {
    assert StartsWith("../" + y, "../");
    assert ("../" + y)[3..] == y;
  }

  lemma ThreeParts(a: string, b: string, c: string)
    requires IsSegment(a) && IsSegment(b) && IsSegment(c)
    ensures PathParts(a + "/" + b + "/" + c) == [a, b, c]
  {
    PathPartsJoin(a + "/" + b, c);
    PathPartsJoin(a, b);
    PathNameOfSegment(a);
    PathNameOfSegment(b);
    PathNameOfSegment(c);
  }

  /** The relative link written into a page in `item_dir` leads to
      `shared_assets/<kind>/<name>`, provided the asset directory is called
      "shared_assets" and the page lies inside the directory that holds it
      (the scraper puts both under the download directory). */
  lemma AssetRelResolves(itemDir: Path, sharedAssetsDir: Path, kind: string, name: string)
    requires |sharedAssetsDir| >= 1 && Last(sharedAssetsDir) == SharedAssets
    requires Under(Parent(sharedAssetsDir), itemDir)
    requires IsSegment(kind) && IsSegment(name)
    ensures ResolveRel(itemDir, AssetRel(itemDir, sharedAssetsDir, kind, name)) == sharedAssetsDir + [kind, name]
  {
    var n := Depth(itemDir, sharedAssetsDir);
    var x := SharedAssets + "/" + kind + "/" + name;
    assert !StartsWith(x, "../") by {
      assert x[0] == SharedAssets[0];
    }
    ClimbRepeat(itemDir, n, x);
    ThreeParts(SharedAssets, kind, name);
    assert itemDir[..|itemDir| - n] == Parent(sharedAssetsDir);
  }

  // ---------------------------------------------------------------------
  // Names of the shared assets
  // ---------------------------------------------------------------------

  /** The image extension: the suffix of the URL path without its query,
      ".png" when there is none or when it is longer than five characters. */
  function ImageExt(url: string): (r: string)
    ensures r == ".png" || (2 <= |r| <= 5 && r[0] == '.')
  {
    var ext := Suffix(PathName(BeforeFirst(url, '?')));
    if ext == [] || |ext| > 5 then ".png" else ext
  }

  /** `img_<first ten hex digits of md5(url)><ext>`. */
  function ImageFileName(url: string, md5: string -> string): string
  {
    "img_" + Take(md5(url), 10) + ImageExt(url)
  }

  /** `style_<first eight hex digits of md5(href without query)>.css`. */
  function CssFileName(href: string, md5: string -> string): string
  {
    "style_" + Take(md5(BeforeFirst(href, '?')), 8) + ".css"
  }

  /** For `<dir>/<stem>.<e>?<query>` the extension is ".<e>" when it is at
      most five characters long, ".png" otherwise. */
  lemma ImageExtOfFile(dir: string, stem: string, e: string, query: string)
    requires '?' !in dir && '?' !in stem && '?' !in e
    requires '/' !in stem && '/' !in e && '.' !in e
    requires stem != [] && e != []
    ensures ImageExt(dir + "/" + stem + "." + e + "?" + query) == if |e| <= 4 then "." + e else ".png"
  {
    var file := stem + "." + e;
    var base := dir + "/" + file;
    assert dir + "/" + stem + "." + e + "?" + query == base + ['?'] + query;
    BeforeFirstAt(base, '?', query);
    PathPartsJoin(dir, file);
    PathNameOfSegment(file);
    SuffixAfterDot(stem, e);
  }

  /** A last path segment without a dot gives ".png". */
  lemma ImageExtWithoutDot(dir: string, file: string, query: string)
    requires '?' !in dir && '?' !in file && '/' !in file && '.' !in file && file != []
    ensures ImageExt(dir + "/" + file + "?" + query) == ".png"
  {
    var base := dir + "/" + file;
    assert dir + "/" + file + "?" + query == base + ['?'] + query;
    BeforeFirstAt(base, '?', query);
    PathPartsJoin(dir, file);
    PathNameOfSegment(file);
    LastIndexNone(file, '.');
  }

  /** The stylesheet name ignores the query string, so one stylesheet
      requested with different cache-busting parameters is stored once. */
  lemma CssNameIgnoresQuery(base: string, query: string, md5: string -> string)
    requires '?' !in base
    ensures CssFileName(base + "?" + query, md5) == CssFileName(base, md5)
  {
    assert base + "?" + query == base + ['?'] + query;
    BeforeFirstAt(base, '?', query);
  }

  // ---------------------------------------------------------------------
  // Stylesheet link tags
  // ---------------------------------------------------------------------

  /** A `<link>` element, as its `rel` and `href` attributes, that
      `download_course_css` keeps. */
  predicate IsStylesheet(link: (string, string))
  {
    link.0 == "stylesheet" && link.1 != []
  }

  const LinkOpen := "<link rel=\"stylesheet\" href=\""
  const LinkClose := "\">"

  /** The `<link>` tag pointing a page in `item_dir` at a stored stylesheet. */
  function CssTag(itemDir: Path, sharedAssetsDir: Path, name: string): string
    requires |sharedAssetsDir| >= 1
  {
    LinkOpen + AssetRel(itemDir, sharedAssetsDir, "css", name) + LinkClose
  }

  /** One tag per stylesheet link, in page order. */
  function CssTags(links: seq<(string, string)>, itemDir: Path, sharedAssetsDir: Path, md5: string -> string): (r: seq<string>)
    requires |sharedAssetsDir| >= 1
    ensures |r| <= |links|
    decreases |links|
  {
    if links == [] then []
    else
      var link := Last(links);
      CssTags(links[..|links| - 1], itemDir, sharedAssetsDir, md5)
        + (if IsStylesheet(link) then [CssTag(itemDir, sharedAssetsDir, CssFileName(link.1, md5))] else [])
  }

  /** Every stylesheet link yields a tag and nothing else does. */
  lemma {:induction false} CssTagsOnePerStylesheet(links: seq<(string, string)>, itemDir: Path, sharedAssetsDir: Path, md5: string -> string)
    requires |sharedAssetsDir| >= 1
    ensures |CssTags(links, itemDir, sharedAssetsDir, md5)| == CountStylesheets(links)
    decreases |links|
  {
    if links != [] {
      CssTagsOnePerStylesheet(links[..|links| - 1], itemDir, sharedAssetsDir, md5);
    }
  }

  function CountStylesheets(links: seq<(string, string)>): nat
  {
    if links == [] then 0
    else CountStylesheets(links[..|links| - 1]) + (if IsStylesheet(Last(links)) then 1 else 0)
  }

  function CountTrue(flags: seq<bool>): nat
  {
    if flags == [] then 0 else CountTrue(flags[..|flags| - 1]) + (if Last(flags) then 1 else 0)
  }

  lemma CountTrueSnoc(flags: seq<bool>, b: bool)
    ensures CountTrue(flags + [b]) == CountTrue(flags) + (if b then 1 else 0)
  {
    assert (flags + [b])[..|flags|] == flags;
  }

  lemma {:induction false} CountTrueAtMost(flags: seq<bool>)
    ensures CountTrue(flags) <= |flags|
  {
    if flags != [] {
      CountTrueAtMost(flags[..|flags| - 1]);
    }
  }

  /** An `img` source that `localize_images` tries to download. */
  predicate Eligible(src: string)
  {
    src != [] && !StartsWith(src, "data:")
  }

  /** The asset is stored at `path`, or the server did not answer for it. */
  predicate StoredOrFailed(fs: FileSystem, path: Path, response: Option<nat>)
  {
    path in fs || response.None?
  }

  lemma StoredStaysStored(fs: FileSystem, fs': FileSystem, path: Path, response: Option<nat>)
    requires Extends(fs, fs') && StoredOrFailed(fs, path, response)
    ensures StoredOrFailed(fs', path, response)
  {
  }

  /** The constructor's `mkdir(parents=True, exist_ok=True)` of the css and
      images directories. */
  method MakeAssetDirs(fs: FileSystem, sharedAssetsDir: Path) returns (fs': FileSystem)
    requires WellFormed(fs) && |sharedAssetsDir| >= 1
    requires NoFileOnPath(fs, sharedAssetsDir + ["css"]) && NoFileOnPath(fs, sharedAssetsDir + ["images"])
    ensures IsDir(fs', sharedAssetsDir + ["css"]) && IsDir(fs', sharedAssetsDir + ["images"])
    ensures Extends(fs, fs') && WellFormed(fs')
  {
    var css := sharedAssetsDir + ["css"];
    var images := sharedAssetsDir + ["images"];
    var fs1 := MkDirs(fs, css);
    MkDirsWellFormed(fs, css);
    assert NoFileOnPath(fs1, images) by {
      forall i | 1 <= i <= |images| && images[..i] in fs1
        ensures fs1[images[..i]] == Dir
      {
        if images[..i] in fs {
          assert fs[images[..i]] == Dir;
        }
      }
    }
    fs' := MkDirs(fs1, images);
    MkDirsWellFormed(fs1, images);
  }

  // ---------------------------------------------------------------------
  // AssetManager
  // ---------------------------------------------------------------------

  /** The course-wide asset store: where the assets live, the digest it
      names them by, and the cache from image URL to stored file name. */
  class AssetManager {
    const sharedAssetsDir: Path
    const md5: string -> string
    var imageUrlToPath: map<string, string>

    /** Every cached name is the one the naming rule gives its URL. */
    predicate Valid()
      reads this
    {
      |sharedAssetsDir| >= 1
      && forall u | u in imageUrlToPath :: imageUrlToPath[u] == ImageFileName(u, md5)
    }

    function CssDir(): Path
      requires |sharedAssetsDir| >= 1
    {
      sharedAssetsDir + ["css"]
    }

    function ImagesDir(): Path
      requires |sharedAssetsDir| >= 1
    {
      sharedAssetsDir + ["images"]
    }

    /** The directories themselves are made by `MakeAssetDirs`. */
    constructor (sharedAssetsDir: Path, md5: string -> string)
      requires |sharedAssetsDir| >= 1
      ensures this.sharedAssetsDir == sharedAssetsDir && this.md5 == md5
      ensures imageUrlToPath == map[] && Valid()
    {
      this.sharedAssetsDir := sharedAssetsDir;
      this.md5 := md5;
      imageUrlToPath := map[];
    }

    /** `download_course_css`: every stylesheet link gets its tag whether or
        not its download succeeds, and each stylesheet not yet stored is
        fetched into the css directory. */
    method DownloadCourseCss(links: seq<(string, string)>, itemDir: Path, fs: FileSystem, fetch: string -> Option<nat>)
      returns (html: string, fs': FileSystem)
      requires Valid() && WellFormed(fs) && NoFileOnPath(fs, CssDir())
      ensures html == JoinWith(CssTags(links, itemDir, sharedAssetsDir, md5), "\n")
      ensures Extends(fs, fs') && WellFormed(fs') && NoFileOnPath(fs', CssDir())
      ensures ConfinedTo(fs, fs', CssDir())
      ensures forall j | 0 <= j < |links| :: CssStoredAt(fs', links, j, fetch)
    {
      html := JoinWith(CssTags(links, itemDir, sharedAssetsDir, md5), "\n");
      fs' := fs;
      var i := 0;
      while i < |links|
        invariant 0 <= i <= |links|
        invariant Extends(fs, fs') && WellFormed(fs') && NoFileOnPath(fs', CssDir())
        invariant ConfinedTo(fs, fs', CssDir())
        invariant forall j | 0 <= j < i :: CssStoredAt(fs', links, j, fetch)
      {
        ghost var prev := fs';
        fs' := CssStep(links, i, fs', fetch);
        ConfinedTrans(fs, prev, fs', CssDir());
        i := i + 1;
      }
    }

    /** The stylesheet of link `j`, if it is one, is stored or failed. */
    predicate CssStoredAt(fs: FileSystem, links: seq<(string, string)>, j: nat, fetch: string -> Option<nat>)
      requires |sharedAssetsDir| >= 1 && j < |links|
    {
      IsStylesheet(links[j]) ==> StoredOrFailed(fs, CssDir() + [CssFileName(links[j].1, md5)], fetch(links[j].1))
    }

    /** One turn of the loop of `download_course_css`. */
    method CssStep(links: seq<(string, string)>, i: nat, fs: FileSystem, fetch: string -> Option<nat>) returns (fs': FileSystem)
      requires |sharedAssetsDir| >= 1 && i < |links| && WellFormed(fs) && NoFileOnPath(fs, CssDir())
      requires forall j | 0 <= j < i :: CssStoredAt(fs, links, j, fetch)
      ensures Extends(fs, fs') && WellFormed(fs') && NoFileOnPath(fs', CssDir())
      ensures ConfinedTo(fs, fs', CssDir())
      ensures forall j | 0 <= j <= i :: CssStoredAt(fs', links, j, fetch)
    {
      fs' := fs;
      if IsStylesheet(links[i]) {
        fs' := StoreStylesheet(links[i].1, fs, fetch);
        forall j | 0 <= j < i
          ensures CssStoredAt(fs', links, j, fetch)
        {
          assert CssStoredAt(fs, links, j, fetch);
          if IsStylesheet(links[j]) {
            StoredStaysStored(fs, fs', CssDir() + [CssFileName(links[j].1, md5)], fetch(links[j].1));
          }
        }
      }
    }

    /** One stylesheet: fetched into the css directory unless already there. */
    method StoreStylesheet(href: string, fs: FileSystem, fetch: string -> Option<nat>) returns (fs': FileSystem)
      requires |sharedAssetsDir| >= 1 && WellFormed(fs) && NoFileOnPath(fs, CssDir())
      ensures Extends(fs, fs') && WellFormed(fs') && NoFileOnPath(fs', CssDir())
      ensures ConfinedTo(fs, fs', CssDir())
      ensures StoredOrFailed(fs', CssDir() + [CssFileName(href, md5)], fetch(href))
    {
      var name := CssFileName(href, md5);
      fs' := fs;
      if CssDir() + [name] !in fs {
        var ok;
        ok, fs' := FetchInto(fs, CssDir(), name, fetch(href));
        ConfinedWiden(fs, fs', CssDir(), CssDir() + [name]);
      }
    }

    /** `_download_and_cache_image`: a cached URL answers at once; otherwise
        the image is stored under its naming rule, and only a stored image
        enters the cache. */
    method DownloadAndCacheImage(url: string, fs: FileSystem, fetch: string -> Option<nat>)
      returns (local: Option<Path>, fs': FileSystem)
      requires Valid() && WellFormed(fs)
      modifies this
      ensures Valid() && Extends(fs, fs') && WellFormed(fs')
      ensures NoFileOnPath(fs, ImagesDir()) ==> NoFileOnPath(fs', ImagesDir())
      ensures ConfinedTo(fs, fs', ImagesDir())
      ensures url in old(imageUrlToPath) ==>
                local == Some(ImagesDir() + [ImageFileName(url, md5)])
                && fs' == fs && imageUrlToPath == old(imageUrlToPath)
      ensures url !in old(imageUrlToPath) ==>
                (local.Some? <==> ImagesDir() + [ImageFileName(url, md5)] in fs
                                  || (fetch(url).Some? && Writable(fs, ImagesDir() + [ImageFileName(url, md5)])))
      ensures url !in old(imageUrlToPath) && local.Some? ==>
                local.value == ImagesDir() + [ImageFileName(url, md5)] && local.value in fs'
                && imageUrlToPath == old(imageUrlToPath)[url := ImageFileName(url, md5)]
      ensures local.None? ==> fs' == fs && imageUrlToPath == old(imageUrlToPath)
    {
      if url in imageUrlToPath {
        return Some(ImagesDir() + [imageUrlToPath[url]]), fs;
      }
      var filename := ImageFileName(url, md5);
      var filepath := ImagesDir() + [filename];
      assert Parent(filepath) == ImagesDir();
      fs' := fs;
      if filepath !in fs {
        var ok;
        ok, fs' := FetchNew(fs, filepath, fetch(url));
        if !ok {
          return None, fs;
        }
        ConfinedWiden(fs, fs', ImagesDir(), filepath);
      }
      imageUrlToPath := imageUrlToPath[url := filename];
      local := Some(filepath);
    }

    /** The image of `url` is in the shared images directory. */
    predicate ImageStored(fs: FileSystem, url: string)
      requires |sharedAssetsDir| >= 1
    {
      ImagesDir() + [ImageFileName(url, md5)] in fs
    }

    /** Entry `j` of the new sources: the shared copy's relative link when
        the image was localised, the old source otherwise. */
    predicate Rewritten(srcs: seq<string>, newSrcs: seq<string>, localized: seq<bool>, j: nat, itemDir: Path)
      requires |sharedAssetsDir| >= 1 && j < |srcs| && j < |newSrcs| && j < |localized|
    {
      if localized[j] then Eligible(srcs[j]) && newSrcs[j] == AssetRel(itemDir, sharedAssetsDir, "images", ImageFileName(srcs[j], md5))
      else newSrcs[j] == srcs[j]
    }

    /** One image of `localize_images`. */
    method LocalizeOne(src: string, itemDir: Path, fs: FileSystem, fetch: string -> Option<nat>)
      returns (newSrc: string, done: bool, fs': FileSystem)
      requires Valid() && WellFormed(fs) && NoFileOnPath(fs, ImagesDir())
      modifies this
      ensures Valid() && Extends(fs, fs') && WellFormed(fs') && NoFileOnPath(fs', ImagesDir())
      ensures ConfinedTo(fs, fs', ImagesDir())
      ensures done ==> Eligible(src) && src in imageUrlToPath
                       && newSrc == AssetRel(itemDir, sharedAssetsDir, "images", ImageFileName(src, md5))
      ensures !done ==> newSrc == src
      ensures Eligible(src) && !done ==> src !in old(imageUrlToPath) && fetch(src).None?
      ensures old(imageUrlToPath).Keys <= imageUrlToPath.Keys <= old(imageUrlToPath).Keys + {src}
      ensures src in imageUrlToPath && src !in old(imageUrlToPath) ==> ImageStored(fs', src)
    {
      newSrc, done, fs' := src, false, fs;
      if Eligible(src) {
        var local;
        local, fs' := DownloadAndCacheImage(src, fs, fetch);
        if local.Some? {
          newSrc, done := AssetRel(itemDir, sharedAssetsDir, "images", ImageFileName(src, md5)), true;
        } else if src !in old(imageUrlToPath) {
          assert Writable(fs, ImagesDir() + [ImageFileName(src, md5)]) by {
            assert Parent(ImagesDir() + [ImageFileName(src, md5)]) == ImagesDir();
          }
        }
      }
    }

    /** `localize_images` over the `src` attributes of a container's
        images: empty and `data:` sources stay as they are, every image that
        is stored (or was cached) is pointed at its shared copy, and the
        count is the number of images so localised. */
    method LocalizeImages(srcs: seq<string>, itemDir: Path, fs: FileSystem, fetch: string -> Option<nat>)
      returns (newSrcs: seq<string>, localized: seq<bool>, count: nat, fs': FileSystem)
      requires Valid() && WellFormed(fs) && NoFileOnPath(fs, ImagesDir())
      modifies this
      ensures Valid() && Extends(fs, fs') && WellFormed(fs') && NoFileOnPath(fs', ImagesDir())
      ensures ConfinedTo(fs, fs', ImagesDir())
      ensures |newSrcs| == |srcs| && |localized| == |srcs| && count == CountTrue(localized)
      ensures forall i | 0 <= i < |srcs| :: Rewritten(srcs, newSrcs, localized, i, itemDir)
      ensures forall i | 0 <= i < |srcs| && localized[i] :: srcs[i] in imageUrlToPath
      ensures forall i | 0 <= i < |srcs| && Eligible(srcs[i]) && !localized[i] ::
                srcs[i] !in old(imageUrlToPath) && fetch(srcs[i]).None?
      ensures old(imageUrlToPath).Keys <= imageUrlToPath.Keys
      ensures forall u | u in imageUrlToPath && u !in old(imageUrlToPath) :: u in srcs && ImageStored(fs', u)
    {
      ghost var cache0 := imageUrlToPath;
      newSrcs, localized, count, fs' := [], [], 0, fs;
      var i := 0;
      while i < |srcs|
        invariant 0 <= i <= |srcs|
        invariant Valid() && Extends(fs, fs') && WellFormed(fs') && NoFileOnPath(fs', ImagesDir())
        invariant ConfinedTo(fs, fs', ImagesDir())
        invariant count == CountTrue(localized)
        invariant ImagesLoop(srcs, newSrcs, localized, i, itemDir, cache0, imageUrlToPath, fs', fetch)
      {
        ghost var prev := fs';
        newSrcs, localized, count, fs' := ImagesTurn(srcs, newSrcs, localized, count, i, itemDir, fs', fetch, cache0);
        ConfinedTrans(fs, prev, fs', ImagesDir());
        i := i + 1;
      }
    }

    /** One turn of the loop of `localize_images`. */
    method ImagesTurn(srcs: seq<string>, newSrcs: seq<string>, localized: seq<bool>, count: nat, i: nat, itemDir: Path,
                      fs: FileSystem, fetch: string -> Option<nat>, ghost cache0: map<string, string>)
      returns (newSrcs': seq<string>, localized': seq<bool>, count': nat, fs': FileSystem)
      requires i < |srcs| && Valid() && WellFormed(fs) && NoFileOnPath(fs, ImagesDir())
      requires count == CountTrue(localized)
      requires ImagesLoop(srcs, newSrcs, localized, i, itemDir, cache0, imageUrlToPath, fs, fetch)
      modifies this
      ensures Valid() && Extends(fs, fs') && WellFormed(fs') && NoFileOnPath(fs', ImagesDir())
      ensures ConfinedTo(fs, fs', ImagesDir())
      ensures count' == CountTrue(localized')
      ensures ImagesLoop(srcs, newSrcs', localized', i + 1, itemDir, cache0, imageUrlToPath, fs', fetch)
    {
      ghost var cache1 := imageUrlToPath;
      var newSrc, done;
      newSrc, done, fs' := LocalizeOne(srcs[i], itemDir, fs, fetch);
      ImagesLoopStep(srcs, newSrcs, localized, i, itemDir, cache0, cache1, imageUrlToPath, fs, fs', fetch, newSrc, done);
      CountTrueSnoc(localized, done);
      newSrcs', localized' := newSrcs + [newSrc], localized + [done];
      count' := if done then count + 1 else count;
    }

    /** What `localize_images` has established after its first `i` images,
        with `cache0` the cache it started from. */
    predicate ImagesLoop(srcs: seq<string>, newSrcs: seq<string>, localized: seq<bool>, i: nat, itemDir: Path,
                         cache0: map<string, string>, cache: map<string, string>, fs: FileSystem, fetch: string -> Option<nat>)
      requires |sharedAssetsDir| >= 1
    {
      i <= |srcs| && |newSrcs| == i && |localized| == i
      && (forall j | 0 <= j < i :: Rewritten(srcs, newSrcs, localized, j, itemDir))
      && (forall j | 0 <= j < i && localized[j] :: srcs[j] in cache)
      && (forall j | 0 <= j < i && Eligible(srcs[j]) && !localized[j] :: srcs[j] !in cache0 && fetch(srcs[j]).None?)
      && cache0.Keys <= cache.Keys
      && (forall u | u in cache && u !in cache0 :: u in srcs && ImageStored(fs, u))
    }

    lemma ImagesLoopStep(srcs: seq<string>, newSrcs: seq<string>, localized: seq<bool>, i: nat, itemDir: Path,
                         cache0: map<string, string>, cache1: map<string, string>, cache2: map<string, string>,
                         fs1: FileSystem, fs2: FileSystem, fetch: string -> Option<nat>, newSrc: string, done: bool)
      requires |sharedAssetsDir| >= 1 && i < |srcs|
      requires ImagesLoop(srcs, newSrcs, localized, i, itemDir, cache0, cache1, fs1, fetch)
      requires Extends(fs1, fs2)
      requires done ==> Eligible(srcs[i]) && srcs[i] in cache2
                        && newSrc == AssetRel(itemDir, sharedAssetsDir, "images", ImageFileName(srcs[i], md5))
      requires !done ==> newSrc == srcs[i]
      requires Eligible(srcs[i]) && !done ==> srcs[i] !in cache1 && fetch(srcs[i]).None?
      requires cache1.Keys <= cache2.Keys <= cache1.Keys + {srcs[i]}
      requires srcs[i] in cache2 && srcs[i] !in cache1 ==> ImageStored(fs2, srcs[i])
      ensures ImagesLoop(srcs, newSrcs + [newSrc], localized + [done], i + 1, itemDir, cache0, cache2, fs2, fetch)
    {
      RewrittenSnoc(srcs, newSrcs, localized, i, itemDir, newSrc, done);
      CachedSnoc(srcs, localized, i, cache0, cache1, cache2, fetch, done);
      forall u | u in cache2 && u !in cache0
        ensures u in srcs && ImageStored(fs2, u)
      {
        if u in cache1 {
          assert ImageStored(fs1, u);
        }
      }
    }

    lemma RewrittenSnoc(srcs: seq<string>, newSrcs: seq<string>, localized: seq<bool>, i: nat, itemDir: Path,
                        newSrc: string, done: bool)
      requires |sharedAssetsDir| >= 1 && i < |srcs| && |newSrcs| == i && |localized| == i
      requires forall j | 0 <= j < i :: Rewritten(srcs, newSrcs, localized, j, itemDir)
      requires done ==> Eligible(srcs[i]) && newSrc == AssetRel(itemDir, sharedAssetsDir, "images", ImageFileName(srcs[i], md5))
      requires !done ==> newSrc == srcs[i]
      ensures forall j | 0 <= j < i + 1 :: Rewritten(srcs, newSrcs + [newSrc], localized + [done], j, itemDir)
    {
      forall j | 0 <= j < i + 1
        ensures Rewritten(srcs, newSrcs + [newSrc], localized + [done], j, itemDir)
      {
        if j < i {
          assert Rewritten(srcs, newSrcs, localized, j, itemDir);
        }
      }
    }

    lemma CachedSnoc(srcs: seq<string>, localized: seq<bool>, i: nat,
                     cache0: map<string, string>, cache1: map<string, string>, cache2: map<string, string>,
                     fetch: string -> Option<nat>, done: bool)
      requires i < |srcs| && |localized| == i
      requires forall j | 0 <= j < i && localized[j] :: srcs[j] in cache1
      requires forall j | 0 <= j < i && Eligible(srcs[j]) && !localized[j] :: srcs[j] !in cache0 && fetch(srcs[j]).None?
      requires cache0.Keys <= cache1.Keys <= cache2.Keys
      requires done ==> srcs[i] in cache2
      requires Eligible(srcs[i]) && !done ==> srcs[i] !in cache1 && fetch(srcs[i]).None?
      ensures forall j | 0 <= j < i + 1 && (localized + [done])[j] :: srcs[j] in cache2
      ensures forall j | 0 <= j < i + 1 && Eligible(srcs[j]) && !(localized + [done])[j] ::
                srcs[j] !in cache0 && fetch(srcs[j]).None?
    {
    }
  }

  // ---------------------------------------------------------------------
  // localize_css_assets
  // ---------------------------------------------------------------------

  const UrlOpen := "url("

  predicate IsQuote(c: char) { c == '\'' || c == '"' }

  /** `['"]?\)` matches at `j`. */
  predicate ClosesAt(s: string, j: nat)
  {
    j < |s| && (s[j] == ')' || (IsQuote(s[j]) && j + 1 < |s| && s[j + 1] == ')'))
  }

  /** Where the lazy group `(.*?)` that starts at `k` ends: the first
      position that closes the match, never past a line break. */
  function CloseAt(s: string, k: nat): (r: Option<nat>)
    requires k <= |s|
    ensures r.Some? ==> k <= r.value < |s| && ClosesAt(s, r.value)
    decreases |s| - k
  {
    if k == |s| || s[k] == '\n' then None
    else if ClosesAt(s, k) then Some(k)
    else CloseAt(s, k + 1)
  }

  /** The match of `url\(['"]?(.*?)['"]?\)` at the start of `s`, as the
      start and end of its group and the end of the whole match.  An
      opening quote is taken when present; without one the group could only
      end at the same place. */
  function MatchAtStart(s: string): (r: Option<(nat, nat, nat)>)
    ensures r.Some? ==> 4 <= r.value.0 <= r.value.1 < r.value.2 <= |s|
  {
    if !StartsWith(s, UrlOpen) then None
    else
      var k := if |s| > 4 && IsQuote(s[4]) then 5 else 4;
      match CloseAt(s, k)
      case None => None
      case Some(j) => Some((k, j, if s[j] == ')' then j + 1 else j + 2))
  }

  /** The referenced URL without query or fragment. */
  function CssRef(group: string): string
  {
    BeforeFirst(BeforeFirst(group, '?'), '#')
  }

  /** `asset_<first eight hex digits of md5(full url)><suffix>`. */
  function AssetName(url: string, cssUrl: string, md5: string -> string, urljoin: (string, string) -> string): string
  {
    "asset_" + Take(md5(urljoin(cssUrl, url)), 8) + Suffix(PathName(url))
  }

  /** `re.sub` with the replacer: scan left to right, replace each match,
      keep every other character. */
  function SubUrls(s: string, cssUrl: string, md5: string -> string, urljoin: (string, string) -> string): string
    decreases |s|
  {
    if s == [] then []
    else
      match MatchAtStart(s)
      case None => [s[0]] + SubUrls(s[1..], cssUrl, md5, urljoin)
      case Some((k, j, e)) =>
        var url := CssRef(s[k..j]);
        (if StartsWith(url, "data:") then s[..e] else "url('" + AssetName(url, cssUrl, md5, urljoin) + "')")
          + SubUrls(s[e..], cssUrl, md5, urljoin)
  }

  /** The assets the replacer downloads, in order: stored name and full URL. */
  function CssAssets(s: string, cssUrl: string, md5: string -> string, urljoin: (string, string) -> string): seq<(string, string)>
    decreases |s|
  {
    if s == [] then []
    else
      match MatchAtStart(s)
      case None => CssAssets(s[1..], cssUrl, md5, urljoin)
      case Some((k, j, e)) =>
        var url := CssRef(s[k..j]);
        (if StartsWith(url, "data:") then [] else [(AssetName(url, cssUrl, md5, urljoin), urljoin(cssUrl, url))])
          + CssAssets(s[e..], cssUrl, md5, urljoin)
  }

  /** A stylesheet without `url(` is returned unchanged and downloads
      nothing. */
  lemma {:induction false} SubUrlsWithoutRefs(s: string, cssUrl: string, md5: string -> string, urljoin: (string, string) -> string)
    requires !Contains(s, UrlOpen)
    ensures SubUrls(s, cssUrl, md5, urljoin) == s
    ensures CssAssets(s, cssUrl, md5, urljoin) == []
    decreases |s|
  {
    if s != [] {
      if StartsWith(s, UrlOpen) {
        ContainsPrefix(s, UrlOpen);
      }
      if Contains(s[1..], UrlOpen) {
        ContainsSuffix(s, 1, UrlOpen);
      }
      SubUrlsWithoutRefs(s[1..], cssUrl, md5, urljoin);
      assert [s[0]] + s[1..] == s;
    }
  }

  /** A reference with no parenthesis, quote or line break inside. */
  predicate PlainRef(g: string)
  {
    forall i | 0 <= i < |g| :: g[i] != ')' && g[i] != '\n' && !IsQuote(g[i])
  }

  /** The scan stops at the first position that closes the match. */
  lemma {:induction false} CloseAtFirst(s: string, k: nat, j: nat)
    requires k <= j < |s| && ClosesAt(s, j)
    requires forall i | k <= i < j :: s[i] != '\n' && !ClosesAt(s, i)
    ensures CloseAt(s, k) == Some(j)
    decreases j - k
  {
    if k < j {
      CloseAtFirst(s, k + 1, j);
    }
  }

  /** The pieces of `a + b + c`. */
  lemma Pieces(a: string, b: string, c: string)
    ensures (a + b + c)[|a|..|a| + |b|] == b
    ensures (a + b + c)[..|a| + |b|] == a + b
    ensures (a + b + c)[|a| + |b|..] == c
  {
  }

  /** `url(<q><g><q>)` with an optional quote `q` matches exactly, with
      group `g`. */
  lemma MatchOfPlainRef(q: string, g: string, rest: string)
    requires q == "" || q == "'" || q == "\""
    requires PlainRef(g)
    ensures MatchAtStart(UrlOpen + q + g + (q + ")" + rest))
              == Some((4 + |q|, 4 + |q| + |g|, 5 + 2 * |q| + |g|))
  {
    var p := UrlOpen + q;
    var c := q + ")" + rest;
    var s := p + g + c;
    var k := |p|;
    assert s[..4] == UrlOpen;
    forall i | k <= i < k + |g|
      ensures s[i] != '\n' && !ClosesAt(s, i)
    {
      assert s[i] == g[i - k];
      if i + 1 < k + |g| {
        assert s[i + 1] == g[i + 1 - k];
      }
    }
    if q == "" {
      if |g| > 0 {
        assert s[4] == g[0];
      }
      assert s[k + |g|] == c[0] == ')';
    } else {
      assert s[4] == q[0];
      assert s[k + |g|] == c[0] == q[0] && s[k + |g| + 1] == c[1] == ')';
    }
    CloseAtFirst(s, k, k + |g|);
  }

  /** A `data:` reference is left exactly as written and downloads
      nothing. */
  lemma DataRefKept(q: string, g: string, rest: string, cssUrl: string, md5: string -> string, urljoin: (string, string) -> string)
    requires q == "" || q == "'" || q == "\""
    requires PlainRef(g) && StartsWith(CssRef(g), "data:")
    ensures SubUrls(UrlOpen + q + g + (q + ")") + rest, cssUrl, md5, urljoin)
              == UrlOpen + q + g + (q + ")") + SubUrls(rest, cssUrl, md5, urljoin)
    ensures CssAssets(UrlOpen + q + g + (q + ")") + rest, cssUrl, md5, urljoin) == CssAssets(rest, cssUrl, md5, urljoin)
  {
    var p := UrlOpen + q;
    var m := p + g + (q + ")");
    assert m + rest == p + g + (q + ")" + rest);
    MatchOfPlainRef(q, g, rest);
    Pieces(p, g, q + ")" + rest);
    Pieces(m, [], rest);
  }

  /** Any other reference becomes `url('asset_<hash8><ext>')` and its full
      URL is downloaded under that name. */
  lemma OtherRefRewritten(q: string, g: string, rest: string, cssUrl: string, md5: string -> string, urljoin: (string, string) -> string)
    requires q == "" || q == "'" || q == "\""
    requires PlainRef(g) && !StartsWith(CssRef(g), "data:")
    ensures SubUrls(UrlOpen + q + g + (q + ")") + rest, cssUrl, md5, urljoin)
              == "url('" + AssetName(CssRef(g), cssUrl, md5, urljoin) + "')" + SubUrls(rest, cssUrl, md5, urljoin)
    ensures CssAssets(UrlOpen + q + g + (q + ")") + rest, cssUrl, md5, urljoin)
              == [(AssetName(CssRef(g), cssUrl, md5, urljoin), urljoin(cssUrl, CssRef(g)))] + CssAssets(rest, cssUrl, md5, urljoin)
  {
    var p := UrlOpen + q;
    var m := p + g + (q + ")");
    assert m + rest == p + g + (q + ")" + rest);
    MatchOfPlainRef(q, g, rest);
    Pieces(p, g, q + ")" + rest);
    Pieces(m, [], rest);
  }

  /** `localize_css_assets`: the rewritten stylesheet, and every asset it
      names is stored unless its download fails.  Existing files are never
      overwritten. */
  method LocalizeCssAssets(css: string, cssUrl: string, assetsDir: Path, fs: FileSystem, fetch: string -> Option<nat>,
                           md5: string -> string, urljoin: (string, string) -> string)
    returns (out: string, fs': FileSystem)
    requires WellFormed(fs) && NoFileOnPath(fs, assetsDir)
    ensures out == SubUrls(css, cssUrl, md5, urljoin)
    ensures Extends(fs, fs') && WellFormed(fs')
    ensures forall a | a in CssAssets(css, cssUrl, md5, urljoin) :: StoredOrFailed(fs', assetsDir + [a.0], fetch(a.1))
  {
    out := SubUrls(css, cssUrl, md5, urljoin);
    var assets := CssAssets(css, cssUrl, md5, urljoin);
    fs' := fs;
    var i := 0;
    while i < |assets|
      invariant 0 <= i <= |assets|
      invariant Extends(fs, fs') && WellFormed(fs') && NoFileOnPath(fs', assetsDir)
      invariant forall a | a in assets[..i] :: StoredOrFailed(fs', assetsDir + [a.0], fetch(a.1))
    {
      fs' := AssetTurn(assets, i, assetsDir, fs', fetch);
      i := i + 1;
    }
    assert assets[..i] == assets;
  }

  /** One asset of `localize_css_assets`: fetched unless already there. */
  method AssetTurn(assets: seq<(string, string)>, i: nat, assetsDir: Path, fs: FileSystem, fetch: string -> Option<nat>)
    returns (fs': FileSystem)
    requires i < |assets| && WellFormed(fs) && NoFileOnPath(fs, assetsDir)
    requires forall a | a in assets[..i] :: StoredOrFailed(fs, assetsDir + [a.0], fetch(a.1))
    ensures Extends(fs, fs') && WellFormed(fs') && NoFileOnPath(fs', assetsDir)
    ensures forall a | a in assets[..i + 1] :: StoredOrFailed(fs', assetsDir + [a.0], fetch(a.1))
  {
    fs' := fs;
    var (name, url) := assets[i];
    if assetsDir + [name] !in fs {
      var ok;
      ok, fs' := FetchInto(fs, assetsDir, name, fetch(url));
    }
    forall a | a in assets[..i + 1]
      ensures StoredOrFailed(fs', assetsDir + [a.0], fetch(a.1))
    {
      if a in assets[..i] {
        StoredStaysStored(fs, fs', assetsDir + [a.0], fetch(a.1));
      } else {
        assert a == assets[i];
      }
    }
  }

  // ---------------------------------------------------------------------
  // extract_pdfs
  // ---------------------------------------------------------------------

  /** The name a downloaded link is stored under: the sanitised link text,
      or the sanitised stem of the href when the text is blank. */
  function LinkName(text: string, href: string): (r: string)
    ensures r != [] && IsSanitized(r)
  {
    var t := Strip(text);
    var raw := if t != [] then t else Stem(PathName(href));
    SanitizedShape(raw);
    SanitizeFilename(raw)
  }

  /** `f"{item_counter:03d}_{name}.pdf"`. */
  function PdfFileName(counter: nat, text: string, href: string): string
  {
    Pad3(counter) + "_" + LinkName(text, href) + ".pdf"
  }

  /** With blank link text an href `<dir>/<stem>.pdf` whose stem is already
      a clean name is stored as `<counter>_<stem>.pdf`. */
  lemma PdfFileNameFromHref(counter: nat, text: string, dir: string, stem: string)
    requires Strip(text) == [] && stem != [] && '/' !in stem && '.' !in stem && IsSanitized(stem)
    ensures PdfFileName(counter, text, dir + "/" + stem + ".pdf") == Pad3(counter) + "_" + stem + ".pdf"
  {
    var file := stem + ".pdf";
    assert dir + "/" + stem + ".pdf" == dir + "/" + file;
    PathPartsJoin(dir, file);
    PathNameOfSegment(file);
    assert file == stem + ['.'] + "pdf";
    LastIndexAt(stem, '.', "pdf");
    assert file[..|stem|] == stem;
    SanitizedFixed(stem);
  }

  /** The `href` of each link, in page order. */
  function Hrefs(links: seq<(string, string)>): (r: seq<string>)
    ensures |r| == |links|
    ensures forall i | 0 <= i < |links| :: r[i] == links[i].0
  {
    if links == [] then [] else Hrefs(links[..|links| - 1]) + [Last(links).0]
  }

  /** What `extract_pdfs` promises about the hrefs it has recorded after
      its first `i` links: each new one is a PDF link of the page whose
      download succeeded, and the count is their number. */
  predicate NewPdfs(links: seq<(string, string)>, i: nat, downloaded: set<string>, downloaded': set<string>,
                    count: nat, fetch: string -> Option<nat>)
  {
    i <= |links| && downloaded <= downloaded' && count == |downloaded' - downloaded| && count <= i
    && forall h | h in downloaded' - downloaded :: h in Hrefs(links[..i]) && Contains(h, PdfMark) && fetch(h).Some?
  }

  const PdfMark := ".pdf"

  /** A link `extract_pdfs` tries: a non-empty href containing ".pdf" that
      is not yet downloaded. */
  predicate PdfCandidate(link: (string, string), downloaded: set<string>)
  {
    link.0 != [] && Contains(link.0, PdfMark) && link.0 !in downloaded
  }

  lemma NewPdfsStep(links: seq<(string, string)>, i: nat, downloaded: set<string>, downloaded': set<string>,
                    count: nat, fetch: string -> Option<nat>, added: bool, after: set<string>, count': nat)
    requires i < |links| && NewPdfs(links, i, downloaded, downloaded', count, fetch)
    requires added ==> PdfCandidate(links[i], downloaded') && fetch(links[i].0).Some?
    requires after == if added then downloaded' + {links[i].0} else downloaded'
    requires count' == if added then count + 1 else count
    ensures NewPdfs(links, i + 1, downloaded, after, count', fetch)
  {
    var href := links[i].0;
    assert Hrefs(links[..i + 1]) == Hrefs(links[..i]) + [href] by {
      assert links[..i + 1][..i] == links[..i];
    }
    if added {
      CardAdd(downloaded' - downloaded, href);
      assert (downloaded' + {href}) - downloaded == (downloaded' - downloaded) + {href};
    }
  }

  /** One link of `extract_pdfs`: placed in the module and downloaded when
      it is a new PDF link whose target is absent. */
  method PdfTurn(fs: FileSystem, courseDir: Path, moduleDir: Path, counter: nat, link: (string, string),
                 downloaded: set<string>, fetch: string -> Option<nat>, broken: set<Path>)
    returns (added: bool, fs': FileSystem)
    requires WellFormed(fs) && |moduleDir| >= 1 && NoFileOnPath(fs, moduleDir)
    ensures added ==> PdfCandidate(link, downloaded) && fetch(link.0).Some?
    ensures PdfCandidate(link, downloaded) && fetch(link.0).Some? ==>
              moduleDir + [PdfFileName(counter, link.1, link.0)] in fs'
    ensures (PdfCandidate(link, downloaded) && fetch(link.0).Some?
             && Vacant(fs, courseDir, moduleDir, PdfFileName(counter, link.1, link.0), broken)) ==> added
    ensures !PdfCandidate(link, downloaded) ==> fs' == fs
    ensures WellFormed(fs') && NoFileOnPath(fs', moduleDir)
    ensures ConfinedTo(fs, fs', moduleDir + [PdfFileName(counter, link.1, link.0)])
  {
    added, fs' := false, fs;
    var (href, text) := link;
    if href == [] || !Contains(href, PdfMark) || href in downloaded {
      return;
    }
    var filename := PdfFileName(counter, text, href);
    assert Join(moduleDir, filename) == moduleDir + [filename];
    var filepath;
    filepath, fs' := PlaceInModule(fs, courseDir, moduleDir, filename, broken);
    if filepath !in fs' {
      ghost var fs1 := fs';
      added, fs' := FetchInto(fs', moduleDir, filename, fetch(href));
      ConfinedTrans(fs, fs1, fs', filepath);
    }
  }

  /** What one link of `extract_pdfs` does to the tree and to the
      downloaded set: the set grows by that href at most, and by exactly that
      href when it was a new PDF link whose target was vacant and whose
      fetch succeeded; the tree changes only at and below that target. */
  ghost predicate PdfStepped(link: (string, string), courseDir: Path, moduleDir: Path, counter: nat,
                             fetch: string -> Option<nat>, broken: set<Path>,
                             before: FileSystem, after: FileSystem, seen: set<string>, seen': set<string>)
  {
    var name := PdfFileName(counter, link.1, link.0);
    seen <= seen' <= seen + {link.0}
    && (PdfCandidate(link, seen) && fetch(link.0).Some? && Vacant(before, courseDir, moduleDir, name, broken)
        ==> link.0 in seen')
    && ConfinedTo(before, after, moduleDir + [name])
  }

  /** The trees and downloaded sets `extract_pdfs` passes through over its
      first `i` links, each step as `PdfStepped` says. */
  ghost predicate PdfsTraced(links: seq<(string, string)>, i: nat, courseDir: Path, moduleDir: Path, counter: nat,
                             fetch: string -> Option<nat>, broken: set<Path>,
                             trace: seq<FileSystem>, seen: seq<set<string>>)
  {
    i <= |links| && |trace| == i + 1 && |seen| == i + 1
    && forall l | 0 <= l < i ::
         PdfStepped(links[l], courseDir, moduleDir, counter, fetch, broken, trace[l], trace[l + 1], seen[l], seen[l + 1])
  }

  lemma PdfsTracedSnoc(links: seq<(string, string)>, i: nat, courseDir: Path, moduleDir: Path, counter: nat,
                       fetch: string -> Option<nat>, broken: set<Path>,
                       trace: seq<FileSystem>, seen: seq<set<string>>, after: FileSystem, seen': set<string>)
    requires i < |links| && PdfsTraced(links, i, courseDir, moduleDir, counter, fetch, broken, trace, seen)
    requires PdfStepped(links[i], courseDir, moduleDir, counter, fetch, broken, trace[i], after, seen[i], seen')
    ensures PdfsTraced(links, i + 1, courseDir, moduleDir, counter, fetch, broken, trace + [after], seen + [seen'])
  {
    var t, z := trace + [after], seen + [seen'];
    forall l | 0 <= l < i + 1
      ensures PdfStepped(links[l], courseDir, moduleDir, counter, fetch, broken, t[l], t[l + 1], z[l], z[l + 1])
    {
      if l < i {
        PdfSteppedSame(links[l], courseDir, moduleDir, counter, fetch, broken,
                       trace[l], trace[l + 1], seen[l], seen[l + 1], t[l], t[l + 1], z[l], z[l + 1]);
      } else {
        PdfSteppedSame(links[l], courseDir, moduleDir, counter, fetch, broken,
                       trace[l], after, seen[l], seen', t[l], t[l + 1], z[l], z[l + 1]);
      }
    }
  }

  lemma PdfSteppedSame(link: (string, string), courseDir: Path, moduleDir: Path, counter: nat,
                       fetch: string -> Option<nat>, broken: set<Path>,
                       before: FileSystem, after: FileSystem, seen: set<string>, seen': set<string>,
                       before2: FileSystem, after2: FileSystem, seen2: set<string>, seen2': set<string>)
    requires PdfStepped(link, courseDir, moduleDir, counter, fetch, broken, before, after, seen, seen')
    requires before2 == before && after2 == after && seen2 == seen && seen2' == seen'
    ensures PdfStepped(link, courseDir, moduleDir, counter, fetch, broken, before2, after2, seen2, seen2')
  {
  }

  /** The downloaded sets of a trace only grow. */
  lemma {:induction false} PdfsSeenGrow(links: seq<(string, string)>, i: nat, courseDir: Path, moduleDir: Path, counter: nat,
                                        fetch: string -> Option<nat>, broken: set<Path>,
                                        trace: seq<FileSystem>, seen: seq<set<string>>, l: nat)
    requires PdfsTraced(links, i, courseDir, moduleDir, counter, fetch, broken, trace, seen) && l <= i
    ensures seen[l] <= seen[i]
    decreases i - l
  {
    if l < i {
      assert PdfStepped(links[l], courseDir, moduleDir, counter, fetch, broken, trace[l], trace[l + 1], seen[l], seen[l + 1]);
      PdfsSeenGrow(links, i, courseDir, moduleDir, counter, fetch, broken, trace, seen, l + 1);
    }
  }

  /** Every link that was a new PDF link when its turn came, whose target
      was vacant then and whose fetch succeeds, ends in the downloaded set. */
  lemma PdfsReached(links: seq<(string, string)>, courseDir: Path, moduleDir: Path, counter: nat,
                    fetch: string -> Option<nat>, broken: set<Path>,
                    trace: seq<FileSystem>, seen: seq<set<string>>)
    requires PdfsTraced(links, |links|, courseDir, moduleDir, counter, fetch, broken, trace, seen)
    ensures forall l | 0 <= l < |links| && PdfCandidate(links[l], seen[l]) && fetch(links[l].0).Some?
                       && Vacant(trace[l], courseDir, moduleDir, PdfFileName(counter, links[l].1, links[l].0), broken) ::
              links[l].0 in seen[|links|]
  {
    forall l | 0 <= l < |links| && PdfCandidate(links[l], seen[l]) && fetch(links[l].0).Some?
               && Vacant(trace[l], courseDir, moduleDir, PdfFileName(counter, links[l].1, links[l].0), broken)
      ensures links[l].0 in seen[|links|]
    {
      assert PdfStepped(links[l], courseDir, moduleDir, counter, fetch, broken, trace[l], trace[l + 1], seen[l], seen[l + 1]);
      PdfsSeenGrow(links, |links|, courseDir, moduleDir, counter, fetch, broken, trace, seen, l + 1);
    }
  }

  /** One turn of the loop of `extract_pdfs`, with its bookkeeping. */
  method PdfsTurn(fs: FileSystem, courseDir: Path, moduleDir: Path, counter: nat, links: seq<(string, string)>, i: nat,
                  downloaded: set<string>, downloaded': set<string>, count: nat, fetch: string -> Option<nat>, broken: set<Path>)
    returns (count': nat, fs': FileSystem, downloaded'': set<string>)
    requires i < |links| && NewPdfs(links, i, downloaded, downloaded', count, fetch)
    requires WellFormed(fs) && |moduleDir| >= 1 && NoFileOnPath(fs, moduleDir)
    ensures NewPdfs(links, i + 1, downloaded, downloaded'', count', fetch)
    ensures WellFormed(fs') && NoFileOnPath(fs', moduleDir)
    ensures PdfStepped(links[i], courseDir, moduleDir, counter, fetch, broken, fs, fs', downloaded', downloaded'')
  {
    var added;
    added, fs' := PdfTurn(fs, courseDir, moduleDir, counter, links[i], downloaded', fetch, broken);
    count', downloaded'' := count, downloaded';
    if added {
      count' := count + 1;
      downloaded'' := downloaded' + {links[i].0};
    }
    NewPdfsStep(links, i, downloaded, downloaded', count, fetch, added, downloaded'', count');
  }

  /** `extract_pdfs` over the page's links as (href, text) pairs: the hrefs
      containing ".pdf" that are not yet downloaded are placed in the module
      under their numbered name; the count and the downloaded set grow only
      for a target that was absent and whose download succeeded. */
  method ExtractPdfs(fs: FileSystem, courseDir: Path, moduleDir: Path, counter: nat, links: seq<(string, string)>,
                     downloaded: set<string>, fetch: string -> Option<nat>, broken: set<Path>)
    returns (found: bool, count: nat, fs': FileSystem, downloaded': set<string>,
             ghost trace: seq<FileSystem>, ghost seen: seq<set<string>>)
    requires WellFormed(fs) && |moduleDir| >= 1 && NoFileOnPath(fs, moduleDir)
    ensures found <==> count > 0
    ensures downloaded <= downloaded' && count == |downloaded' - downloaded| && count <= |links|
    ensures forall h | h in downloaded' - downloaded ::
              h in Hrefs(links) && Contains(h, PdfMark) && fetch(h).Some?
    ensures WellFormed(fs') && NoFileOnPath(fs', moduleDir)
    ensures PdfsTraced(links, |links|, courseDir, moduleDir, counter, fetch, broken, trace, seen)
    ensures trace[0] == fs && trace[|links|] == fs' && seen[0] == downloaded && seen[|links|] == downloaded'
    ensures forall l | 0 <= l < |links| && PdfCandidate(links[l], seen[l]) && fetch(links[l].0).Some?
                       && Vacant(trace[l], courseDir, moduleDir, PdfFileName(counter, links[l].1, links[l].0), broken) ::
              links[l].0 in downloaded'
  {
    count, fs', downloaded' := 0, fs, downloaded;
    trace, seen := [fs], [downloaded];
    var i := 0;
    while i < |links|
      invariant NewPdfs(links, i, downloaded, downloaded', count, fetch)
      invariant WellFormed(fs') && NoFileOnPath(fs', moduleDir)
      invariant PdfsTraced(links, i, courseDir, moduleDir, counter, fetch, broken, trace, seen)
      invariant trace[0] == fs && trace[i] == fs' && seen[0] == downloaded && seen[i] == downloaded'
    {
      count, fs', downloaded' := PdfsTurn(fs', courseDir, moduleDir, counter, links, i, downloaded, downloaded', count, fetch, broken);
      PdfsTracedSnoc(links, i, courseDir, moduleDir, counter, fetch, broken, trace, seen, fs', downloaded');
      SnocEnds(trace, fs');
      SnocEnds(seen, downloaded');
      trace, seen := trace + [fs'], seen + [downloaded'];
      i := i + 1;
    }
    assert links[..i] == links;
    found := count > 0;
    PdfsReached(links, courseDir, moduleDir, counter, fetch, broken, trace, seen);
  }

  // ---------------------------------------------------------------------
  // The layout of a module directory beside the shared asset store
  // ---------------------------------------------------------------------

  /** The tree is well formed and has no file where the module directory or
      the two shared asset directories must go. */
  ghost predicate Laid(am: AssetManager, fs: FileSystem, moduleDir: Path)
    reads am
  {
    am.Valid() && WellFormed(fs) && NoFileOnPath(fs, moduleDir)
    && NoFileOnPath(fs, am.ImagesDir()) && NoFileOnPath(fs, am.CssDir())
  }

  /** Neither directory lies inside the other. */
  predicate Apart(a: Path, b: Path)
  {
    !Under(a, b) && !Under(b, a)
  }

  /** A directory apart from `b` holds nothing of `b`'s children, and none
      of them holds it. */
  lemma ApartChild(a: Path, b: Path, x: Name)
    requires Apart(a, b)
    ensures Outside(a, b + [x]) && Outside(b + [x], a)
  {
    var c := b + [x];
    assert c[..|b|] == b;
    if |a| <= |b| {
      assert c[..|a|] == b[..|a|];
    }
    UnderTrans(b, c, a);
  }

  /** Two different children of one directory hold nothing of each other. */
  lemma Siblings(b: Path, x: Name, y: Name)
    requires x != y
    ensures Outside(b + [x], b + [y])
  {
    assert (b + [y])[..|b| + 1] == b + [y];
    assert (b + [y])[|b|] == y && (b + [x])[|b|] == x;
  }

  /** `get_or_move_path` for a page an extractor saves in the module,
      which keeps the layout. */
  method PlaceHtml(am: AssetManager, fs: FileSystem, courseDir: Path, moduleDir: Path, name: Name, broken: set<Path>)
    returns (hFile: Path, fs': FileSystem)
    requires Laid(am, fs, moduleDir) && |moduleDir| >= 1 && Apart(moduleDir, am.sharedAssetsDir) && name != []
    ensures Laid(am, fs', moduleDir) && hFile == moduleDir + [name] && IsDir(fs', moduleDir)
    ensures Outside(moduleDir, am.ImagesDir()) && Outside(moduleDir, am.CssDir())
  {
    hFile, fs' := PlaceInModule(fs, courseDir, moduleDir, name, broken);
    ConfinedWiden(fs, fs', moduleDir, hFile);
    ApartChild(moduleDir, am.sharedAssetsDir, "images");
    ApartChild(moduleDir, am.sharedAssetsDir, "css");
    assert Outside(moduleDir, am.ImagesDir()) && Outside(moduleDir, am.CssDir());
  }

  /** `open(h_file, "w").write(html)` in an existing directory, onto a path
      that is not a directory: the file holds the page, and no other path
      gains a file. */
  method WritePage(fs: FileSystem, dir: Path, name: Name, size: nat, ghost keep1: Path, ghost keep2: Path)
    returns (fs': FileSystem)
    requires WellFormed(fs) && IsDir(fs, dir) && !IsDir(fs, dir + [name])
    requires NoFileOnPath(fs, keep1) && Outside(dir, keep1) && NoFileOnPath(fs, keep2) && Outside(dir, keep2)
    ensures fs' == fs[dir + [name] := File(size)]
    ensures WellFormed(fs') && IsDir(fs', dir) && NoFileOnPath(fs', dir)
    ensures NoFileOnPath(fs', keep1) && NoFileOnPath(fs', keep2)
  {
    var path := dir + [name];
    assert Parent(path) == dir;
    MkDirsExisting(fs, dir);
    WriteConfined(fs, dir, path, size);
    fs' := fs[path := File(size)];
    ConfinedWiden(fs, fs', dir, path);
    DirNoFileOnPath(fs', dir);
  }
}
