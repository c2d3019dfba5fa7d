/** Windows Media Player playlists: one `.wpl` per module that has videos
    and one for the whole course, listing the videos as escaped relative
    paths.  Writing a file is modelled by the lines it would hold. */
module Playlists {
  import opened Base
  import opened Listing
  import Fs

  // ---------------------------------------------------------------------
  // Escaping a path for the `src` attribute
  // ---------------------------------------------------------------------

  /** Every `c` in `s` replaced by `rep`. */
  function SubChar(s: string, c: char, rep: string): (r: string)
    ensures c !in s ==> r == s
    decreases |s|
  {
    if s == [] then [] else (if s[0] == c then rep else [s[0]]) + SubChar(s[1..], c, rep)
  }

  lemma {:induction false} ReplaceCharIsSubChar(s: string, c: char, rep: string)
    ensures ReplaceAll(s, [c], rep) == SubChar(s, c, rep)
    decreases |s|
  {
    if s != [] {
      ReplaceCharIsSubChar(s[1..], c, rep);
      if s[0] == c {
        assert s[..1] == [c];
      } else {
        assert s[..1] != [c];
      }
    }
  }

  lemma {:induction false} SubCharConcat(a: string, b: string, c: char, rep: string)
    ensures SubChar(a + b, c, rep) == SubChar(a, c, rep) + SubChar(b, c, rep)
    decreases |a|
  {
    if a != [] {
      var head := if a[0] == c then rep else [a[0]];
      assert (a + b)[0] == a[0] && (a + b)[1..] == a[1..] + b;
      assert SubChar(a + b, c, rep) == head + SubChar(a[1..] + b, c, rep);
      SubCharConcat(a[1..], b, c, rep);
      assert SubChar(a, c, rep) == head + SubChar(a[1..], c, rep);
    } else {
      assert a + b == b;
    }
  }

  /** The escape of one character. */
  function EscapeChar(c: char): string
  {
    if c == '&' then "&amp;"
    else if c == '<' then "&lt;"
    else if c == '>' then "&gt;"
    else if c == '"' then "&quot;"
    else [c]
  }

  /** XML attribute escaping, character by character. */
  function XmlEscaped(s: string): (r: string)
    ensures '<' !in r && '>' !in r && '"' !in r
  {
    if s == [] then [] else EscapeChar(s[0]) + XmlEscaped(s[1..])
  }

  /** The four replacements, `&` first. */
  function EscapeChain(s: string): string
  {
    ReplaceAll(ReplaceAll(ReplaceAll(ReplaceAll(s, "&", "&amp;"), "<", "&lt;"), ">", "&gt;"), "\"", "&quot;")
  }

  function Chain(s: string): string
  {
    SubChar(SubChar(SubChar(SubChar(s, '&', "&amp;"), '<', "&lt;"), '>', "&gt;"), '"', "&quot;")
  }

  lemma ChainConcat(a: string, b: string)
    ensures Chain(a + b) == Chain(a) + Chain(b)
  {
    var a1, b1 := SubChar(a, '&', "&amp;"), SubChar(b, '&', "&amp;");
    var a2, b2 := SubChar(a1, '<', "&lt;"), SubChar(b1, '<', "&lt;");
    var a3, b3 := SubChar(a2, '>', "&gt;"), SubChar(b2, '>', "&gt;");
    SubCharConcat(a, b, '&', "&amp;");
    SubCharConcat(a1, b1, '<', "&lt;");
    SubCharConcat(a2, b2, '>', "&gt;");
    SubCharConcat(a3, b3, '"', "&quot;");
  }

  lemma SubCharSingle(x: char, c: char, rep: string)
    ensures SubChar([x], c, rep) == if x == c then rep else [x]
  {
    assert SubChar([x], c, rep) == (if x == c then rep else [x]) + SubChar([], c, rep);
  }

  /** An escape holds none of the later patterns, so later steps keep it. */
  lemma ChainChar(x: char)
    ensures Chain([x]) == EscapeChar(x)
  {
    SubCharSingle(x, '&', "&amp;");
    if x == '&' {
      Untouched("&amp;", '<', "&lt;", '>', "&gt;");
    } else {
      SubCharSingle(x, '<', "&lt;");
      if x == '<' {
        Untouched("&lt;", '>', "&gt;", '"', "&quot;");
      } else {
        SubCharSingle(x, '>', "&gt;");
        if x == '>' {
          assert SubChar("&gt;", '"', "&quot;") == "&gt;";
        } else {
          SubCharSingle(x, '"', "&quot;");
        }
      }
    }
  }

  lemma Untouched(e: string, c: char, rep: string, d: char, rep2: string)
    requires c !in e && d !in e && '"' !in e
    ensures SubChar(SubChar(SubChar(e, c, rep), d, rep2), '"', "&quot;") == e
  {
  }

  /** Because `&` is replaced first, no replacement is escaped again: the
      chain escapes each character of the path exactly once. */
  lemma {:induction false} EscapeChainIsPerChar(s: string)
    ensures EscapeChain(s) == XmlEscaped(s)
  {
    ReplaceCharIsSubChar(s, '&', "&amp;");
    var s1 := SubChar(s, '&', "&amp;");
    ReplaceCharIsSubChar(s1, '<', "&lt;");
    var s2 := SubChar(s1, '<', "&lt;");
    ReplaceCharIsSubChar(s2, '>', "&gt;");
    var s3 := SubChar(s2, '>', "&gt;");
    ReplaceCharIsSubChar(s3, '"', "&quot;");
    ChainPerChar(s);
  }

  lemma {:induction false} ChainPerChar(s: string)
    ensures Chain(s) == XmlEscaped(s)
    decreases |s|
  {
    if s != [] {
      assert s == [s[0]] + s[1..];
      ChainConcat([s[0]], s[1..]);
      ChainChar(s[0]);
      ChainPerChar(s[1..]);
    }
  }

  /** Decoding the five entities, as an XML reader does. */
  function Unescape(s: string): string
    decreases |s|
  {
    if s == [] then []
    else if StartsWith(s, "&amp;") then "&" + Unescape(s[5..])
    else if StartsWith(s, "&lt;") then "<" + Unescape(s[4..])
    else if StartsWith(s, "&gt;") then ">" + Unescape(s[4..])
    else if StartsWith(s, "&quot;") then "\"" + Unescape(s[6..])
    else [s[0]] + Unescape(s[1..])
  }

  /** An escaped character decodes to itself, whatever follows it. */
  lemma UnescapeHead(x: char, rest: string)
    ensures Unescape(EscapeChar(x) + rest) == [x] + Unescape(rest)
  {
    var t := EscapeChar(x) + rest;
    assert t[|EscapeChar(x)|..] == rest;
    if x == '&' {
      assert t[..5] == "&amp;";
    } else if x == '<' {
      assert t[..4] == "&lt;" && t[1] == 'l';
      assert !StartsWith(t, "&amp;");
    } else if x == '>' {
      assert t[..4] == "&gt;" && t[1] == 'g';
      assert !StartsWith(t, "&amp;") && !StartsWith(t, "&lt;");
    } else if x == '"' {
      assert t[..6] == "&quot;" && t[1] == 'q';
      assert !StartsWith(t, "&amp;") && !StartsWith(t, "&lt;") && !StartsWith(t, "&gt;");
    } else {
      assert t[0] == x && t[1..] == rest;
      assert !StartsWith(t, "&amp;") && !StartsWith(t, "&lt;") && !StartsWith(t, "&gt;") && !StartsWith(t, "&quot;");
    }
  }

  /** A reader of the playlist gets the path back. */
  lemma {:induction false} UnescapeEscaped(s: string)
    ensures Unescape(XmlEscaped(s)) == s
    decreases |s|
  {
    if s != [] {
      UnescapeHead(s[0], XmlEscaped(s[1..]));
      UnescapeEscaped(s[1..]);
      assert s == [s[0]] + s[1..];
    }
  }

  /** `str(p)` of a relative path. */
  function PathString(parts: Fs.Path): string
  {
    if parts == [] then "." else JoinWith(parts, "/")
  }

  /** The path written for `video`: relative to `base` when it lies
      inside it, else the absolute path `resolve` gives. */
  function Located(video: Fs.Path, base: Option<Fs.Path>, resolve: Fs.Path -> string): string
  {
    match base
    case Some(b) => if Fs.Under(b, video) then PathString(video[|b|..]) else resolve(video)
    case None => resolve(video)
  }

  /** The `src` attribute of a video: backslashes, then escaped. */
  function Src(video: Fs.Path, base: Option<Fs.Path>, resolve: Fs.Path -> string): string
  {
    EscapeChain(ReplaceAll(Located(video, base, resolve), "/", "\\"))
  }

  /** The attribute holds no quote or angle bracket and decodes to the
      located path with every `/` turned into `\`. */
  lemma SrcDecodes(video: Fs.Path, base: Option<Fs.Path>, resolve: Fs.Path -> string)
    ensures var src := Src(video, base, resolve);
            '"' !in src && '<' !in src && Unescape(src) == MapChar(Located(video, base, resolve), '/', '\\')
  {
    var located := Located(video, base, resolve);
    ReplaceCharIsMapChar(located, '/', '\\');
    EscapeChainIsPerChar(MapChar(located, '/', '\\'));
    UnescapeEscaped(MapChar(located, '/', '\\'));
  }

  // ---------------------------------------------------------------------
  // The playlist file
  // ---------------------------------------------------------------------

  function Header(title: string): seq<string>
  {
    ["<?xml version=\"1.0\" encoding=\"UTF-8\"?>\n", "<?wpl version=\"1.0\"?>\n", "<smil>\n", "    <head>\n",
     "        <meta name=\"Generator\" content=\"CourseraScraper\"/>\n",
     "        <title>" + title + "</title>\n", "    </head>\n", "    <body>\n", "        <seq>\n"]
  }

  const Footer: seq<string> := ["        </seq>\n", "    </body>\n", "</smil>\n"]

  function MediaLine(src: string): string
  {
    "            <media src=\"" + src + "\"/>\n"
  }

  /** `write_wpl`: the header, one media line per video in order, the
      footer. */
  method WriteWpl(title: string, videos: seq<Fs.Path>, base: Option<Fs.Path>, resolve: Fs.Path -> string)
    returns (lines: seq<string>)
    ensures |lines| == |Header(title)| + |videos| + |Footer|
    ensures lines[..|Header(title)|] == Header(title)
    ensures forall i | 0 <= i < |videos| :: lines[|Header(title)| + i] == MediaLine(Src(videos[i], base, resolve))
    ensures lines[|Header(title)| + |videos|..] == Footer
    ensures lines == WplLines(title, videos, base, resolve)
  {
    var header := Header(title);
    lines := header;
    for i := 0 to |videos|
      invariant |lines| == |header| + i && lines[..|header|] == header
      invariant forall j | 0 <= j < i :: lines[|header| + j] == MediaLine(Src(videos[j], base, resolve))
    {
      var located := Located(videos[i], base, resolve);
      var winPath := ReplaceAll(located, "/", "\\");
      var xmlPath := EscapeChain(winPath);
      lines := lines + [MediaLine(xmlPath)];
    }
    lines := lines + Footer;
  }

  /** What a written playlist holds. */
  function WplLines(title: string, videos: seq<Fs.Path>, base: Option<Fs.Path>, resolve: Fs.Path -> string): (r: seq<string>)
    ensures |r| == |Header(title)| + |videos| + |Footer|
    ensures r[..|Header(title)|] == Header(title) && r[|Header(title)| + |videos|..] == Footer
    ensures forall i | 0 <= i < |videos| :: r[|Header(title)| + i] == MediaLine(Src(videos[i], base, resolve))
  {
    var media := seq(|videos|, i requires 0 <= i < |videos| => MediaLine(Src(videos[i], base, resolve)));
    var r := Header(title) + media + Footer;
    assert r[..|Header(title)|] == Header(title);
    assert r[|Header(title)| + |videos|..] == Footer;
    r
  }

  // ---------------------------------------------------------------------
  // `module_sort_key`
  // ---------------------------------------------------------------------

  datatype SortKey = Num(n: nat) | Text(s: string)

  const ModuleMark := "module_"

  predicate NumberedAt(name: string, i: int)
  {
    OccursAt(name, ModuleMark, i) && i + 7 < |name| && IsDigit(name[i + 7])
  }

  /** `re.search(r"module_(\d+)", name)` from position `i`: the number of
      the leftmost match. */
  function ModuleNumber(name: string, i: nat): (r: Option<nat>)
    ensures r.None? <==> forall j | i <= j < |name| :: !NumberedAt(name, j)
    ensures r.Some? ==> exists j | i <= j < |name| :: NumberedAt(name, j)
                          && r.value == ParseNat(LeadingDigits(name[j + 7..]))
                          && forall k | i <= k < j :: !NumberedAt(name, k)
    decreases |name| - i
  {
    if i + 7 >= |name| then
      assert forall j | i <= j < |name| :: !NumberedAt(name, j);
      None
    else if NumberedAt(name, i) then
      var digits := LeadingDigits(name[i + 7..]);
      assert digits != [];
      Some(ParseNat(digits))
    else ModuleNumber(name, i + 1)
  }

  /** The middle and the end of a concatenation of three pieces. */
  lemma ThreePieces<T>(a: seq<T>, b: seq<T>, c: seq<T>)
    ensures (a + b + c)[|a|..|a| + |b|] == b && (a + b + c)[|a| + |b|..] == c
  {
  }

  /** A name holding `module_` and a number, with no earlier match, sorts
      by that number. */
  lemma ModuleNumberOf(pre: string, n: nat, rest: string)
    requires forall j | 0 <= j < |pre| :: !NumberedAt(pre + ModuleMark + (Decimal(n) + rest), j)
    requires rest == [] || !IsDigit(rest[0])
    ensures ModuleNumber(pre + ModuleMark + (Decimal(n) + rest), 0) == Some(n)
  {
    var tail := Decimal(n) + rest;
    var name := pre + ModuleMark + tail;
    var j := |pre|;
    ThreePieces(pre, ModuleMark, tail);
    assert name[j + 7..] == tail;
    assert OccursAt(name, ModuleMark, j);
    assert tail[0] == Decimal(n)[0];
    assert NumberedAt(name, j);
    LeadingDigitsOf(Decimal(n), rest);
    ParseDecimal(n);
    var r := ModuleNumber(name, 0);
    var k :| 0 <= k < |name| && NumberedAt(name, k) && r.value == ParseNat(LeadingDigits(name[k + 7..]))
             && forall m | 0 <= m < k :: !NumberedAt(name, m);
    assert k == j;
  }

  lemma {:induction false} LeadingDigitsOf(d: string, rest: string)
    requires forall i | 0 <= i < |d| :: IsDigit(d[i])
    requires rest == [] || !IsDigit(rest[0])
    ensures LeadingDigits(d + rest) == d
    decreases |d|
  {
    if d != [] {
      assert (d + rest)[1..] == d[1..] + rest;
      LeadingDigitsOf(d[1..], rest);
    } else {
      assert d + rest == rest;
    }
  }

  function ModuleKey(name: string): SortKey
  {
    var lower := Lower(name);
    match ModuleNumber(lower, 0)
    case Some(n) => Num(n)
    case None => Text(lower)
  }

  function NumOf(n: Node): nat
  {
    match ModuleKey(n.name)
    case Num(k) => k
    case Text(_) => 0
  }

  /** The key of a module without a number. */
  function LowerName(n: Node): string
  {
    Lower(n.name)
  }

  predicate SortedNum<T>(s: seq<T>, key: T -> nat)
  {
    forall i, j | 0 <= i < j < |s| :: key(s[i]) <= key(s[j])
  }

  /** An element no greater than every element of a sorted sequence can go
      in front of it. */
  lemma SortedNumCons<T>(y: T, s: seq<T>, key: T -> nat)
    requires SortedNum(s, key)
    requires forall i | 0 <= i < |s| :: key(y) <= key(s[i])
    ensures SortedNum([y] + s, key)
  {
    var r := [y] + s;
    forall i, j | 0 <= i < j < |r| ensures key(r[i]) <= key(r[j]) {
      assert r[j] == s[j - 1];
      if i > 0 {
        assert r[i] == s[i - 1];
      }
    }
  }

  lemma NumBelowAll<T>(y: T, x: T, s: seq<T>, r: seq<T>, key: T -> nat)
    requires multiset(r) == multiset(s) + multiset{x}
    requires key(y) <= key(x) && forall i | 0 <= i < |s| :: key(y) <= key(s[i])
    ensures forall i | 0 <= i < |r| :: key(y) <= key(r[i])
  {
    forall i | 0 <= i < |r| ensures key(y) <= key(r[i]) {
      assert r[i] in multiset(r);
      if r[i] != x {
        assert r[i] in multiset(s);
      }
    }
  }

  /** Insert `x` into a sorted sequence, before the first element above it
      or equal to it. */
  function InsertNum<T(==)>(x: T, s: seq<T>, key: T -> nat): (r: seq<T>)
    requires SortedNum(s, key)
    ensures SortedNum(r, key) && multiset(r) == multiset(s) + multiset{x}
    decreases |s|
  {
    if s == [] then [x]
    else if key(x) <= key(s[0]) then
      SortedNumCons(x, s, key);
      [x] + s
    else
      var rest := InsertNum(x, s[1..], key);
      assert s == [s[0]] + s[1..];
      NumBelowAll(s[0], x, s[1..], rest, key);
      SortedNumCons(s[0], rest, key);
      [s[0]] + rest
  }

  /** `sorted(s, key=key)` for integer keys. */
  function SortNum<T(==)>(s: seq<T>, key: T -> nat): (r: seq<T>)
    ensures SortedNum(r, key) && multiset(r) == multiset(s)
  {
    if s == [] then []
    else
      assert s == [s[0]] + s[1..];
      InsertNum(s[0], SortNum(s[1..], key), key)
  }

  /** `sorted(modules, key=module_sort_key)`: `None` when the keys mix
      numbers and names, where comparing them raises `TypeError`. */
  function SortModules(dirs: seq<Node>): (r: Option<seq<Node>>)
    ensures r.None? <==> (exists i | 0 <= i < |dirs| :: ModuleKey(dirs[i].name).Num?)
                         && (exists i | 0 <= i < |dirs| :: ModuleKey(dirs[i].name).Text?)
    ensures r.Some? ==> multiset(r.value) == multiset(dirs)
    ensures r.Some? && (exists i | 0 <= i < |dirs| :: ModuleKey(dirs[i].name).Num?) ==> SortedNum(r.value, NumOf)
    ensures r.Some? && (exists i | 0 <= i < |dirs| :: ModuleKey(dirs[i].name).Text?) ==> SortedBy(r.value, LowerName)
  {
    if forall i | 0 <= i < |dirs| :: ModuleKey(dirs[i].name).Num? then Some(SortNum(dirs, NumOf))
    else if forall i | 0 <= i < |dirs| :: ModuleKey(dirs[i].name).Text? then Some(SortBy(dirs, LowerName))
    else None
  }

  // ---------------------------------------------------------------------
  // Courses
  // ---------------------------------------------------------------------

  datatype Playlist = Playlist(path: Fs.Path, videos: seq<Fs.Path>, lines: seq<string>)

  predicate IsVideo(n: Node)
  {
    n.File? && Lower(Suffix(n.name)) == ".mp4"
  }

  /** The videos of a module folder at `at`, by name. */
  function Mp4s(at: Fs.Path, dir: Node): (r: seq<Fs.Path>)
  {
    var files := SortNodes(Filter(if dir.Folder? then dir.entries else [], IsVideo));
    seq(|files|, i requires 0 <= i < |files| => at + [dir.name, files[i].name])
  }

  function ModuleTitle(course: string, moduleName: string): string
  {
    Titled(course + " - " + moduleName)
  }

  /** The module playlist of a module folder at `at` of course `course`,
      relative to the module folder. */
  function ModulePlaylist(at: Fs.Path, course: string, dir: Node, resolve: Fs.Path -> string): Playlist
  {
    var videos := Mp4s(at, dir);
    Playlist(at + [dir.name, dir.name + ".wpl"], videos,
             WplLines(ModuleTitle(course, dir.name), videos, Some(at + [dir.name]), resolve))
  }

  /** The module playlists of the given (sorted) module folders, skipping
      those without videos. */
  function ModulePlaylists(at: Fs.Path, course: string, dirs: seq<Node>, resolve: Fs.Path -> string): (r: seq<Playlist>)
    ensures forall i | 0 <= i < |r| :: r[i].videos != []
  {
    if dirs == [] then []
    else
      var n := |dirs| - 1;
      var rest := ModulePlaylists(at, course, dirs[..n], resolve);
      if Mp4s(at, dirs[n]) == [] then rest else rest + [ModulePlaylist(at, course, dirs[n], resolve)]
  }

  /** `all_course_videos`: the module videos one module after another. */
  function CourseVideos(at: Fs.Path, dirs: seq<Node>): seq<Fs.Path>
  {
    if dirs == [] then [] else CourseVideos(at, dirs[..|dirs| - 1]) + Mp4s(at, dirs[|dirs| - 1])
  }

  function Flatten(ps: seq<Playlist>): seq<Fs.Path>
  {
    if ps == [] then [] else Flatten(ps[..|ps| - 1]) + ps[|ps| - 1].videos
  }

  lemma FlattenSnoc(ps: seq<Playlist>, p: Playlist)
    ensures Flatten(ps + [p]) == Flatten(ps) + p.videos
  {
    assert (ps + [p])[..|ps|] == ps;
  }

  /** The course playlist lists exactly the videos of the module
      playlists, in module order. */
  lemma {:induction false} CourseIsModulesConcatenated(at: Fs.Path, course: string, dirs: seq<Node>, resolve: Fs.Path -> string)
    ensures Flatten(ModulePlaylists(at, course, dirs, resolve)) == CourseVideos(at, dirs)
  {
    if dirs != [] {
      var n := |dirs| - 1;
      CourseIsModulesConcatenated(at, course, dirs[..n], resolve);
      if Mp4s(at, dirs[n]) != [] {
        FlattenSnoc(ModulePlaylists(at, course, dirs[..n], resolve), ModulePlaylist(at, course, dirs[n], resolve));
      }
    }
  }

  /** The playlists of the course folder at `at + [dir.name]`, and whether
      sorting its modules raised. */
  function CoursePlaylists(at: Fs.Path, dir: Node, resolve: Fs.Path -> string): (r: Option<seq<Playlist>>)
    ensures r.Some? ==> HaveVideos(r.value)
  {
    match SortModules(Folders(if dir.Folder? then dir.entries else []))
    case None => None
    case Some(dirs) => Some(CourseOf(at + [dir.name], dir.name, dirs, resolve))
  }

  /** The playlists of a course folder `here` whose module folders, sorted,
      are `dirs`: one per module with videos, then the full course when it
      has any. */
  function CourseOf(here: Fs.Path, course: string, dirs: seq<Node>, resolve: Fs.Path -> string): (r: seq<Playlist>)
    ensures HaveVideos(r)
  {
    var modules := ModulePlaylists(here, course, dirs, resolve);
    var videos := CourseVideos(here, dirs);
    if videos == [] then modules
    else
      var full := Playlist(here + ["Full_Course_" + course + ".wpl"], videos,
                           WplLines(Titled(course), videos, Some(here), resolve));
      HaveVideosConcat(modules, [full]);
      modules + [full]
  }

  /** No playlist of `ps` is empty. */
  predicate HaveVideos(ps: seq<Playlist>)
  {
    forall i | 0 <= i < |ps| :: ps[i].videos != []
  }

  lemma HaveVideosConcat(a: seq<Playlist>, b: seq<Playlist>)
    requires HaveVideos(a) && HaveVideos(b)
    ensures HaveVideos(a + b)
  {
    forall i | 0 <= i < |a + b| ensures (a + b)[i].videos != [] {
      if i < |a| { assert (a + b)[i] == a[i]; } else { assert (a + b)[i] == b[i - |a|]; }
    }
  }

  lemma ModulePlaylistsSnoc(at: Fs.Path, course: string, dirs: seq<Node>, i: int, resolve: Fs.Path -> string)
    requires 0 <= i < |dirs|
    ensures ModulePlaylists(at, course, dirs[..i + 1], resolve)
            == if Mp4s(at, dirs[i]) == [] then ModulePlaylists(at, course, dirs[..i], resolve)
               else ModulePlaylists(at, course, dirs[..i], resolve) + [ModulePlaylist(at, course, dirs[i], resolve)]
    ensures CourseVideos(at, dirs[..i + 1]) == CourseVideos(at, dirs[..i]) + Mp4s(at, dirs[i])
  {
    assert dirs[..i + 1][..i] == dirs[..i];
  }

  /** The module loop of `create_playlists_for_course`: a playlist for
      each module with videos, and all the videos in module order. */
  method WriteModulePlaylists(here: Fs.Path, course: string, modules: seq<Node>, resolve: Fs.Path -> string)
    returns (written: seq<Playlist>, all: seq<Fs.Path>)
    ensures written == ModulePlaylists(here, course, modules, resolve)
    ensures all == CourseVideos(here, modules)
  {
    written, all := [], [];
    for i := 0 to |modules|
      invariant written == ModulePlaylists(here, course, modules[..i], resolve)
      invariant all == CourseVideos(here, modules[..i])
    {
      ModulePlaylistsSnoc(here, course, modules, i, resolve);
      var mp4s := Mp4s(here, modules[i]);
      if mp4s != [] {
        var name := modules[i].name;
        var lines := WriteWpl(ModuleTitle(course, name), mp4s, Some(here + [name]), resolve);
        written := written + [Playlist(here + [name, name + ".wpl"], mp4s, lines)];
        all := all + mp4s;
      }
    }
    assert modules[..|modules|] == modules;
  }

  /** `create_playlists_for_course`. */
  method CreatePlaylistsForCourse(at: Fs.Path, dir: Node, resolve: Fs.Path -> string)
    returns (written: seq<Playlist>, raised: bool)
    ensures raised <==> CoursePlaylists(at, dir, resolve).None?
    ensures written == if raised then [] else CoursePlaylists(at, dir, resolve).value
  {
    var here := at + [dir.name];
    var sorted := SortModules(Folders(if dir.Folder? then dir.entries else []));
    if sorted.None? {
      return [], true;
    }
    var all;
    written, all := WriteModulePlaylists(here, dir.name, sorted.value, resolve);
    raised := false;
    if all != [] {
      var lines := WriteWpl(Titled(dir.name), all, Some(here), resolve);
      written := written + [Playlist(here + ["Full_Course_" + dir.name + ".wpl"], all, lines)];
    }
  }

  /** A course folder the scan does not touch. */
  predicate Skipped(n: Node)
  {
    !n.Folder? || StartsWith(n.name, ".") || n.name == "shared_assets"
  }

  /** The playlists a run writes, and whether it ended in an exception. */
  datatype Run = Run(written: seq<Playlist>, raised: bool)

  /** What was written before, followed by the outcome of the rest. */
  function Then(written: seq<Playlist>, rest: Run): Run
  {
    Run(written + rest.written, rest.raised)
  }

  lemma ThenThen(a: seq<Playlist>, b: seq<Playlist>, rest: Run)
    ensures Then(a, Then(b, rest)) == Then(a + b, rest)
  {
    assert a + (b + rest.written) == (a + b) + rest.written;
  }

  /** `process_all_courses` over the root's entries in listing order: a
      raise in one course ends the run, keeping what was written before. */
  function AllPlaylists(at: Fs.Path, entries: seq<Node>, resolve: Fs.Path -> string): Run
  {
    if entries == [] then Run([], false)
    else if Skipped(entries[0]) then AllPlaylists(at, entries[1..], resolve)
    else
      match CoursePlaylists(at, entries[0], resolve)
      case None => Run([], true)
      case Some(course) => Then(course, AllPlaylists(at, entries[1..], resolve))
  }

  /** No run writes an empty playlist. */
  lemma {:induction false} NoEmptyPlaylist(at: Fs.Path, entries: seq<Node>, resolve: Fs.Path -> string)
    ensures HaveVideos(AllPlaylists(at, entries, resolve).written)
  {
    if entries != [] {
      NoEmptyPlaylist(at, entries[1..], resolve);
      if !Skipped(entries[0]) && CoursePlaylists(at, entries[0], resolve).Some? {
        HaveVideosConcat(CoursePlaylists(at, entries[0], resolve).value, AllPlaylists(at, entries[1..], resolve).written);
      }
    }
  }

  lemma AllPlaylistsStep(at: Fs.Path, entries: seq<Node>, i: int, resolve: Fs.Path -> string)
    requires 0 <= i < |entries|
    ensures AllPlaylists(at, entries[i..], resolve)
            == if Skipped(entries[i]) then AllPlaylists(at, entries[i + 1..], resolve)
               else match CoursePlaylists(at, entries[i], resolve)
                    case None => Run([], true)
                    case Some(course) => Then(course, AllPlaylists(at, entries[i + 1..], resolve))
  {
    assert entries[i..][0] == entries[i] && entries[i..][1..] == entries[i + 1..];
  }

  /** The loop of `process_all_courses` over a listing. */
  method ProcessCourses(at: Fs.Path, entries: seq<Node>, resolve: Fs.Path -> string)
    returns (written: seq<Playlist>, raised: bool)
    ensures Run(written, raised) == AllPlaylists(at, entries, resolve)
  {
    written, raised := [], false;
    assert entries[0..] == entries;
    var i := 0;
    while i < |entries|
      invariant 0 <= i <= |entries|
      invariant AllPlaylists(at, entries, resolve) == Then(written, AllPlaylists(at, entries[i..], resolve))
    {
      AllPlaylistsStep(at, entries, i, resolve);
      if !Skipped(entries[i]) {
        var w, e := CreatePlaylistsForCourse(at, entries[i], resolve);
        if e {
          assert written + [] == written;
          raised := true;
          return;
        }
        ThenThen(written, w, AllPlaylists(at, entries[i + 1..], resolve));
        written := written + w;
      }
      i := i + 1;
    }
    assert entries[i..] == [] && written + [] == written;
  }

  /** `process_all_courses`: nothing when the root does not exist. */
  method ProcessAllCourses(at: Fs.Path, root: Option<seq<Node>>, resolve: Fs.Path -> string)
    returns (written: seq<Playlist>, raised: bool)
    ensures root.None? ==> written == [] && !raised
    ensures root.Some? ==> Run(written, raised) == AllPlaylists(at, root.value, resolve)
  {
    if root.None? {
      return [], false;
    }
    written, raised := ProcessCourses(at, root.value, resolve);
  }
}
