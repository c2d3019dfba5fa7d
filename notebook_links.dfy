/** Pointing the image references of lab notebooks at the shared lab
    assets: an index of `shared_assets/labs` by sanitised stem, and the two
    substitutions (HTML `src=` and markdown images) over every line of
    every cell of every notebook under the download folder. */
module NotebookLinks {
  import opened Base
  import opened Listing
  import Utils
  import Fs

  // ---------------------------------------------------------------------
  // This script's own `sanitize_filename`
  // ---------------------------------------------------------------------

  /** The characters `[<>:"/\\|?*,!]` blanks out. */
  predicate Punct(c: char)
  {
    c == '<' || c == '>' || c == ':' || c == '"' || c == '/' || c == '\\' || c == '|' || c == '?'
    || c == '*' || c == ',' || c == '!'
  }

  function BlankPunct(s: string): (r: string)
    ensures |r| == |s|
    ensures forall i | 0 <= i < |s| :: r[i] == if Punct(s[i]) then '_' else s[i]
  {
    if s == [] then [] else [if Punct(s[0]) then '_' else s[0]] + BlankPunct(s[1..])
  }

  predicate NoDoubleDot(s: string)
  {
    forall i | 0 <= i < |s| - 1 :: !(s[i] == '.' && s[i + 1] == '.')
  }

  function SkipDots(s: string): (r: string)
    ensures EndsWith(s, r)
    ensures r != [] ==> r[0] != '.'
  {
    if s != [] && s[0] == '.' then
      var r := SkipDots(s[1..]);
      assert s[1..][|s| - 1 - |r|..] == s[|s| - |r|..];
      r
    else s
  }

  /** `re.sub(r"\.{2,}", "_", s)`: each run of two or more dots becomes one
      underscore. */
  function CollapseDots(s: string): (r: string)
    ensures NoDoubleDot(r)
    ensures forall i | 0 <= i < |r| :: r[i] == '_' || r[i] in s
    ensures r != [] ==> s != [] && (r[0] == '.' ==> s[0] == '.')
    decreases |s|
  {
    if s == [] then []
    else if |s| >= 2 && s[0] == '.' && s[1] == '.' then
      var t := SkipDots(s[2..]);
      var rest := CollapseDots(t);
      assert s[2..][|s| - 2 - |t|..] == s[|s| - |t|..];
      CollapseCons('_', rest, t, s);
      "_" + rest
    else
      var rest := CollapseDots(s[1..]);
      CollapseCons(s[0], rest, s[1..], s);
      [s[0]] + rest
  }

  /** One more character in front of a collapsed rest: no new run of two
      dots, and every character still comes from `s` or is '_'. */
  lemma CollapseCons(c: char, rest: string, t: string, s: string)
    requires NoDoubleDot(rest) && (c == '.' && rest != [] ==> rest[0] != '.')
    requires EndsWith(s, t)
    requires (c == '_' || c in s) && forall i | 0 <= i < |rest| :: rest[i] == '_' || rest[i] in t
    ensures NoDoubleDot([c] + rest)
    ensures forall i | 0 <= i < |rest| + 1 :: ([c] + rest)[i] == '_' || ([c] + rest)[i] in s
  {
    SuffixChars(s, t);
    assert forall i | 1 <= i < |rest| + 1 :: ([c] + rest)[i] == rest[i - 1];
  }

  /** `.replace(' ', '_').replace('-', '_')`. */
  function Spaced(s: string): (r: string)
    ensures |r| == |s|
    ensures forall i | 0 <= i < |s| :: r[i] == if s[i] == ' ' || s[i] == '-' then '_' else s[i]
  {
    MapChar(MapChar(s, ' ', '_'), '-', '_')
  }

  /** The six steps before the "untitled" fallback. */
  function Steps(s: string): string
  {
    Utils.StripUnderscores(Utils.CollapseUnderscores(Lower(Spaced(CollapseDots(BlankPunct(s))))))
  }

  /** `sanitize_filename` of `fix_notebook_links.py`. */
  function SanitizeFilename(filename: string): (r: string)
    ensures filename == [] ==> r == "untitled"
  {
    if filename == [] then "untitled"
    else
      var s := Steps(filename);
      if s == [] then "untitled" else s
  }

  predicate CleanChar(c: char)
  {
    !Punct(c) && c != ' ' && c != '-' && !IsUpper(c)
  }

  /** What the sanitiser returns: non-empty, none of the blanked characters,
      no space, hyphen or capital, no `..`, no `__`, no underscore at
      either end.  Single dots and other punctuation such as `(` stay. */
  predicate Clean(r: string)
  {
    && r != []
    && (forall i | 0 <= i < |r| :: CleanChar(r[i]))
    && NoDoubleDot(r)
    && Utils.NoDoubleUnderscore(r)
    && r[0] != '_' && r[|r| - 1] != '_'
  }

  lemma {:induction false} SkipUnderscoresSuffix(s: string)
    ensures EndsWith(s, Utils.SkipUnderscores(s))
    decreases |s|
  {
    if s != [] && s[0] == '_' {
      SkipUnderscoresSuffix(s[1..]);
    }
  }

  /** Characters of a suffix are characters of the whole. */
  lemma SuffixChars(s: string, t: string)
    requires EndsWith(s, t)
    ensures forall x | x in t :: x in s
    ensures NoDoubleDot(s) ==> NoDoubleDot(t)
  {
    var d := |s| - |t|;
    assert t == s[d..];
    forall x | x in t ensures x in s {
      var k :| 0 <= k < |t| && t[k] == x;
      assert s[d + k] == x;
    }
    if NoDoubleDot(s) {
      forall i | 0 <= i < |t| - 1 ensures !(t[i] == '.' && t[i + 1] == '.') {
        assert t[i] == s[d + i] && t[i + 1] == s[d + i + 1];
      }
    }
  }

  /** Collapsing underscore runs keeps the first character and draws every
      character from the input. */
  lemma {:induction false} CollapseKeepsChars(s: string)
    ensures var r := Utils.CollapseUnderscores(s);
            (forall x | x in r :: x in s) && (s == [] <==> r == []) && (r != [] ==> r[0] == s[0])
    decreases |s|
  {
    if s != [] {
      if s[0] != '_' {
        CollapseKeepsChars(s[1..]);
        assert forall x | x in s[1..] :: x in s;
      } else {
        var t := Utils.SkipUnderscores(s[1..]);
        SkipUnderscoresSuffix(s[1..]);
        SuffixChars(s[1..], t);
        CollapseKeepsChars(t);
        assert forall x | x in s[1..] :: x in s;
      }
    }
  }

  /** Collapsing leaves no `__`. */
  lemma {:induction false} CollapseNoDoubleUnderscore(s: string)
    ensures Utils.NoDoubleUnderscore(Utils.CollapseUnderscores(s))
    decreases |s|
  {
    if s != [] {
      if s[0] != '_' {
        CollapseNoDoubleUnderscore(s[1..]);
      } else {
        var t := Utils.SkipUnderscores(s[1..]);
        CollapseNoDoubleUnderscore(t);
        CollapseKeepsChars(t);
      }
    }
  }

  /** Collapsing never brings two dots together. */
  lemma {:induction false} CollapseNoDoubleDot(s: string)
    requires NoDoubleDot(s)
    ensures NoDoubleDot(Utils.CollapseUnderscores(s))
    decreases |s|
  {
    if s != [] {
      if s[0] != '_' {
        assert NoDoubleDot(s[1..]);
        CollapseNoDoubleDot(s[1..]);
        CollapseKeepsChars(s[1..]);
      } else {
        var t := Utils.SkipUnderscores(s[1..]);
        SkipUnderscoresSuffix(s[1..]);
        assert NoDoubleDot(s[1..]);
        SuffixChars(s[1..], t);
        CollapseNoDoubleDot(t);
      }
    }
  }

  lemma {:induction false} StripLeadingSuffix(s: string)
    ensures EndsWith(s, Utils.StripLeadingUnderscores(s))
    decreases |s|
  {
    if s != [] && s[0] == '_' {
      StripLeadingSuffix(s[1..]);
    }
  }

  lemma {:induction false} StripTrailingPrefix(s: string)
    ensures StartsWith(s, Utils.StripTrailingUnderscores(s))
    decreases |s|
  {
    if s != [] && s[|s| - 1] == '_' {
      StripTrailingPrefix(s[..|s| - 1]);
    }
  }

  /** Stripping underscores keeps a slice of the string. */
  lemma StripSlice(s: string)
    ensures exists a, b | 0 <= a <= b <= |s| :: Utils.StripUnderscores(s) == s[a..b]
  {
    var l := Utils.StripLeadingUnderscores(s);
    StripLeadingSuffix(s);
    StripTrailingPrefix(l);
    var r := Utils.StripTrailingUnderscores(l);
    assert l == s[|s| - |l|..];
    assert r == s[|s| - |l|..|s| - |l| + |r|];
  }

  lemma SliceKeeps(s: string, a: int, b: int)
    requires 0 <= a <= b <= |s|
    ensures forall i | 0 <= i < b - a :: s[a..b][i] in s
    ensures NoDoubleDot(s) ==> NoDoubleDot(s[a..b])
  {
    var t := s[a..b];
    forall i | 0 <= i < |t| ensures t[i] in s {
      assert t[i] == s[a + i];
    }
    if NoDoubleDot(s) {
      forall i | 0 <= i < |t| - 1 ensures !(t[i] == '.' && t[i + 1] == '.') {
        assert t[i] == s[a + i] && t[i + 1] == s[a + i + 1];
      }
    }
  }

  predicate AllClean(s: string)
  {
    forall i | 0 <= i < |s| :: CleanChar(s[i])
  }

  /** Blanking and dot collapsing leave no blanked character and no `..`. */
  lemma PunctAndDots(s: string)
    ensures var b := CollapseDots(BlankPunct(s));
            NoDoubleDot(b) && forall i | 0 <= i < |b| :: !Punct(b[i])
  {
    var a := BlankPunct(s);
    var b := CollapseDots(a);
    forall i | 0 <= i < |b| ensures !Punct(b[i]) {
      if b[i] != '_' {
        var k :| 0 <= k < |a| && a[k] == b[i];
      }
    }
  }

  /** Spaces, hyphens and capitals go, and dots stay apart. */
  lemma SpacedLower(b: string)
    requires NoDoubleDot(b) && forall i | 0 <= i < |b| :: !Punct(b[i])
    ensures AllClean(Lower(Spaced(b))) && NoDoubleDot(Lower(Spaced(b)))
  {
    var c := Spaced(b);
    var d := Lower(c);
    forall i | 0 <= i < |d| - 1 ensures !(d[i] == '.' && d[i + 1] == '.') {
      assert d[i] == '.' ==> c[i] == '.';
      assert d[i + 1] == '.' ==> c[i + 1] == '.';
    }
  }

  lemma CollapseClean(d: string)
    requires AllClean(d) && NoDoubleDot(d)
    ensures var e := Utils.CollapseUnderscores(d);
            AllClean(e) && NoDoubleDot(e) && Utils.NoDoubleUnderscore(e)
  {
    var e := Utils.CollapseUnderscores(d);
    CollapseKeepsChars(d);
    CollapseNoDoubleUnderscore(d);
    CollapseNoDoubleDot(d);
    forall i | 0 <= i < |e| ensures CleanChar(e[i]) {
      assert e[i] in e;
      var k :| 0 <= k < |d| && d[k] == e[i];
    }
  }

  lemma StripClean(e: string)
    requires AllClean(e) && NoDoubleDot(e) && Utils.NoDoubleUnderscore(e)
    ensures var f := Utils.StripUnderscores(e);
            AllClean(f) && NoDoubleDot(f) && Utils.NoDoubleUnderscore(f) && (f != [] ==> f[0] != '_' && f[|f| - 1] != '_')
  {
    var f := Utils.StripUnderscores(e);
    StripSlice(e);
    var x, y :| 0 <= x <= y <= |e| && f == e[x..y];
    SliceKeeps(e, x, y);
    forall i | 0 <= i < |f| ensures CleanChar(f[i]) {
      var k :| 0 <= k < |e| && e[k] == f[i];
    }
    assert Utils.NoDoubleUnderscore(Utils.StripLeadingUnderscores(e));
  }

  /** The six steps leave only clean characters, no `..` and no `__`. */
  lemma StepsShape(s: string)
    ensures var r := Steps(s);
            AllClean(r) && NoDoubleDot(r) && Utils.NoDoubleUnderscore(r) && (r != [] ==> r[0] != '_' && r[|r| - 1] != '_')
  {
    var b := CollapseDots(BlankPunct(s));
    PunctAndDots(s);
    SpacedLower(b);
    var d := Lower(Spaced(b));
    CollapseClean(d);
    StripClean(Utils.CollapseUnderscores(d));
  }

  /** The result is always a clean name. */
  lemma SanitizedIsClean(filename: string)
    ensures Clean(SanitizeFilename(filename))
  {
    if filename != [] {
      StepsShape(filename);
    }
    var u := "untitled";
    assert forall i | 0 <= i < |u| :: IsLowerLetter(u[i]);
  }

  lemma {:induction false} CollapseDotsFixed(s: string)
    requires NoDoubleDot(s)
    ensures CollapseDots(s) == s
    decreases |s|
  {
    if s != [] {
      assert NoDoubleDot(s[1..]);
      CollapseDotsFixed(s[1..]);
      assert s == [s[0]] + s[1..];
    }
  }

  /** A clean name is its own sanitised form. */
  lemma CleanFixed(r: string)
    requires Clean(r)
    ensures SanitizeFilename(r) == r
  {
    CleanFirstSteps(r);
    Utils.CollapseNoDouble(r);
    assert Utils.StripLeadingUnderscores(r) == r;
    assert Utils.StripTrailingUnderscores(r) == r;
    assert Steps(r) == r;
  }

  /** The first four steps leave a clean name alone. */
  lemma CleanFirstSteps(r: string)
    requires Clean(r)
    ensures Lower(Spaced(CollapseDots(BlankPunct(r)))) == r
  {
    BlankPunctFixed(r);
    CollapseDotsFixed(r);
    SpacedFixed(r);
    LowerFixed(r);
  }

  lemma BlankPunctFixed(r: string)
    requires forall i | 0 <= i < |r| :: CleanChar(r[i])
    ensures BlankPunct(r) == r
  {
  }

  lemma SpacedFixed(r: string)
    requires forall i | 0 <= i < |r| :: CleanChar(r[i])
    ensures Spaced(r) == r
  {
  }

  lemma LowerFixed(r: string)
    requires forall i | 0 <= i < |r| :: CleanChar(r[i])
    ensures Lower(r) == r
  {
  }

  /** Sanitising twice is sanitising once. */
  lemma SanitizeIdempotent(filename: string)
    ensures SanitizeFilename(SanitizeFilename(filename)) == SanitizeFilename(filename)
  {
    SanitizedIsClean(filename);
    CleanFixed(SanitizeFilename(filename));
  }

  /** Unlike the scraper's sanitiser, this one keeps `(` and single dots. */
  lemma KeepsParenthesisAndDot()
    ensures SanitizeFilename("fig(1).v2") == "fig(1).v2"
    ensures '(' !in Utils.SanitizeFilename("fig(1).v2")
  {
    var r := "fig(1).v2";
    assert forall i | 0 <= i < |r| :: CleanChar(r[i]);
    assert Utils.NoDoubleUnderscore(r);
    CleanFixed(r);
    var u := Utils.SanitizeFilename(r);
    Utils.SanitizedShape(r);
    NoParenInSanitized(u);
  }

  lemma NoParenInSanitized(u: string)
    requires Utils.IsSanitized(u)
    ensures '(' !in u
  {
    var k := LastIndex(u, '.');
    if k >= 0 {
      assert u == u[..k] + [u[k]] + u[k + 1..];
      assert '(' !in u[..k];
      assert '(' !in u[k + 1..];
    }
  }

  // ---------------------------------------------------------------------
  // The shared-assets index
  // ---------------------------------------------------------------------

  predicate IsHex(c: char) { IsDigit(c) || 'a' <= c <= 'f' }

  /** `re.match(r"(.+)_([0-9a-f]{8})(\.[^.]+)$", name)`: group 1. */
  function HashedStem(name: string): (r: Option<string>)
    ensures r.Some? ==> exists hash, ext ::
              name == r.value + "_" + hash + "." + ext && |hash| == 8 && ext != [] && '.' !in ext
              && r.value != [] && '\n' !in r.value
  {
    var k := LastIndex(name, '.');
    if 10 <= k < |name| - 1 && name[k - 9] == '_' && (forall m | k - 8 <= m < k :: IsHex(name[m]))
       && '\n' !in name[..k - 9]
    then
      var hash, ext := name[k - 8..k], name[k + 1..];
      assert name == name[..k - 9] + "_" + hash + "." + ext;
      assert forall m | 0 <= m < |ext| :: ext[m] == name[k + 1 + m];
      assert '.' !in ext && |hash| == 8 && ext != [];
      Some(name[..k - 9])
    else None
  }

  /** The hashed name the lab migration gives a stem matches, and yields
      that stem. */
  lemma HashedStemOf(stem: string, hash: string, ext: string)
    requires stem != [] && '\n' !in stem
    requires |hash| == 8 && forall m | 0 <= m < 8 :: IsHex(hash[m])
    requires ext != [] && '.' !in ext
    ensures HashedStem(stem + "_" + hash + "." + ext) == Some(stem)
  {
    var name := stem + "_" + hash + "." + ext;
    LastIndexAt(stem + "_" + hash, '.', ext);
    var k := |stem| + 9;
    assert name[..k - 9] == stem;
    assert forall m | k - 8 <= m < k :: name[m] == hash[m - k + 8];
  }

  /** The key a shared asset is indexed under. */
  function IndexKey(name: string): string
  {
    match HashedStem(name)
    case Some(stem) => Lower(stem)
    case None => Lower(SanitizeFilename(Stem(name)))
  }

  /** The index after the files of `entries`, each stored under
      `keyOf` of its name, later entries overwriting earlier ones. */
  function IndexOf(entries: seq<Node>, keyOf: string -> string): map<string, string>
  {
    if entries == [] then map[]
    else
      var n := |entries| - 1;
      var before := IndexOf(entries[..n], keyOf);
      if entries[n].File? then before[keyOf(entries[n].name) := entries[n].name] else before
  }

  predicate IndexedAt(entries: seq<Node>, i: int, keyOf: string -> string, key: string)
    requires 0 <= i < |entries|
  {
    entries[i].File? && keyOf(entries[i].name) == key
  }

  /** A key is present exactly when some file has it. */
  lemma {:induction false} IndexHas(entries: seq<Node>, keyOf: string -> string, key: string)
    ensures key in IndexOf(entries, keyOf) <==> exists i | 0 <= i < |entries| :: IndexedAt(entries, i, keyOf, key)
  {
    if entries != [] {
      var n := |entries| - 1;
      IndexHas(entries[..n], keyOf, key);
      assert forall i | 0 <= i < n :: IndexedAt(entries[..n], i, keyOf, key) == IndexedAt(entries, i, keyOf, key);
      if IndexedAt(entries, n, keyOf, key) {
        assert key in IndexOf(entries, keyOf);
      }
    }
  }

  /** A present key names the last file that has it. */
  lemma {:induction false} IndexHoldsLast(entries: seq<Node>, keyOf: string -> string, key: string)
    requires key in IndexOf(entries, keyOf)
    ensures exists i | 0 <= i < |entries| ::
              IndexedAt(entries, i, keyOf, key) && IndexOf(entries, keyOf)[key] == entries[i].name
              && forall j | i < j < |entries| :: !IndexedAt(entries, j, keyOf, key)
  {
    var n := |entries| - 1;
    var init := entries[..n];
    if IndexedAt(entries, n, keyOf, key) {
      assert IndexOf(entries, keyOf)[key] == entries[n].name;
    } else {
      IndexHoldsLast(init, keyOf, key);
      var i :| 0 <= i < n && IndexedAt(init, i, keyOf, key) && IndexOf(init, keyOf)[key] == init[i].name
               && forall j | i < j < n :: !IndexedAt(init, j, keyOf, key);
      assert IndexedAt(entries, i, keyOf, key) && IndexOf(entries, keyOf)[key] == entries[i].name;
      assert forall j | i < j < n :: IndexedAt(init, j, keyOf, key) == IndexedAt(entries, j, keyOf, key);
    }
  }

  /** The indexing loop of `fix_notebooks`: every file of the shared labs
      folder under its index key. */
  method BuildIndex(entries: seq<Node>) returns (index: map<string, string>)
    ensures index == IndexOf(entries, IndexKey)
  {
    index := map[];
    for i := 0 to |entries|
      invariant index == IndexOf(entries[..i], IndexKey)
    {
      assert entries[..i + 1][..i] == entries[..i];
      if entries[i].File? {
        index := index[IndexKey(entries[i].name) := entries[i].name];
      }
    }
    assert entries[..|entries|] == entries;
  }

  // ---------------------------------------------------------------------
  // Rewriting one referenced path
  // ---------------------------------------------------------------------

  const SharedLabs: string := "shared_assets/labs"

  /** `old_path.strip().replace("\\", "/")`. */
  function CleanPath(p: string): string
  {
    MapChar(Strip(p), '\\', '/')
  }

  /** `p.split("/")[-1]`. */
  function LastSegment(p: string): (r: string)
    ensures '/' !in r && EndsWith(p, r)
  {
    p[LastIndex(p, '/') + 1..]
  }

  /** `part.rsplit(".", 1)[0] if "." in part else part`. */
  function DropExtension(part: string): (r: string)
    ensures '.' !in part ==> r == part
    ensures '.' in part ==> exists ext :: part == r + "." + ext && '.' !in ext
  {
    LastIndexNone(part, '.');
    var k := LastIndex(part, '.');
    if k < 0 then part
    else
      var ext := part[k + 1..];
      assert part == part[..k] + "." + ext;
      assert forall m | 0 <= m < |ext| :: ext[m] == part[k + 1 + m];
      part[..k]
  }

  /** The index key of a referenced path: the sanitised stem of its last
      segment, cut to 60 characters. */
  function LookupKey(p: string): (r: string)
    ensures |r| <= 60 && StartsWith(SanitizeFilename(DropExtension(LastSegment(CleanPath(p)))), r)
  {
    Take(SanitizeFilename(DropExtension(LastSegment(CleanPath(p)))), 60)
  }

  /** `"../" * depth`. */
  function Dots(depth: nat): string
  {
    Repeat("../", depth)
  }

  /** The new reference to shared asset `name`, with backslashes when the
      old one had any. */
  function Target(dots: string, name: string, windows: bool): string
  {
    var t := dots + SharedLabs + "/" + name;
    if windows then MapChar(t, '/', '\\') else t
  }

  /** `replace_match` on a path: the new path, or `None` to keep the match. */
  function Relink(oldPath: string, dots: string, index: map<string, string>): (r: Option<string>)
    ensures Contains(CleanPath(oldPath), SharedLabs) ==> r.None?
    ensures !Contains(CleanPath(oldPath), SharedLabs) && LookupKey(oldPath) !in index ==> r.None?
    ensures !Contains(CleanPath(oldPath), SharedLabs) && LookupKey(oldPath) in index ==>
              r == Some(Target(dots, index[LookupKey(oldPath)], '\\' in oldPath))
  {
    if Contains(CleanPath(oldPath), SharedLabs) then None
    else
      var key := LookupKey(oldPath);
      if key in index then Some(Target(dots, index[key], '\\' in oldPath)) else None
  }

  /** A relinked path is left alone by any later pass. */
  lemma RelinkSettles(oldPath: string, depth: nat, index: map<string, string>, dots: string, index2: map<string, string>)
    requires Relink(oldPath, Dots(depth), index).Some?
    ensures Relink(Relink(oldPath, Dots(depth), index).value, dots, index2).None?
  {
    var key := LookupKey(oldPath);
    if depth > 0 {
      assert Dots(depth) == "../" + Dots(depth - 1);
    }
    TargetPointsAtLabs(Dots(depth), index[key], '\\' in oldPath);
  }

  lemma {:induction false} StripRightKeeps(s: string, k: int)
    requires 0 <= k < |s| && !IsSpace(s[k])
    ensures |StripRight(s)| > k
    decreases |s|
  {
    if IsSpace(s[|s| - 1]) {
      StripRightKeeps(s[..|s| - 1], k);
    }
  }

  /** Stripping keeps everything up to a non-space character when the
      string starts with one. */
  lemma StripKeeps(u: string, b: int)
    requires 0 < b <= |u| && !IsSpace(u[0]) && !IsSpace(u[b - 1])
    ensures b <= |Strip(u)| && Strip(u)[..b] == u[..b]
  {
    assert StripLeft(u) == u;
    StripRightKeeps(u, b - 1);
  }

  /** A rewritten reference already contains `shared_assets/labs` after
      cleaning, so a second pass leaves it alone. */
  lemma TargetPointsAtLabs(dots: string, name: string, windows: bool)
    requires StartsWith(dots, "../") || dots == []
    ensures Contains(CleanPath(Target(dots, name, windows)), SharedLabs)
  {
    var t := dots + SharedLabs + "/" + name;
    var k, n := |dots|, |SharedLabs|;
    assert forall m | 0 <= m < n :: t[k + m] == SharedLabs[m];
    assert '\\' !in SharedLabs;
    assert t[0] == '.' || t[0] == 's';
    assert t[k + n] == '/';
    CleanKeeps(t, windows, k, k + n);
    var c := CleanPath(Target(dots, name, windows));
    forall m | 0 <= m < n ensures c[k + m] == SharedLabs[m] {
      assert c[k + m] == t[k + m];
    }
    OccursByChars(c, SharedLabs, k);
  }

  /** Cleaning a possibly backslashed path gives back the characters of
      the original between two non-space ends, when none of them is a
      backslash. */
  lemma CleanKeeps(t: string, windows: bool, a: int, b: int)
    requires 0 <= a <= b < |t| && (t[0] == '.' || t[0] == 's') && t[b] == '/'
    requires forall i | a <= i < b :: t[i] != '\\'
    ensures var u := if windows then MapChar(t, '/', '\\') else t;
      |CleanPath(u)| > b && forall i | a <= i < b :: CleanPath(u)[i] == t[i]
  {
    var u := if windows then MapChar(t, '/', '\\') else t;
    assert !IsSpace(u[0]) && !IsSpace(u[b]);
    StripKeeps(u, b + 1);
    var w := Strip(u);
    forall i | a <= i < b ensures CleanPath(u)[i] == t[i] {
      assert w[..b + 1][i] == w[i] && u[..b + 1][i] == u[i];
    }
  }

  lemma OccursByChars(s: string, sub: string, k: int)
    requires 0 <= k <= |s| - |sub| && forall m | 0 <= m < |sub| :: s[k + m] == sub[m]
    ensures Contains(s, sub)
  {
    assert s[k..k + |sub|] == sub;
    assert OccursAt(s, sub, k);
  }

  // ---------------------------------------------------------------------
  // The two substitutions over one line
  // ---------------------------------------------------------------------

  /** What a rewriting step produced, and whether any path was replaced
      (the `nonlocal updated` flag). */
  datatype Rewritten<T> = Rewritten(value: T, updated: bool)

  /** `src\s*=\s*(["'])(.*?)(["'])` and `!\[.*?\]\((.*?)\)`. */
  datatype Pattern = HtmlSrc | MarkdownImage

  /** The groups `replace_match` receives; `quote` is empty for the
      markdown pattern, which has no quote group. */
  datatype Match = Match(prefix: string, quote: string, path: string, suffix: string)
  {
    function Text(): string { prefix + quote + path + suffix }
  }

  predicate IsQuote(c: char) { c == '"' || c == '\'' }

  predicate IsClose(c: char) { c == ')' }

  /** Where a lazy `.*?` starting at `j` and followed by a character of
      `stop` ends: at the first such character, or at a newline or the
      end, where the match fails. */
  function LazyEnd(s: string, j: nat, stop: char -> bool): (k: nat)
    requires j <= |s|
    ensures j <= k <= |s| && (k < |s| ==> stop(s[k]) || s[k] == '\n')
    ensures forall m | j <= m < k :: !stop(s[m]) && s[m] != '\n'
    decreases |s| - j
  {
    if j == |s| || stop(s[j]) || s[j] == '\n' then j else LazyEnd(s, j + 1, stop)
  }

  /** Where the lazy alt text `.*?` of a markdown image followed by `](`
      ends. */
  function AltEnd(s: string, j: nat): (k: nat)
    requires j <= |s|
    ensures j <= k <= |s| && (k < |s| ==> OccursAt(s, "](", k) || s[k] == '\n')
    ensures forall m | j <= m < k :: s[m] != '\n'
    decreases |s| - j
  {
    if j == |s| || s[j] == '\n' || OccursAt(s, "](", j) then j else AltEnd(s, j + 1)
  }

  /** The shape of an HTML match: `src` in any case, an `=` between
      spaces, a quote, a path without quotes or newlines, a quote. */
  predicate HtmlShape(m: Match)
  {
    |m.prefix| >= 4 && Lower(m.prefix[..3]) == "src"
    && (exists e | 3 <= e < |m.prefix| :: m.prefix[e] == '=' && SpacesIn(m.prefix, 3, e) && SpacesIn(m.prefix, e + 1, |m.prefix|))
    && |m.quote| == 1 && IsQuote(m.quote[0]) && |m.suffix| == 1 && IsQuote(m.suffix[0])
    && forall c | c in m.path :: !IsQuote(c) && c != '\n'
  }

  /** The shape of a markdown match: `![`, alt text without newlines,
      `](`, a path without `)` or newlines, `)`. */
  predicate MarkdownShape(m: Match)
  {
    StartsWith(m.prefix, "![") && EndsWith(m.prefix, "](") && |m.prefix| >= 4 && '\n' !in m.prefix
    && m.quote == [] && m.suffix == ")"
    && forall c | c in m.path :: c != ')' && c != '\n'
  }

  /** The HTML pattern tried at index `i`. */
  function HtmlAt(s: string, i: nat): (r: Option<Match>)
    requires i <= |s|
    ensures r.Some? ==> HtmlShape(r.value) && i + |r.value.Text()| <= |s|
                        && s[i..i + |r.value.Text()|] == r.value.Text()
  {
    if i + 3 <= |s| && LowerChar(s[i]) == 's' && LowerChar(s[i + 1]) == 'r' && LowerChar(s[i + 2]) == 'c' then
      var e := SkipSpace(s, i + 3);
      if e < |s| && s[e] == '=' then
        var q := SkipSpace(s, e + 1);
        if q < |s| && IsQuote(s[q]) then
          var p := LazyEnd(s, q + 1, IsQuote);
          if p < |s| && IsQuote(s[p]) then
            HtmlMatchShape(s, i, e, q, p);
            Some(Match(s[i..q], [s[q]], s[q + 1..p], [s[p]]))
          else None
        else None
      else None
    else None
  }

  lemma HtmlMatchShape(s: string, i: nat, e: nat, q: nat, p: nat)
    requires i + 3 <= e < q < p < |s|
    requires LowerChar(s[i]) == 's' && LowerChar(s[i + 1]) == 'r' && LowerChar(s[i + 2]) == 'c'
    requires SpacesIn(s, i + 3, e) && s[e] == '=' && SpacesIn(s, e + 1, q)
    requires IsQuote(s[q]) && IsQuote(s[p]) && forall m | q + 1 <= m < p :: !IsQuote(s[m]) && s[m] != '\n'
    ensures var m := Match(s[i..q], [s[q]], s[q + 1..p], [s[p]]);
      HtmlShape(m) && s[i..p + 1] == m.Text()
  {
    var m := Match(s[i..q], [s[q]], s[q + 1..p], [s[p]]);
    SrcPrefix(s, i, e, q);
    forall c | c in m.path ensures !IsQuote(c) && c != '\n' {
      var j :| 0 <= j < |m.path| && m.path[j] == c;
      assert m.path[j] == s[q + 1 + j];
    }
    assert s[i..p + 1] == m.Text();
  }

  /** The text before the quote reads `src`, spaces, `=`, spaces. */
  lemma SrcPrefix(s: string, i: nat, e: nat, q: nat)
    requires i + 3 <= e < q <= |s|
    requires LowerChar(s[i]) == 's' && LowerChar(s[i + 1]) == 'r' && LowerChar(s[i + 2]) == 'c'
    requires SpacesIn(s, i + 3, e) && s[e] == '=' && SpacesIn(s, e + 1, q)
    ensures var pre := s[i..q];
      |pre| >= 4 && Lower(pre[..3]) == "src"
      && SpacesIn(pre, 3, e - i) && pre[e - i] == '=' && SpacesIn(pre, e - i + 1, |pre|)
  {
    var pre := s[i..q];
    var low := Lower(pre[..3]);
    assert low[0] == 's' && low[1] == 'r' && low[2] == 'c';
    assert low == "src";
  }

  /** The markdown pattern tried at index `i`. */
  function MarkdownAt(s: string, i: nat): (r: Option<Match>)
    requires i <= |s|
    ensures r.Some? ==> MarkdownShape(r.value) && i + |r.value.Text()| <= |s|
                        && s[i..i + |r.value.Text()|] == r.value.Text()
  {
    if i + 2 <= |s| && s[i] == '!' && s[i + 1] == '[' then
      var a := AltEnd(s, i + 2);
      if a < |s| && s[a] != '\n' then
        var p := LazyEnd(s, a + 2, IsClose);
        if p < |s| && s[p] == ')' then
          MarkdownMatchShape(s, i, a, p);
          Some(Match(s[i..a + 2], [], s[a + 2..p], [')']))
        else None
      else None
    else None
  }

  lemma MarkdownMatchShape(s: string, i: nat, a: nat, p: nat)
    requires i + 2 <= a && a + 2 <= p < |s| && s[i] == '!' && s[i + 1] == '['
    requires OccursAt(s, "](", a) && forall m | i + 2 <= m < a :: s[m] != '\n'
    requires s[p] == ')' && forall m | a + 2 <= m < p :: s[m] != ')' && s[m] != '\n'
    ensures var m := Match(s[i..a + 2], [], s[a + 2..p], [')']);
      MarkdownShape(m) && s[i..p + 1] == m.Text()
  {
    var m := Match(s[i..a + 2], [], s[a + 2..p], [')']);
    assert m.prefix[..2] == "![";
    assert m.prefix[|m.prefix| - 2..] == s[a..a + 2];
    assert s[i..p + 1] == m.Text();
  }

  predicate Shaped(pattern: Pattern, m: Match)
  {
    match pattern
    case HtmlSrc => HtmlShape(m)
    case MarkdownImage => MarkdownShape(m)
  }

  function MatchAt(pattern: Pattern, s: string, i: nat): (r: Option<Match>)
    requires i <= |s|
    ensures r.Some? ==> Shaped(pattern, r.value) && |r.value.Text()| > 0 && i + |r.value.Text()| <= |s|
                        && s[i..i + |r.value.Text()|] == r.value.Text()
  {
    match pattern
    case HtmlSrc => HtmlAt(s, i)
    case MarkdownImage => MarkdownAt(s, i)
  }

  /** `replace_match`: the relinked path between the match's own prefix,
      quote and suffix, or the match unchanged. */
  function Replace(m: Match, relink: string -> Option<string>): (r: Rewritten<string>)
    ensures !r.updated ==> r.value == m.Text()
  {
    match relink(m.path)
    case Some(p) => Rewritten(m.prefix + m.quote + p + m.suffix, true)
    case None => Rewritten(m.Text(), false)
  }

  /** What scanning a line for a pattern yields: characters copied as
      they are, and matches. */
  datatype Piece = Plain(c: char) | Found(m: Match)

  function PieceText(p: Piece): string
  {
    match p
    case Plain(c) => [c]
    case Found(m) => m.Text()
  }

  function Texts(ps: seq<Piece>): string
  {
    if ps == [] then [] else PieceText(ps[0]) + Texts(ps[1..])
  }

  /** The scan of `pattern.sub` from index `i` on: matches are tried left
      to right and never overlap, and a position where none starts is
      copied. The pieces spell out the scanned text. */
  function Scan(pattern: Pattern, s: string, i: nat): (r: seq<Piece>)
    requires i <= |s|
    ensures Texts(r) == s[i..]
    decreases |s| - i
  {
    if i == |s| then []
    else
      match MatchAt(pattern, s, i)
      case Some(m) =>
        var rest := Scan(pattern, s, i + |m.Text()|);
        assert ([Found(m)] + rest)[1..] == rest;
        SplitAt(s, i, i + |m.Text()|);
        [Found(m)] + rest
      case None =>
        var rest := Scan(pattern, s, i + 1);
        assert ([Plain(s[i])] + rest)[1..] == rest;
        SplitAt(s, i, i + 1);
        [Plain(s[i])] + rest
  }

  lemma SplitAt(s: string, i: int, j: int)
    requires 0 <= i <= j <= |s|
    ensures s[i..] == s[i..j] + s[j..]
  {
  }

  /** The substitution over scanned pieces: each match through
      `replace_match` (`relink` on its path), the rest copied. A result
      that replaced nothing spells out the pieces unchanged. */
  function Apply(ps: seq<Piece>, relink: string -> Option<string>): (r: Rewritten<string>)
    ensures !r.updated ==> r.value == Texts(ps)
  {
    if ps == [] then Rewritten([], false)
    else
      var here := match ps[0] case Plain(c) => Rewritten([c], false) case Found(m) => Replace(m, relink);
      var rest := Apply(ps[1..], relink);
      Rewritten(here.value + rest.value, here.updated || rest.updated)
  }

  /** `pattern.sub(replace_match, s)`. */
  function Sub(pattern: Pattern, s: string, relink: string -> Option<string>): (r: Rewritten<string>)
    ensures !r.updated ==> r.value == s
  {
    Apply(Scan(pattern, s, 0), relink)
  }

  /** When no path can be relinked, nothing is replaced. */
  lemma {:induction false} ApplyNoRelink(ps: seq<Piece>, relink: string -> Option<string>)
    requires forall p :: relink(p).None?
    ensures !Apply(ps, relink).updated
  {
    if ps != [] {
      ApplyNoRelink(ps[1..], relink);
    }
  }

  /** `replace_match` with the notebook's `dots` and the index. */
  function Relinker(dots: string, index: map<string, string>): string -> Option<string>
  {
    p => Relink(p, dots, index)
  }

  /** One line of a cell: the HTML substitution, then the markdown one on
      its result. */
  function FixLine(line: string, dots: string, index: map<string, string>): (r: Rewritten<string>)
    ensures !r.updated ==> r.value == line
  {
    var relink := Relinker(dots, index);
    var html := Sub(HtmlSrc, line, relink);
    var md := Sub(MarkdownImage, html.value, relink);
    Rewritten(md.value, html.updated || md.updated)
  }

  /** An empty index leaves every line as it is. */
  lemma FixLineEmptyIndex(line: string, dots: string)
    ensures FixLine(line, dots, map[]) == Rewritten(line, false)
  {
    var relink := Relinker(dots, map[]);
    ApplyNoRelink(Scan(HtmlSrc, line, 0), relink);
    ApplyNoRelink(Scan(MarkdownImage, line, 0), relink);
  }

  // ---------------------------------------------------------------------
  // Cells and notebooks
  // ---------------------------------------------------------------------

  /** A notebook cell: `source` is `None` when the cell has no `source`
      list, and such a cell is left alone. */
  datatype Cell = Cell(source: Option<seq<string>>)

  /** Every element through `f`, in order; updated when any one was. */
  function RewriteAll<T>(xs: seq<T>, f: T -> Rewritten<T>): (r: Rewritten<seq<T>>)
    ensures |r.value| == |xs|
    ensures forall k | 0 <= k < |xs| :: r.value[k] == f(xs[k]).value
    ensures r.updated <==> exists k | 0 <= k < |xs| :: f(xs[k]).updated
  {
    if xs == [] then Rewritten([], false)
    else
      var n := |xs| - 1;
      var init := RewriteAll(xs[..n], f);
      var last := f(xs[n]);
      assert forall k | 0 <= k < n :: xs[..n][k] == xs[k];
      Rewritten(init.value + [last.value], init.updated || last.updated)
  }

  /** When `f` changes only what it reports as updated, so does
      `RewriteAll`. */
  lemma RewriteAllUnchanged<T>(xs: seq<T>, f: T -> Rewritten<T>)
    requires forall x :: !f(x).updated ==> f(x).value == x
    ensures !RewriteAll(xs, f).updated ==> RewriteAll(xs, f).value == xs
  {
  }

  /** The lines of one cell source, each through both substitutions. */
  function FixedLines(lines: seq<string>, dots: string, index: map<string, string>): Rewritten<seq<string>>
  {
    RewriteAll(lines, (line: string) => FixLine(line, dots, index))
  }

  /** The cells of a notebook, every `source` list rewritten. */
  function FixedCells(cells: seq<Cell>, dots: string, index: map<string, string>): Rewritten<seq<Cell>>
  {
    RewriteAll(cells, (cell: Cell) => FixedCell(cell, dots, index))
  }

  function FixedCell(cell: Cell, dots: string, index: map<string, string>): (r: Rewritten<Cell>)
    ensures !r.updated ==> r.value == cell
  {
    match cell.source
    case Some(lines) =>
      var fixed := FixedLines(lines, dots, index);
      RewriteAllUnchanged(lines, (line: string) => FixLine(line, dots, index));
      Rewritten(Cell(Some(fixed.value)), fixed.updated)
    case None => Rewritten(cell, false)
  }

  /** One more line: its rewrite is appended and its flag joined. */
  lemma FixedLinesSnoc(lines: seq<string>, i: nat, dots: string, index: map<string, string>)
    requires i < |lines|
    ensures var init := FixedLines(lines[..i], dots, index); var line := FixLine(lines[i], dots, index);
      FixedLines(lines[..i + 1], dots, index) == Rewritten(init.value + [line.value], init.updated || line.updated)
  {
    assert lines[..i + 1][..i] == lines[..i];
  }

  /** One more cell: its rewrite is appended and its flag joined. */
  lemma FixedCellsSnoc(cells: seq<Cell>, i: nat, dots: string, index: map<string, string>)
    requires i < |cells|
    ensures var init := FixedCells(cells[..i], dots, index); var cell := FixedCell(cells[i], dots, index);
      FixedCells(cells[..i + 1], dots, index) == Rewritten(init.value + [cell.value], init.updated || cell.updated)
  {
    assert cells[..i + 1][..i] == cells[..i];
  }

  /** A notebook in which nothing was replaced is kept as it was. */
  lemma FixedCellsUnchanged(cells: seq<Cell>, dots: string, index: map<string, string>)
    ensures !FixedCells(cells, dots, index).updated ==> FixedCells(cells, dots, index).value == cells
  {
    RewriteAllUnchanged(cells, (cell: Cell) => FixedCell(cell, dots, index));
  }

  /** With an empty index no notebook is ever updated. */
  lemma FixedCellsEmptyIndex(cells: seq<Cell>, dots: string)
    ensures !FixedCells(cells, dots, map[]).updated
  {
    forall k | 0 <= k < |cells| ensures !FixedCell(cells[k], dots, map[]).updated {
      if cells[k].source.Some? {
        var lines := cells[k].source.value;
        forall j | 0 <= j < |lines| ensures !FixLine(lines[j], dots, map[]).updated {
          FixLineEmptyIndex(lines[j], dots);
        }
      }
    }
  }

  /** The loop over the lines of one cell. */
  method FixSource(lines: seq<string>, dots: string, index: map<string, string>) returns (newLines: seq<string>, updated: bool)
    ensures Rewritten(newLines, updated) == FixedLines(lines, dots, index)
  {
    newLines, updated := [], false;
    for i := 0 to |lines|
      invariant Rewritten(newLines, updated) == FixedLines(lines[..i], dots, index)
    {
      FixedLinesSnoc(lines, i, dots, index);
      var line := FixLine(lines[i], dots, index);
      newLines := newLines + [line.value];
      updated := updated || line.updated;
    }
    assert lines[..|lines|] == lines;
  }

  /** One cell: its `source` lines rewritten when it has them. */
  method FixCell(cell: Cell, dots: string, index: map<string, string>) returns (cell': Cell, updated: bool)
    ensures Rewritten(cell', updated) == FixedCell(cell, dots, index)
  {
    cell', updated := cell, false;
    if cell.source.Some? {
      var newLines;
      newLines, updated := FixSource(cell.source.value, dots, index);
      cell' := Cell(Some(newLines));
    }
  }

  /** The loop over the cells, assigning each rewritten `source` back into
      its cell. */
  method FixCells(cells: array<Cell>, dots: string, index: map<string, string>) returns (updated: bool)
    modifies cells
    ensures Rewritten(cells[..], updated) == FixedCells(old(cells[..]), dots, index)
  {
    ghost var before := cells[..];
    updated := false;
    for i := 0 to cells.Length
      invariant cells[i..] == before[i..]
      invariant Rewritten(cells[..i], updated) == FixedCells(before[..i], dots, index)
    {
      FixedCellsSnoc(before, i, dots, index);
      var cell, changed := FixCell(cells[i], dots, index);
      cells[i] := cell;
      updated := updated || changed;
      assert cells[..i + 1] == cells[..i] + [cell];
    }
    assert cells[..] == cells[..cells.Length];
    assert before[..cells.Length] == before;
  }

  /** How many folders the notebook's own folder lies below the download
      folder. */
  function Depth(ipynb: Fs.Path, downloadDir: Fs.Path): nat
    requires |ipynb| >= 1 && Fs.Under(downloadDir, Fs.Parent(ipynb))
  {
    |ipynb| - 1 - |downloadDir|
  }

  /** `fix_single_notebook`: `notebook` is the parsed file, `None` when it
      could not be read or parsed. A notebook whose folder is not inside
      the download folder is skipped before it is read. The answer is
      whether anything was replaced, which is when the file is written. */
  method FixSingleNotebook(ipynb: Fs.Path, downloadDir: Fs.Path, notebook: Option<array<Cell>>, index: map<string, string>)
    returns (fixed: bool)
    requires |ipynb| >= 1
    modifies if notebook.Some? then {notebook.value} else {}
    ensures !Fs.Under(downloadDir, Fs.Parent(ipynb)) || notebook.None? ==> !fixed
    ensures !Fs.Under(downloadDir, Fs.Parent(ipynb)) && notebook.Some? ==> unchanged(notebook.value)
    ensures Fs.Under(downloadDir, Fs.Parent(ipynb)) && notebook.Some? ==>
              Rewritten(notebook.value[..], fixed)
              == FixedCells(old(notebook.value[..]), Dots(Depth(ipynb, downloadDir)), index)
  {
    if !Fs.Under(downloadDir, Fs.Parent(ipynb)) {
      return false;
    }
    var dots := Dots(Depth(ipynb, downloadDir));
    match notebook
    case None =>
      fixed := false;
    case Some(cells) =>
      fixed := FixCells(cells, dots, index);
  }

  // ---------------------------------------------------------------------
  // The walk over the download folder
  // ---------------------------------------------------------------------

  /** Where the notebooks are searched for: the parent of a folder named
      `coursera_downloads`, the folder itself otherwise. */
  function SearchRoot(downloadDir: Fs.Path): (r: Fs.Path)
    ensures Fs.Under(r, downloadDir) && |downloadDir| - 1 <= |r| <= |downloadDir|
    ensures r != downloadDir <==> downloadDir != [] && downloadDir[|downloadDir| - 1] == "coursera_downloads"
  {
    if downloadDir != [] && downloadDir[|downloadDir| - 1] == "coursera_downloads"
    then Fs.Parent(downloadDir) else downloadDir
  }

  /** One step of `os.walk`: a folder and the names of its files. */
  datatype WalkStep = WalkStep(root: Fs.Path, files: seq<string>)

  /** Folders whose path mentions `shared_assets` are not searched. */
  predicate SkippedRoot(root: Fs.Path)
  {
    Contains(JoinWith(root, "/"), "shared_assets")
  }

  /** The notebooks of one walk step that are worked on, in file order. */
  function StepNotebooks(step: WalkStep, downloadDir: Fs.Path): (r: seq<Fs.Path>)
    ensures forall k | 0 <= k < |r| :: |r[k]| >= 1 && Fs.Parent(r[k]) == step.root
              && EndsWith(r[k][|r[k]| - 1], ".ipynb") && Fs.Under(downloadDir, r[k])
  {
    if SkippedRoot(step.root) then []
    else NotebooksOf(step.root, step.files, downloadDir)
  }

  /** The files of one walk step that the fixer opens: `.ipynb` files under
      the download directory, in listing order. */
  function NotebooksOf(root: Fs.Path, files: seq<string>, downloadDir: Fs.Path): (r: seq<Fs.Path>)
    ensures forall k | 0 <= k < |r| :: |r[k]| >= 1 && Fs.Parent(r[k]) == root
              && EndsWith(r[k][|r[k]| - 1], ".ipynb") && Fs.Under(downloadDir, r[k])
  {
    if files == [] then []
    else
      var n := |files| - 1;
      var path := root + [files[n]];
      assert Fs.Parent(path) == root;
      NotebooksOf(root, files[..n], downloadDir)
        + if EndsWith(files[n], ".ipynb") && Fs.Under(downloadDir, path) then [path] else []
  }

  /** A notebook file under the download folder, outside any
      `shared_assets` directory. */
  predicate WorkedNotebook(p: Fs.Path, downloadDir: Fs.Path)
  {
    |p| >= 1 && EndsWith(p[|p| - 1], ".ipynb") && Fs.Under(downloadDir, p) && !SkippedRoot(Fs.Parent(p))
  }

  /** Every notebook of the walk that is worked on, in walk order. */
  function Notebooks(walk: seq<WalkStep>, downloadDir: Fs.Path): (r: seq<Fs.Path>)
    ensures forall k | 0 <= k < |r| :: WorkedNotebook(r[k], downloadDir)
  {
    if walk == [] then []
    else
      var n := |walk| - 1;
      var init := Notebooks(walk[..n], downloadDir);
      var last := StepNotebooks(walk[n], downloadDir);
      assert forall k | 0 <= k < |last| :: WorkedNotebook(last[k], downloadDir);
      init + last
  }

  /** What happens to one notebook: the cells written back, or `None` when
      the file is left alone (skipped, unreadable, or nothing replaced). */
  function Outcome(ipynb: Fs.Path, downloadDir: Fs.Path, disk: map<Fs.Path, seq<Cell>>, index: map<string, string>)
    : Option<seq<Cell>>
  {
    if |ipynb| >= 1 && Fs.Under(downloadDir, Fs.Parent(ipynb)) && ipynb in disk then
      var r := FixedCells(disk[ipynb], Dots(Depth(ipynb, downloadDir)), index);
      if r.updated then Some(r.value) else None
    else None
  }

  /** The counters and the files written so far. */
  datatype Tally = Tally(analyzed: nat, fixed: nat, written: map<Fs.Path, seq<Cell>>)

  /** What happens to each notebook path, for the given folder, files and
      index. */
  function Outcomes(downloadDir: Fs.Path, disk: map<Fs.Path, seq<Cell>>, index: map<string, string>)
    : Fs.Path -> Option<seq<Cell>>
  {
    (ipynb: Fs.Path) => Outcome(ipynb, downloadDir, disk, index)
  }

  /** One more notebook analysed. */
  function Step(t: Tally, ipynb: Fs.Path, outcome: Fs.Path -> Option<seq<Cell>>): Tally
  {
    match outcome(ipynb)
    case Some(cells) => Tally(t.analyzed + 1, t.fixed + 1, t.written[ipynb := cells])
    case None => Tally(t.analyzed + 1, t.fixed, t.written)
  }

  /** The tally after `paths`, starting from `t`: every notebook is
      counted, at most every one is fixed, and each file written holds the
      rewritten cells of its notebook. */
  function Continue(t: Tally, paths: seq<Fs.Path>, outcome: Fs.Path -> Option<seq<Cell>>): (r: Tally)
    ensures r.analyzed == t.analyzed + |paths| && t.fixed <= r.fixed <= t.fixed + |paths|
  {
    if paths == [] then t
    else
      var n := |paths| - 1;
      Step(Continue(t, paths[..n], outcome), paths[n], outcome)
  }

  /** Each file written holds what its notebook's outcome says. */
  lemma {:induction false} ContinueWritten(t: Tally, paths: seq<Fs.Path>, outcome: Fs.Path -> Option<seq<Cell>>)
    ensures var r := Continue(t, paths, outcome);
      forall p | p in r.written ::
        (p in paths && outcome(p) == Some(r.written[p])) || (p in t.written && r.written[p] == t.written[p])
  {
    if paths != [] {
      var n := |paths| - 1;
      ContinueWritten(t, paths[..n], outcome);
      assert forall p | p in paths[..n] :: p in paths;
    }
  }

  /** Notebooks that are all left alone are only counted. */
  lemma {:induction false} ContinueNothingFixed(t: Tally, paths: seq<Fs.Path>, outcome: Fs.Path -> Option<seq<Cell>>)
    requires forall p :: outcome(p).None?
    ensures Continue(t, paths, outcome) == Tally(t.analyzed + |paths|, t.fixed, t.written)
  {
    if paths != [] {
      ContinueNothingFixed(t, paths[..|paths| - 1], outcome);
    }
  }

  /** With no shared lab assets, no notebook is written. */
  lemma NoAssetsNothingWritten(downloadDir: Fs.Path, walk: seq<WalkStep>, disk: map<Fs.Path, seq<Cell>>)
    ensures var paths := Notebooks(walk, downloadDir);
      Continue(Tally(0, 0, map[]), paths, Outcomes(downloadDir, disk, IndexOf([], IndexKey)))
      == Tally(|paths|, 0, map[])
  {
    var outcome := Outcomes(downloadDir, disk, IndexOf([], IndexKey));
    forall p ensures outcome(p).None? {
      if |p| >= 1 && Fs.Under(downloadDir, Fs.Parent(p)) && p in disk {
        FixedCellsEmptyIndex(disk[p], Dots(Depth(p, downloadDir)));
      }
    }
    ContinueNothingFixed(Tally(0, 0, map[]), Notebooks(walk, downloadDir), outcome);
  }

  lemma ContinueSnoc(t: Tally, paths: seq<Fs.Path>, p: Fs.Path, outcome: Fs.Path -> Option<seq<Cell>>)
    ensures Continue(t, paths + [p], outcome) == Step(Continue(t, paths, outcome), p, outcome)
  {
    assert (paths + [p])[..|paths|] == paths;
  }

  lemma {:induction false} ContinueConcat(t: Tally, ps: seq<Fs.Path>, qs: seq<Fs.Path>, outcome: Fs.Path -> Option<seq<Cell>>)
    ensures Continue(t, ps + qs, outcome) == Continue(Continue(t, ps, outcome), qs, outcome)
  {
    if qs == [] {
      assert ps + qs == ps;
    } else {
      var n := |qs| - 1;
      ContinueConcat(t, ps, qs[..n], outcome);
      assert (ps + qs)[..|ps| + n] == ps + qs[..n];
    }
  }

  /** One notebook: its cells loaded into an array when the file could be
      read, then `fix_single_notebook`. */
  method FixOne(ipynb: Fs.Path, downloadDir: Fs.Path, disk: map<Fs.Path, seq<Cell>>, index: map<string, string>)
    returns (out: Option<seq<Cell>>)
    requires |ipynb| >= 1
    ensures out == Outcome(ipynb, downloadDir, disk, index)
  {
    var notebook: Option<array<Cell>> := None;
    if ipynb in disk {
      var cells := disk[ipynb];
      var a := new Cell[|cells|](k requires 0 <= k < |cells| => cells[k]);
      assert a[..] == cells;
      notebook := Some(a);
    }
    var fixed := FixSingleNotebook(ipynb, downloadDir, notebook, index);
    out := if fixed then Some(notebook.value[..]) else None;
  }

  /** The tally over one more file of a directory. */
  lemma ContinueFile(t: Tally, root: Fs.Path, files: seq<string>, j: nat, downloadDir: Fs.Path,
                     outcome: Fs.Path -> Option<seq<Cell>>)
    requires j < |files|
    ensures var ipynb := root + [files[j]];
            var before := Continue(t, NotebooksOf(root, files[..j], downloadDir), outcome);
            Continue(t, NotebooksOf(root, files[..j + 1], downloadDir), outcome)
            == if EndsWith(files[j], ".ipynb") && Fs.Under(downloadDir, ipynb) then Step(before, ipynb, outcome) else before
  {
    assert files[..j + 1][..j] == files[..j];
    var ipynb := root + [files[j]];
    var ps := NotebooksOf(root, files[..j], downloadDir);
    if EndsWith(files[j], ".ipynb") && Fs.Under(downloadDir, ipynb) {
      assert NotebooksOf(root, files[..j + 1], downloadDir) == ps + [ipynb];
      ContinueSnoc(t, ps, ipynb, outcome);
    } else {
      assert NotebooksOf(root, files[..j + 1], downloadDir) == ps + [];
      assert ps + [] == ps;
    }
  }

  /** One notebook analysed and, when fixed, written. */
  method TallyOne(r: Tally, ipynb: Fs.Path, downloadDir: Fs.Path, disk: map<Fs.Path, seq<Cell>>, index: map<string, string>)
    returns (r': Tally)
    requires |ipynb| >= 1
    ensures r' == Step(r, ipynb, Outcomes(downloadDir, disk, index))
  {
    var out := FixOne(ipynb, downloadDir, disk, index);
    assert out == Outcomes(downloadDir, disk, index)(ipynb);
    r' := match out
      case Some(cells) => Tally(r.analyzed + 1, r.fixed + 1, r.written[ipynb := cells])
      case None => Tally(r.analyzed + 1, r.fixed, r.written);
  }

  method FixStep(step: WalkStep, downloadDir: Fs.Path, disk: map<Fs.Path, seq<Cell>>, index: map<string, string>, t: Tally)
    returns (r: Tally)
    ensures r == Continue(t, StepNotebooks(step, downloadDir), Outcomes(downloadDir, disk, index))
  {
    r := t;
    if SkippedRoot(step.root) {
      return;
    }
    var files := step.files;
    for j := 0 to |files|
      invariant r == Continue(t, NotebooksOf(step.root, files[..j], downloadDir), Outcomes(downloadDir, disk, index))
    {
      ContinueFile(t, step.root, files, j, downloadDir, Outcomes(downloadDir, disk, index));
      var ipynb := step.root + [files[j]];
      if EndsWith(files[j], ".ipynb") && Fs.Under(downloadDir, ipynb) {
        r := TallyOne(r, ipynb, downloadDir, disk, index);
      }
    }
    assert files[..|files|] == files;
  }

  /** `fix_notebooks`: `labs` is the listing of `shared_assets/labs`
      (`None` when that folder is missing, which ends the run), `walk` the
      steps of `os.walk` over the search root and `disk` the notebooks
      that can be read and parsed. */
  method FixNotebooks(downloadDir: Fs.Path, labs: Option<seq<Node>>, walk: seq<WalkStep>, disk: map<Fs.Path, seq<Cell>>)
    returns (tally: Tally)
    ensures labs.None? ==> tally == Tally(0, 0, map[])
    ensures labs.Some? ==> tally == Continue(Tally(0, 0, map[]), Notebooks(walk, downloadDir),
                                              Outcomes(downloadDir, disk, IndexOf(labs.value, IndexKey)))
  {
    tally := Tally(0, 0, map[]);
    if labs.None? {
      return;
    }
    var index := BuildIndex(labs.value);
    for i := 0 to |walk|
      invariant tally == Continue(Tally(0, 0, map[]), Notebooks(walk[..i], downloadDir), Outcomes(downloadDir, disk, index))
    {
      assert walk[..i + 1][..i] == walk[..i];
      ContinueConcat(Tally(0, 0, map[]), Notebooks(walk[..i], downloadDir), StepNotebooks(walk[i], downloadDir),
                     Outcomes(downloadDir, disk, index));
      tally := FixStep(walk[i], downloadDir, disk, index, tally);
    }
    assert walk[..|walk|] == walk;
  }
}
