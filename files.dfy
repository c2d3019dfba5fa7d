/** The artifact placement layer of coursera/files.py.  Each operation
    takes the directory tree and returns the new one; a move that raises
    `OSError` is named by the `broken` set of sources (plus the case of a
    directory moved into itself), and leaves the tree as it was. */
module Files {
  import opened Base
  import opened Utils
  import opened Fs
  import Listing

  // ---------------------------------------------------------------------
  // Directory listings
  // ---------------------------------------------------------------------

  /** The entries directly inside `d` (`d.iterdir()`). */
  function Children(fs: FileSystem, d: Path): set<Path>
  {
    set k | k in fs && |k| == |d| + 1 && k[..|d|] == d
  }

  /** `courseDir.glob("module_*")` restricted to directories. */
  function ModuleDirs(fs: FileSystem, courseDir: Path): set<Path>
  {
    set k | k in Children(fs, courseDir) && fs[k].Dir? && StartsWith(k[|courseDir|], "module_")
  }

  /** The directories `get_unique_search_dirs` returns, as a set: the courseDir
      root and the module when they exist, and every `module_*` directory of
      the courseDir. */
  function SearchDirSet(fs: FileSystem, courseDir: Path, moduleDir: Path): set<Path>
  {
    (set d | d in {courseDir, moduleDir} && d in fs)
    + (if courseDir in fs then ModuleDirs(fs, courseDir) else {})
  }

  /** `get_unique_search_dirs`: the course root first, the module second,
      then the other module directories in listing order, each existing
      directory once. */
  method GetUniqueSearchDirs(fs: FileSystem, courseDir: Path, moduleDir: Path) returns (dirs: seq<Path>)
    ensures Distinct(dirs)
    ensures forall d :: d in dirs <==> d in SearchDirSet(fs, courseDir, moduleDir)
    ensures courseDir in fs ==> |dirs| >= 1 && dirs[0] == courseDir
    ensures moduleDir in fs && moduleDir != courseDir ==>
              var at := if courseDir in fs then 1 else 0;
              |dirs| > at && dirs[at] == moduleDir
  {
    var globbed: seq<Path> := [];
    if courseDir in fs {
      globbed := GlobModules(fs, courseDir);
    }
    var search := [courseDir, moduleDir] + globbed;
    dirs := [];
    var seen: set<Path> := {};
    var i := 0;
    while i < |search|
      invariant 0 <= i <= |search|
      invariant Distinct(dirs) && |dirs| <= i
      invariant i == 1 ==> dirs == (if courseDir in fs then [courseDir] else [])
      invariant forall d :: d in seen <==> d in dirs
      invariant forall d :: d in dirs <==> d in search[..i] && d in fs
      invariant i >= 1 && courseDir in fs ==> |dirs| >= 1 && dirs[0] == courseDir
      invariant i >= 2 && moduleDir in fs && moduleDir != courseDir ==>
                  var at := if courseDir in fs then 1 else 0;
                  |dirs| > at && dirs[at] == moduleDir
    {
      var sd := search[i];
      if sd in fs && sd !in seen {
        dirs := dirs + [sd];
        seen := seen + {sd};
      }
      assert search[..i + 1] == search[..i] + [sd];
      i := i + 1;
    }
    assert search[..i] == search;
  }

  /** `course_dir.glob("module_*")` filtered by `is_dir()`, in some listing
      order. */
  method GlobModules(fs: FileSystem, courseDir: Path) returns (globbed: seq<Path>)
    ensures forall d :: d in globbed <==> d in ModuleDirs(fs, courseDir)
    ensures forall d | d in globbed :: d in fs
  {
    globbed := [];
    var rest := ModuleDirs(fs, courseDir);
    while rest != {}
      invariant rest <= ModuleDirs(fs, courseDir)
      invariant forall d :: d in globbed <==> d in ModuleDirs(fs, courseDir) - rest
      decreases |rest|
    {
      var d :| d in rest;
      globbed := globbed + [d];
      rest := rest - {d};
    }
  }

  // ---------------------------------------------------------------------
  // get_or_move_path
  // ---------------------------------------------------------------------

  /** `module_dir / target_name`; joining an empty name gives the directory. */
  function Join(dir: Path, name: Name): Path
  {
    if name == [] then dir else dir + [name]
  }

  /** `shutil.move(src, dst)` raises: the source is one that the
      environment refuses, or the destination lies inside the source. */
  predicate MoveFails(src: Path, dst: Path, broken: set<Path>)
  {
    src in broken || Under(src, dst)
  }

  /** An exact-name candidate: `sd / name` for a search directory other than
      the module itself. */
  predicate ExactSource(fs: FileSystem, courseDir: Path, moduleDir: Path, name: Name, src: Path)
  {
    |src| >= 1 && src[|src| - 1] == name && src in fs
    && Parent(src) in SearchDirSet(fs, courseDir, moduleDir) && Parent(src) != moduleDir
  }

  /** The renumbering step looks in a search directory unless its name starts
      with `module_` and it is not the current moduleDir. */
  predicate RenumberDir(moduleDir: Path, sd: Path)
  {
    !(|sd| >= 1 && StartsWith(sd[|sd| - 1], "module_") && sd != moduleDir)
  }

  /** The renumbering step runs only for names like `035_title...`. */
  predicate RenumberGuard(name: Name)
  {
    |name| > 4 && name[3] == '_'
  }

  /** A name matched by the glob `[0-9][0-9][0-9]_<suffix>`. */
  predicate NumberedAs(n: Name, suffix: string)
  {
    |n| == |suffix| + 4 && IsDigit(n[0]) && IsDigit(n[1]) && IsDigit(n[2]) && n[3] == '_'
    && n[4..] == suffix
  }

  /** `sd.glob("[0-9][0-9][0-9]_<suffix>")`. */
  function NumberedMatches(fs: FileSystem, sd: Path, suffix: string): set<Path>
  {
    set k | k in Children(fs, sd) && NumberedAs(k[|sd|], suffix)
  }

  /** A renumbering candidate: an entry `NNN_<suffix>` other than the target
      in the course root or the current moduleDir. */
  predicate RenumberSource(fs: FileSystem, courseDir: Path, moduleDir: Path, name: Name, src: Path)
  {
    RenumberGuard(name) && |src| >= 1 && src in fs && src != moduleDir + [name]
    && Parent(src) in SearchDirSet(fs, courseDir, moduleDir) && RenumberDir(moduleDir, Parent(src))
    && NumberedAs(src[|src| - 1], name[4..])
  }

  ghost predicate NoGoodExact(fs: FileSystem, courseDir: Path, moduleDir: Path, name: Name, broken: set<Path>)
  {
    forall src | ExactSource(fs, courseDir, moduleDir, name, src) :: MoveFails(src, moduleDir + [name], broken)
  }

  ghost predicate NoGoodRenumber(fs: FileSystem, courseDir: Path, moduleDir: Path, name: Name, broken: set<Path>)
  {
    forall src | RenumberSource(fs, courseDir, moduleDir, name, src) :: MoveFails(src, moduleDir + [name], broken)
  }

  lemma SplitLast(p: Path)
    requires |p| >= 1
    ensures p == Parent(p) + [p[|p| - 1]]
  {
  }

  /** `src` exists and moving it onto `target` does not raise. */
  predicate Movable(fs: FileSystem, src: Path, target: Path, broken: set<Path>)
  {
    src in fs && !MoveFails(src, target, broken)
  }

  /** Step 2.1 of `get_or_move_path`: the first search directory, other than
      the module, holding a movable entry with exactly the target's name. */
  method FindExactSource(fs: FileSystem, dirs: seq<Path>, moduleDir: Path, name: Name, target: Path, broken: set<Path>)
    returns (found: Option<Path>)
    ensures found.Some? ==>
              exists j | 0 <= j < |dirs| :: dirs[j] != moduleDir && found.value == dirs[j] + [name]
    ensures found.Some? ==> Movable(fs, found.value, target, broken)
    ensures found.None? ==>
              forall j | 0 <= j < |dirs| && dirs[j] != moduleDir :: !Movable(fs, dirs[j] + [name], target, broken)
    ensures |dirs| > 0 && dirs[0] != moduleDir && Movable(fs, dirs[0] + [name], target, broken) ==>
              found == Some(dirs[0] + [name])
  {
    var i := 0;
    while i < |dirs|
      invariant 0 <= i <= |dirs|
      invariant forall j | 0 <= j < i && dirs[j] != moduleDir :: !Movable(fs, dirs[j] + [name], target, broken)
    {
      var sd := dirs[i];
      if sd != moduleDir {
        var src := sd + [name];
        if src in fs && !MoveFails(src, target, broken) {
          return Some(src);
        }
      }
      i := i + 1;
    }
    return None;
  }

  /** Every `NNN_<suffix>` entry of `sd` is the target or cannot be moved. */
  ghost predicate Exhausted(fs: FileSystem, sd: Path, suffix: string, target: Path, broken: set<Path>)
  {
    forall m | m in NumberedMatches(fs, sd, suffix) :: m == target || !Movable(fs, m, target, broken)
  }

  /** Step 3 of `get_or_move_path`: in the course root or the module, some
      movable `NNN_<suffix>` entry other than the target. */
  method FindRenumberSource(fs: FileSystem, dirs: seq<Path>, moduleDir: Path, suffix: string, target: Path, broken: set<Path>)
    returns (found: Option<Path>)
    ensures found.Some? ==>
              exists j | 0 <= j < |dirs| :: RenumberDir(moduleDir, dirs[j]) && found.value in NumberedMatches(fs, dirs[j], suffix)
    ensures found.Some? ==> found.value != target && Movable(fs, found.value, target, broken)
    ensures found.None? ==>
              forall j | 0 <= j < |dirs| && RenumberDir(moduleDir, dirs[j]) :: Exhausted(fs, dirs[j], suffix, target, broken)
  {
    var i := 0;
    while i < |dirs|
      invariant 0 <= i <= |dirs|
      invariant forall j | 0 <= j < i && RenumberDir(moduleDir, dirs[j]) :: Exhausted(fs, dirs[j], suffix, target, broken)
    {
      var sd := dirs[i];
      if RenumberDir(moduleDir, sd) {
        var pending := NumberedMatches(fs, sd, suffix);
        while pending != {}
          invariant pending <= NumberedMatches(fs, sd, suffix)
          invariant forall m | m in NumberedMatches(fs, sd, suffix) && m !in pending ::
                      m == target || !Movable(fs, m, target, broken)
          decreases |pending|
        {
          var existing :| existing in pending;
          if existing != target && existing in fs && !MoveFails(existing, target, broken) {
            return Some(existing);
          }
          pending := pending - {existing};
        }
      }
      i := i + 1;
    }
    return None;
  }

  /** `get_or_move_path`.  `moved` names the entry that was moved to the
      target, if any. */
  method GetOrMovePath(fs: FileSystem, courseDir: Path, moduleDir: Path, name: Name, broken: set<Path>)
    returns (target: Path, fs': FileSystem, ghost moved: Option<Path>)
    requires WellFormed(fs) && |moduleDir| >= 1 && NoFileOnPath(fs, moduleDir)
    ensures target == Join(moduleDir, name)
    ensures var fs1 := MkDirs(fs, moduleDir);
            && IsDir(fs', moduleDir) && WellFormed(fs')
            && (target in fs1 ==> moved == None && fs' == fs1)
            && (moved == None ==>
                  fs' == fs1
                  && (target in fs1
                      || (NoGoodExact(fs1, courseDir, moduleDir, name, broken)
                          && NoGoodRenumber(fs1, courseDir, moduleDir, name, broken))))
            && (moved.Some? ==>
                  var src := moved.value;
                  && CanMove(fs1, src, target) && src !in broken
                  && fs' == Move(fs1, src, target)
                  && (ExactSource(fs1, courseDir, moduleDir, name, src)
                      || (RenumberSource(fs1, courseDir, moduleDir, name, src)
                          && NoGoodExact(fs1, courseDir, moduleDir, name, broken))))
    ensures var fs1 := MkDirs(fs, moduleDir);
            var src := courseDir + [name];
            (target !in fs1 && courseDir != moduleDir && src in fs1 && courseDir in fs1
             && !MoveFails(src, target, broken)) ==> moved == Some(src)
  {
    target := Join(moduleDir, name);
    var fs1 := MkDirs(fs, moduleDir);
    MkDirsWellFormed(fs, moduleDir);
    moved := None;
    if target in fs1 {
      fs' := fs1;
      return;
    }
    assert name != [] && target == moduleDir + [name];
    var dirs := GetUniqueSearchDirs(fs1, courseDir, moduleDir);

    var exact := FindExactSource(fs1, dirs, moduleDir, name, target, broken);
    if exact.Some? {
      ExactFound(fs1, courseDir, moduleDir, name, dirs, exact.value);
      PlaceAt(fs1, exact.value, target, moduleDir, broken);
      return target, Move(fs1, exact.value, target), exact;
    }
    ExactExhausted(fs1, courseDir, moduleDir, name, dirs, broken);

    if RenumberGuard(name) {
      var suffix := name[4..];
      var renumbered := FindRenumberSource(fs1, dirs, moduleDir, suffix, target, broken);
      if renumbered.Some? {
        RenumberFound(fs1, courseDir, moduleDir, name, dirs, renumbered.value);
        PlaceAt(fs1, renumbered.value, target, moduleDir, broken);
        return target, Move(fs1, renumbered.value, target), renumbered;
      }
      RenumberExhausted(fs1, courseDir, moduleDir, name, dirs, broken);
    }
    fs' := fs1;
  }

  /** A movable source can be moved onto `moduleDir / name`, and the result
      is well formed and keeps the module directory. */
  lemma PlaceAt(fs: FileSystem, src: Path, target: Path, moduleDir: Path, broken: set<Path>)
    requires WellFormed(fs) && IsDir(fs, moduleDir) && |moduleDir| >= 1
    requires |target| == |moduleDir| + 1 && target[..|moduleDir|] == moduleDir && target !in fs
    requires Movable(fs, src, target, broken)
    ensures CanMove(fs, src, target) && src !in broken
    ensures WellFormed(Move(fs, src, target)) && IsDir(Move(fs, src, target), moduleDir)
  {
    assert Parent(target) == moduleDir;
    MoveWellFormed(fs, src, target);
    MoveKeepsDstParent(fs, src, target);
  }

  lemma ExactFound(fs: FileSystem, courseDir: Path, moduleDir: Path, name: Name, dirs: seq<Path>, src: Path)
    requires forall d :: d in dirs <==> d in SearchDirSet(fs, courseDir, moduleDir)
    requires exists j | 0 <= j < |dirs| :: dirs[j] != moduleDir && src == dirs[j] + [name]
    requires src in fs
    ensures ExactSource(fs, courseDir, moduleDir, name, src)
  {
    var j :| 0 <= j < |dirs| && dirs[j] != moduleDir && src == dirs[j] + [name];
    assert Parent(src) == dirs[j];
  }

  lemma ExactExhausted(fs: FileSystem, courseDir: Path, moduleDir: Path, name: Name, dirs: seq<Path>, broken: set<Path>)
    requires forall d :: d in dirs <==> d in SearchDirSet(fs, courseDir, moduleDir)
    requires forall j | 0 <= j < |dirs| && dirs[j] != moduleDir :: !Movable(fs, dirs[j] + [name], moduleDir + [name], broken)
    ensures NoGoodExact(fs, courseDir, moduleDir, name, broken)
  {
    forall src | ExactSource(fs, courseDir, moduleDir, name, src)
      ensures MoveFails(src, moduleDir + [name], broken)
    {
      SplitLast(src);
      var j :| 0 <= j < |dirs| && dirs[j] == Parent(src);
      assert !Movable(fs, dirs[j] + [name], moduleDir + [name], broken);
    }
  }

  lemma RenumberFound(fs: FileSystem, courseDir: Path, moduleDir: Path, name: Name, dirs: seq<Path>, src: Path)
    requires RenumberGuard(name)
    requires forall d :: d in dirs <==> d in SearchDirSet(fs, courseDir, moduleDir)
    requires exists j | 0 <= j < |dirs| :: RenumberDir(moduleDir, dirs[j]) && src in NumberedMatches(fs, dirs[j], name[4..])
    requires src != moduleDir + [name]
    ensures RenumberSource(fs, courseDir, moduleDir, name, src)
  {
    var j :| 0 <= j < |dirs| && RenumberDir(moduleDir, dirs[j]) && src in NumberedMatches(fs, dirs[j], name[4..]);
    assert Parent(src) == dirs[j];
  }

  lemma RenumberExhausted(fs: FileSystem, courseDir: Path, moduleDir: Path, name: Name, dirs: seq<Path>, broken: set<Path>)
    requires RenumberGuard(name)
    requires forall d :: d in dirs <==> d in SearchDirSet(fs, courseDir, moduleDir)
    requires forall j | 0 <= j < |dirs| && RenumberDir(moduleDir, dirs[j]) ::
               Exhausted(fs, dirs[j], name[4..], moduleDir + [name], broken)
    ensures NoGoodRenumber(fs, courseDir, moduleDir, name, broken)
  {
    forall src | RenumberSource(fs, courseDir, moduleDir, name, src)
      ensures MoveFails(src, moduleDir + [name], broken)
    {
      SplitLast(src);
      var j :| 0 <= j < |dirs| && dirs[j] == Parent(src);
      assert src in NumberedMatches(fs, dirs[j], name[4..]);
    }
  }

  // ---------------------------------------------------------------------
  // find_items
  // ---------------------------------------------------------------------

  /** A name matched by the glob `[0-9][0-9][0-9]_<slug>*`. */
  predicate SlugNamed(n: Name, slug: string)
  {
    |n| >= |slug| + 4 && IsDigit(n[0]) && IsDigit(n[1]) && IsDigit(n[2]) && n[3] == '_'
    && n[4..4 + |slug|] == slug
  }

  /** `sd.glob("[0-9][0-9][0-9]_<slug>*")`. */
  function SlugMatches(fs: FileSystem, sd: Path, slug: string): set<Path>
  {
    set k | k in Children(fs, sd) && SlugNamed(k[|sd|], slug)
  }

  /** An entry `find_items` reports for `slug`. */
  predicate FoundBySlug(fs: FileSystem, courseDir: Path, moduleDir: Path, slug: string, p: Path)
  {
    slug != [] && |p| >= 1 && p in fs && Parent(p) in SearchDirSet(fs, courseDir, moduleDir)
    && SlugNamed(p[|p| - 1], slug)
  }

  /** The entries of a set in the order a directory listing yields them. */
  method ListInSomeOrder(entries: set<Path>) returns (listed: seq<Path>)
    ensures Distinct(listed)
    ensures forall p :: p in listed <==> p in entries
  {
    listed := [];
    var pending := entries;
    while pending != {}
      invariant pending <= entries
      invariant Distinct(listed)
      invariant forall p :: p in listed <==> p in entries - pending
      decreases |pending|
    {
      var p :| p in pending;
      assert p !in listed;
      listed := listed + [p];
      pending := pending - {p};
    }
  }

  /** The de-duplication loop of `find_items`: keep the first occurrence of
      each path, in order. */
  method DedupeFirstSeen(all: seq<Path>) returns (found: seq<Path>)
    ensures found == Listing.Dedup(all)
  {
    found := [];
    var seen: set<Path> := {};
    var j := 0;
    while j < |all|
      invariant 0 <= j <= |all|
      invariant found == Listing.Dedup(all[..j])
      invariant forall p :: p in seen <==> p in all[..j]
    {
      var prefix := all[..j + 1];
      assert prefix[..j] == all[..j] && Last(prefix) == all[j];
      if all[j] !in seen {
        found := found + [all[j]];
        seen := seen + {all[j]};
      }
      assert forall p :: p in prefix <==> p in all[..j] || p == all[j];
      j := j + 1;
    }
    assert all[..j] == all;
  }

  lemma SlugMatchesIff(fs: FileSystem, sd: Path, slug: string, p: Path)
    ensures p in SlugMatches(fs, sd, slug) <==>
              |p| >= 1 && p in fs && Parent(p) == sd && SlugNamed(p[|p| - 1], slug)
  {
    if |p| >= 1 { SplitLast(p); }
  }

  /** Where the directory of `p` comes in the search order: its first
      position in `dirs`, or past the end when `p` is not in one of them. */
  function Rank(dirs: seq<Path>, p: Path): (r: nat)
    ensures r <= |dirs|
    ensures r < |dirs| <==> |p| >= 1 && Parent(p) in dirs
    ensures r < |dirs| ==> dirs[r] == Parent(p) && Parent(p) !in dirs[..r]
  {
    if |p| >= 1 && Parent(p) in dirs then IndexOf(dirs, Parent(p)) else |dirs|
  }

  /** The entries of `found` come directory by directory, in the order of
      `dirs`. */
  predicate InSearchOrder(dirs: seq<Path>, found: seq<Path>)
  {
    forall i, j | 0 <= i < j < |found| :: Rank(dirs, found[i]) <= Rank(dirs, found[j])
  }

  /** A search directory listed once has its own position as rank. */
  lemma RankOfDistinct(dirs: seq<Path>, k: nat, p: Path)
    requires Distinct(dirs) && k < |dirs| && |p| >= 1 && Parent(p) == dirs[k]
    ensures Rank(dirs, p) == k
  {
    IndexOfAt(dirs, dirs[k], k);
  }

  /** The slug globs of `find_items`, one search directory after another:
      the matches of each directory follow those of the directories before
      it. */
  method GlobAll(fs: FileSystem, dirs: seq<Path>, slug: string) returns (all: seq<Path>)
    ensures forall p :: p in all <==> |p| >= 1 && p in fs && Parent(p) in dirs && SlugNamed(p[|p| - 1], slug)
    ensures Distinct(dirs) ==> InSearchOrder(dirs, all)
  {
    all := [];
    var i := 0;
    while i < |dirs|
      invariant 0 <= i <= |dirs|
      invariant forall p :: p in all <==> |p| >= 1 && p in fs && Parent(p) in dirs[..i] && SlugNamed(p[|p| - 1], slug)
      invariant Distinct(dirs) ==> InSearchOrder(dirs, all) && forall p | p in all :: Rank(dirs, p) < i
    {
      var matches := ListInSomeOrder(SlugMatches(fs, dirs[i], slug));
      forall p
        ensures p in matches <==> |p| >= 1 && p in fs && Parent(p) == dirs[i] && SlugNamed(p[|p| - 1], slug)
      {
        SlugMatchesIff(fs, dirs[i], slug, p);
      }
      if Distinct(dirs) {
        forall p | p in matches
          ensures Rank(dirs, p) == i
        {
          RankOfDistinct(dirs, i, p);
        }
        forall p | p in all
          ensures Rank(dirs, p) < i
        {
        }
      }
      assert dirs[..i + 1] == dirs[..i] + [dirs[i]];
      all := all + matches;
      i := i + 1;
    }
    assert dirs[..i] == dirs;
  }

  /** `find_items`: with no URL or an empty slug nothing is found; otherwise
      exactly the `NNN_<slug>*` entries of the search directories, each
      once, in the order the directories are searched (the course, then
      this module, then the other modules). */
  method FindItems(fs: FileSystem, courseDir: Path, moduleDir: Path, itemUrl: string)
    returns (found: seq<Path>, ghost dirs: seq<Path>, ghost all: seq<Path>)
    ensures Distinct(found)
    ensures ExtractSlug(itemUrl) == [] ==> found == []
    ensures forall p :: p in found <==> FoundBySlug(fs, courseDir, moduleDir, ExtractSlug(itemUrl), p)
    ensures found == Listing.Dedup(all)
    ensures Distinct(dirs) && forall d :: d in dirs <==> d in SearchDirSet(fs, courseDir, moduleDir)
    ensures InSearchOrder(dirs, all) && InSearchOrder(dirs, found)
  {
    var globbed: seq<Path> := [];
    var slug := ExtractSlug(itemUrl);
    var searched := GetUniqueSearchDirs(fs, courseDir, moduleDir);
    if itemUrl != [] && slug != [] {
      globbed := GlobAll(fs, searched, slug);
    }
    found := DedupeFirstSeen(globbed);
    dirs, all := searched, globbed;
    DedupInOrder(dirs, all);
  }

  /** First-seen deduplication keeps the search order. */
  lemma DedupInOrder(dirs: seq<Path>, all: seq<Path>)
    requires InSearchOrder(dirs, all)
    ensures InSearchOrder(dirs, Listing.Dedup(all))
  {
    var found := Listing.Dedup(all);
    Listing.DedupOrder(all);
    forall a, b | 0 <= a < b < |found|
      ensures Rank(dirs, found[a]) <= Rank(dirs, found[b])
    {
      var i, j := IndexOf(all, found[a]), IndexOf(all, found[b]);
      assert all[i] == found[a] && all[j] == found[b] && i < j;
    }
  }

  // ---------------------------------------------------------------------
  // cleanup_stale_modules
  // ---------------------------------------------------------------------

  /** The number of a `module_<digits>` directory name: the name with every
      `module_` removed, when that is all digits. */
  function ModuleNumber(n: Name): (r: Option<nat>)
    ensures r.Some? ==> StartsWith(n, "module_")
  {
    var rest := ReplaceAll(n, "module_", "");
    if StartsWith(n, "module_") && IsAllDigits(rest) then Some(ParseNat(rest)) else None
  }

  /** A directory name numbered as a module outside `valid`. */
  predicate StaleName(n: Name, valid: set<nat>)
  {
    var num := ModuleNumber(n);
    num.Some? && num.value !in valid
  }

  /** A child directory of the course numbered outside `valid`. */
  predicate IsStale(fs: FileSystem, courseDir: Path, valid: set<nat>, d: Path)
  {
    d in Children(fs, courseDir) && fs[d].Dir? && StaleName(d[|courseDir|], valid)
  }

  function StaleModules(fs: FileSystem, courseDir: Path, valid: set<nat>): set<Path>
  {
    set d | d in Children(fs, courseDir) && IsStale(fs, courseDir, valid, d)
  }

  /** The tree with every subtree rooted in `roots` removed. */
  function RemoveAll(fs: FileSystem, roots: set<Path>): FileSystem
  {
    map k | k in fs && (forall d | d in roots :: !Under(d, k)) :: fs[k]
  }

  lemma RemoveAllStep(fs: FileSystem, roots: set<Path>, d: Path)
    ensures Remove(RemoveAll(fs, roots), d) == RemoveAll(fs, roots + {d})
  {
    var a := Remove(RemoveAll(fs, roots), d);
    var b := RemoveAll(fs, roots + {d});
    assert a.Keys == b.Keys;
  }

  /** `cleanup_stale_modules`: removes exactly the stale module directories
      whose deletion does not raise; does nothing when the course directory
      is absent. */
  method CleanupStaleModules(fs: FileSystem, courseDir: Path, valid: set<nat>, broken: set<Path>)
    returns (fs': FileSystem)
    requires WellFormed(fs) && |courseDir| >= 1 && !IsFile(fs, courseDir)
    ensures courseDir !in fs ==> fs' == fs
    ensures fs' == RemoveAll(fs, StaleModules(fs, courseDir, valid) - broken)
    ensures WellFormed(fs')
  {
    NoChildrenWhenAbsent(fs, courseDir);
    assert fs == RemoveAll(fs, {});
    if courseDir !in fs {
      return fs;
    }
    fs' := fs;
    var pending := Children(fs, courseDir);
    ghost var doomed := StaleModules(fs, courseDir, valid) - broken;
    ghost var removed: set<Path> := {};
    while pending != {}
      invariant pending <= Children(fs, courseDir)
      invariant removed <= Children(fs, courseDir)
      invariant removed == doomed - pending
      invariant fs' == RemoveAll(fs, removed)
      decreases |pending|
    {
      var item :| item in pending;
      SiblingsUntouched(fs, courseDir, removed, item);
      var stale := fs'[item].Dir? && StaleName(item[|courseDir|], valid);
      StaleMember(fs, courseDir, valid, item);
      CleanupStep(doomed, pending, removed, item);
      if stale && item !in broken {
        RemoveAllStep(fs, removed, item);
        fs' := Remove(fs', item);
        removed := removed + {item};
      }
      pending := pending - {item};
    }
    RemoveAllWellFormed(fs, removed);
  }

  /** In a well-formed tree a missing directory has no children. */
  lemma NoChildrenWhenAbsent(fs: FileSystem, d: Path)
    requires WellFormed(fs)
    ensures d !in fs && |d| >= 1 ==> Children(fs, d) == {}
  {
    forall k | k in Children(fs, d) && |d| >= 1
      ensures d in fs
    {
      assert k[..|k| - 1] == d;
    }
  }

  lemma StaleMember(fs: FileSystem, courseDir: Path, valid: set<nat>, item: Path)
    requires item in Children(fs, courseDir)
    ensures item in StaleModules(fs, courseDir, valid) <==> fs[item].Dir? && StaleName(item[|courseDir|], valid)
  {
  }

  /** One step of the cleanup loop keeps `removed` equal to the doomed
      directories already visited. */
  lemma CleanupStep(doomed: set<Path>, pending: set<Path>, removed: set<Path>, item: Path)
    requires item in pending && removed == doomed - pending
    ensures item in doomed ==> removed + {item} == doomed - (pending - {item})
    ensures item !in doomed ==> removed == doomed - (pending - {item})
  {
  }

  lemma RemoveAllWellFormed(fs: FileSystem, roots: set<Path>)
    requires WellFormed(fs)
    ensures WellFormed(RemoveAll(fs, roots))
  {
    var r := RemoveAll(fs, roots);
    forall k | k in r && |k| > 1
      ensures k[..|k| - 1] in r && r[k[..|k| - 1]] == Dir
    {
      var up := k[..|k| - 1];
      forall d | d in roots
        ensures !Under(d, up)
      {
      }
    }
  }

  /** Removing some children of a directory leaves the other children as
      they were. */
  lemma SiblingsUntouched(fs: FileSystem, courseDir: Path, removed: set<Path>, item: Path)
    requires removed <= Children(fs, courseDir) && item in Children(fs, courseDir) && item !in removed
    ensures item in RemoveAll(fs, removed) && RemoveAll(fs, removed)[item] == fs[item]
  {
    forall d | d in removed
      ensures !Under(d, item)
    {
      assert d != item;
    }
  }

  /** After cleanup every numbered module directory left in the course is a
      valid module or one whose deletion failed. */
  lemma CleanupLeavesValidModules(fs: FileSystem, courseDir: Path, valid: set<nat>, broken: set<Path>, d: Path)
    requires d in Children(RemoveAll(fs, StaleModules(fs, courseDir, valid) - broken), courseDir)
    requires IsDir(fs, d) && ModuleNumber(d[|courseDir|]).Some?
    ensures ModuleNumber(d[|courseDir|]).value in valid || d in broken
  {
    if ModuleNumber(d[|courseDir|]).value !in valid && d !in broken {
      assert d in StaleModules(fs, courseDir, valid);
      assert Under(d, d);
    }
  }

  // ---------------------------------------------------------------------
  // download_file
  // ---------------------------------------------------------------------

  /** Where `download_file` can write: nothing on the way to the parent is a
      file and the path itself is not a directory. */
  predicate Writable(fs: FileSystem, path: Path)
  {
    |path| >= 1 && NoFileOnPath(fs, Parent(path)) && !IsDir(fs, path)
  }

  /** `download_file`; `response` is the body length the server sends, or
      None when the request fails. */
  method DownloadFile(fs: FileSystem, path: Path, response: Option<nat>) returns (ok: bool, fs': FileSystem)
    requires WellFormed(fs) && |path| >= 1
    ensures IsNonEmptyFile(fs, path) ==> ok && fs' == fs
    ensures ok <==> IsNonEmptyFile(fs, path) || (response.Some? && Writable(fs, path))
    ensures !ok ==> fs' == fs
    ensures ok && !IsNonEmptyFile(fs, path) ==>
              fs' == MkDirs(fs, Parent(path))[path := File(response.value)]
    ensures ok ==> IsFile(fs', path)
    ensures WellFormed(fs') && ConfinedTo(fs, fs', path)
  {
    if IsNonEmptyFile(fs, path) {
      return true, fs;
    }
    if response.None? || !Writable(fs, path) {
      return false, fs;
    }
    var parent := Parent(path);
    fs' := MkDirs(fs, parent)[path := File(response.value)];
    WriteConfined(fs, parent, path, response.value);
    ok := true;
    if |parent| >= 1 {
      MkDirsWellFormed(fs, parent);
    } else {
      assert MkDirs(fs, parent) == fs;
    }
  }

  /** `download_file` onto a path that does not exist yet: it succeeds
      exactly when the server answers and the path can be written, and it
      only ever adds entries. */
  method FetchNew(fs: FileSystem, path: Path, response: Option<nat>) returns (ok: bool, fs': FileSystem)
    requires WellFormed(fs) && |path| >= 1 && path !in fs
    ensures ok <==> response.Some? && Writable(fs, path)
    ensures ok ==> fs' == MkDirs(fs, Parent(path))[path := File(response.value)]
    ensures !ok ==> fs' == fs
    ensures Extends(fs, fs') && WellFormed(fs') && ConfinedTo(fs, fs', path)
    ensures NoFileOnPath(fs, Parent(path)) ==> NoFileOnPath(fs', Parent(path))
  {
    ok, fs' := DownloadFile(fs, path, response);
  }

  /** `download_file` of a new file into a directory with no file on its
      way: it succeeds exactly when the server answers. */
  method FetchInto(fs: FileSystem, dir: Path, name: Name, response: Option<nat>) returns (ok: bool, fs': FileSystem)
    requires WellFormed(fs) && NoFileOnPath(fs, dir) && dir + [name] !in fs
    ensures ok <==> response.Some?
    ensures ok ==> dir + [name] in fs'
    ensures !ok ==> fs' == fs
    ensures Extends(fs, fs') && WellFormed(fs') && NoFileOnPath(fs', dir)
    ensures ConfinedTo(fs, fs', dir + [name])
  {
    var path := dir + [name];
    assert Parent(path) == dir;
    ok, fs' := FetchNew(fs, path, response);
  }

  /** Nothing is at `moduleDir/name` and nothing could be moved there:
      every candidate that `get_or_move_path` would try fails to move. */
  ghost predicate Vacant(fs: FileSystem, courseDir: Path, moduleDir: Path, name: Name, broken: set<Path>)
  {
    var fs1 := MkDirs(fs, moduleDir);
    Join(moduleDir, name) !in fs1
    && NoGoodExact(fs1, courseDir, moduleDir, name, broken) && NoGoodRenumber(fs1, courseDir, moduleDir, name, broken)
  }

  /** An entry that `get_or_move_path` may return for `name`: the target
      itself, or a source it tries to move there. */
  ghost predicate Candidate(fs: FileSystem, courseDir: Path, moduleDir: Path, name: Name, src: Path)
  {
    (src == Join(moduleDir, name) && src in fs)
    || ExactSource(fs, courseDir, moduleDir, name, src) || RenumberSource(fs, courseDir, moduleDir, name, src)
  }

  /** Placing `name` never takes `x` out of the module directory: `x` is
      the target itself or no renumbering candidate of it. */
  predicate Spared(name: Name, x: Name)
  {
    x == name || !(RenumberGuard(name) && NumberedAs(x, name[4..]))
  }

  /** Every entry of `moduleDir` that placing `name` spares is still there,
      unchanged. */
  ghost predicate ModuleKept(fs: FileSystem, fs': FileSystem, moduleDir: Path, name: Name)
  {
    forall x {:trigger Join(moduleDir, x)} | x != [] && Join(moduleDir, x) in fs && Spared(name, x) ::
      Join(moduleDir, x) in fs' && fs'[Join(moduleDir, x)] == fs[Join(moduleDir, x)]
  }

  /** `get_or_move_path` as its callers rely on it: the returned path; an
      item found at the target or under an older layout is what the target
      holds afterwards, and the target stays empty only when nothing could
      be moved there; the rest of the module directory is kept, and the
      module directory stays usable. */
  method PlaceInModule(fs: FileSystem, courseDir: Path, moduleDir: Path, name: Name, broken: set<Path>)
    returns (path: Path, fs': FileSystem)
    requires WellFormed(fs) && |moduleDir| >= 1 && NoFileOnPath(fs, moduleDir)
    ensures path == Join(moduleDir, name)
    ensures WellFormed(fs') && IsDir(fs', moduleDir) && NoFileOnPath(fs', moduleDir)
    ensures ConfinedTo(fs, fs', path) && ConfinedTo(fs, fs', moduleDir)
    ensures path in MkDirs(fs, moduleDir) ==> fs' == MkDirs(fs, moduleDir)
    ensures Vacant(fs, courseDir, moduleDir, name, broken) ==> path !in fs'
    ensures !Vacant(fs, courseDir, moduleDir, name, broken) ==>
              path in fs'
              && exists src :: Candidate(MkDirs(fs, moduleDir), courseDir, moduleDir, name, src)
                               && fs'[path] == MkDirs(fs, moduleDir)[src]
    ensures ModuleKept(fs, fs', moduleDir, name)
  {
    ghost var moved;
    path, fs', moved := GetOrMovePath(fs, courseDir, moduleDir, name, broken);
    DirNoFileOnPath(fs', moduleDir);
    var fs1 := MkDirs(fs, moduleDir);
    MkDirsConfined(fs, moduleDir, path);
    if moved.Some? {
      MoveConfined(fs1, moved.value, path);
      ConfinedTrans(fs, fs1, fs', path);
      VacantNotMoved(fs1, courseDir, moduleDir, name, broken, moved.value);
      MovedIn(fs, fs1, fs', courseDir, moduleDir, name, moved.value);
    } else {
      assert path in fs1 ==> Candidate(fs1, courseDir, moduleDir, name, path);
    }
    assert Join(moduleDir, name)[..|moduleDir|] == moduleDir;
    ConfinedWiden(fs, fs', moduleDir, path);
  }

  /** A successful move puts the source's entry at the target and keeps the
      module entries it spares. */
  lemma MovedIn(fs: FileSystem, fs1: FileSystem, fs': FileSystem, courseDir: Path, moduleDir: Path, name: Name, src: Path)
    requires fs1 == MkDirs(fs, moduleDir) && CanMove(fs1, src, Join(moduleDir, name)) && fs' == Move(fs1, src, Join(moduleDir, name))
    requires ExactSource(fs1, courseDir, moduleDir, name, src) || RenumberSource(fs1, courseDir, moduleDir, name, src)
    ensures Join(moduleDir, name) in fs' && fs'[Join(moduleDir, name)] == fs1[src]
    ensures Candidate(fs1, courseDir, moduleDir, name, src)
    ensures ModuleKept(fs, fs', moduleDir, name)
  {
    var target := Join(moduleDir, name);
    MoveEffect(fs1, src, target);
    forall x | x != [] && Join(moduleDir, x) in fs && Spared(name, x)
      ensures Join(moduleDir, x) in fs' && fs'[Join(moduleDir, x)] == fs[Join(moduleDir, x)]
    {
      SparedNotUnder(fs1, courseDir, moduleDir, name, src, x);
    }
  }

  /** The source of a successful move contains no spared module entry. */
  lemma SparedNotUnder(fs1: FileSystem, courseDir: Path, moduleDir: Path, name: Name, src: Path, x: Name)
    requires CanMove(fs1, src, Join(moduleDir, name)) && x != [] && Spared(name, x)
    requires ExactSource(fs1, courseDir, moduleDir, name, src) || RenumberSource(fs1, courseDir, moduleDir, name, src)
    ensures !Under(src, Join(moduleDir, x))
  {
  }

  /** No move into a vacant target succeeds. */
  lemma VacantNotMoved(fs1: FileSystem, courseDir: Path, moduleDir: Path, name: Name, broken: set<Path>, src: Path)
    requires CanMove(fs1, src, Join(moduleDir, name)) && src !in broken
    requires ExactSource(fs1, courseDir, moduleDir, name, src) || RenumberSource(fs1, courseDir, moduleDir, name, src)
    ensures !(NoGoodExact(fs1, courseDir, moduleDir, name, broken) && NoGoodRenumber(fs1, courseDir, moduleDir, name, broken))
  {
  }

}
