/** Jupyter lab items: the folder a lab is saved in, the button that opens
    the lab, and the helpers that move lab files into the shared asset
    folder and point the notebooks at their new place. */
module Lab {
  import opened Base
  import opened Fs
  import opened Utils
  import opened Files

  // ---------------------------------------------------------------------
  // The lab folder
  // ---------------------------------------------------------------------

  /** The item id: the last `/`-segment of the URL, without its query,
      cut to ten characters. */
  function ItemId(url: string): (r: string)
    ensures |r| <= 10 && '/' !in r && '?' !in r
  {
    var segment := Last(Split(url, '/'));
    var id := Take(BeforeFirst(segment, '?'), 10);
    PrefixLacks(segment, BeforeFirst(segment, '?'), '/');
    PrefixLacks(BeforeFirst(segment, '?'), id, '/');
    PrefixLacks(BeforeFirst(segment, '?'), id, '?');
    id
  }

  lemma PrefixLacks(s: string, p: string, c: char)
    requires StartsWith(s, p) && c !in s
    ensures c !in p
  {
    forall i | 0 <= i < |p| ensures p[i] != c {
      assert p[i] == s[..|p|][i];
    }
  }

  /** For a URL `.../<segment>?<query>` the id is the start of the segment. */
  lemma ItemIdOfSegment(prefix: string, segment: string, query: string)
    requires '/' !in segment && '?' !in segment && '/' !in query
    ensures ItemId(prefix + "/" + segment + "?" + query) == Take(segment, 10)
  {
    var rest := segment + "?" + query;
    assert prefix + "/" + segment + "?" + query == prefix + ['/'] + rest;
    SplitConcat(prefix, '/', rest);
    assert '/' !in rest by {
      forall i | 0 <= i < |rest| ensures rest[i] != '/' {
        if i < |segment| { assert rest[i] == segment[i]; }
        else if i > |segment| { assert rest[i] == query[i - |segment| - 1]; }
      }
    }
    SplitNone(rest, '/');
    assert rest == segment + ['?'] + query;
    BeforeFirstAt(segment, '?', query);
  }

  /** `f"{counter:03d}_{sanitize_filename(title)}_{item_id}"`. */
  function LabFolder(counter: nat, title: string, url: string): Name
  {
    Pad3(counter) + "_" + (SanitizeFilename(title) + "_" + ItemId(url))
  }

  /** Below a thousand items the folder carries the three-digit number
      the renumbering pass looks for. */
  lemma LabFolderNumbered(counter: nat, title: string, url: string)
    requires counter < 1000
    ensures NumberedAs(LabFolder(counter, title, url), SanitizeFilename(title) + "_" + ItemId(url))
  {
    NumberedConcat(Pad3(counter), SanitizeFilename(title) + "_" + ItemId(url));
  }

  lemma NumberedConcat(p: string, suffix: string)
    requires |p| == 3 && IsAllDigits(p)
    ensures NumberedAs(p + "_" + suffix, suffix)
  {
    var n := p + "_" + suffix;
    assert n[0] == p[0] && n[1] == p[1] && n[2] == p[2];
    assert n[4..] == suffix;
  }

  /** `_prepare_target_dir`: `mkdir -p` of the lab folder, which fails when
      a file lies on its path. */
  method PrepareTargetDir(fs: FileSystem, moduleDir: Path, counter: nat, title: string, url: string)
    returns (labDir: Path, fs': FileSystem, raised: bool)
    requires WellFormed(fs)
    ensures labDir == moduleDir + [LabFolder(counter, title, url)]
    ensures raised <==> !NoFileOnPath(fs, labDir)
    ensures raised ==> fs' == fs
    ensures !raised ==> fs' == MkDirs(fs, labDir) && WellFormed(fs') && IsDir(fs', labDir)
  {
    labDir := moduleDir + [LabFolder(counter, title, url)];
    if NoFileOnPath(fs, labDir) {
      MkDirsWellFormed(fs, labDir);
      fs', raised := MkDirs(fs, labDir), false;
    } else {
      fs', raised := fs, true;
    }
  }

  /** `any(lab_dir.rglob("*.ipynb"))`: some entry strictly inside the lab
      folder has a name ending in `.ipynb`. */
  predicate HasNotebook(fs: FileSystem, labDir: Path)
  {
    exists p | p in fs && Under(labDir, p) && |p| > |labDir| :: EndsWith(Last(p), ".ipynb")
  }

  /** Creating the lab folder adds nothing inside it, so it never makes a
      notebook appear. */
  lemma MkDirsAddsNoNotebook(fs: FileSystem, labDir: Path)
    ensures HasNotebook(MkDirs(fs, labDir), labDir) <==> HasNotebook(fs, labDir)
  {
    var r := MkDirs(fs, labDir);
    if HasNotebook(r, labDir) {
      var p :| p in r && Under(labDir, p) && |p| > |labDir| && EndsWith(Last(p), ".ipynb");
      assert p !in Prefixes(labDir);
    }
  }

  // ---------------------------------------------------------------------
  // Launching the lab
  // ---------------------------------------------------------------------

  /** The buttons and links tried, in order, to open the lab. */
  const LaunchSelectors: seq<string> := [
    "//button[contains(., 'Open Tool')]",
    "//a[contains(., 'Open Tool')]",
    "//button[contains(., 'Launch')]",
    "//a[contains(., 'Launch')]",
    "//button[contains(., 'Start Lab')]"
  ]

  /** `_launch_lab`. `find(s)` is `None` when selector `s` finds nothing,
      else whether the element found is displayed.  The first displayed
      element is clicked. */
  method LaunchLab(find: string -> Option<bool>) returns (clicked: bool, at: int)
    ensures clicked <==> exists i | 0 <= i < |LaunchSelectors| :: find(LaunchSelectors[i]) == Some(true)
    ensures clicked ==> 0 <= at < |LaunchSelectors| && find(LaunchSelectors[at]) == Some(true)
                        && forall i | 0 <= i < at :: find(LaunchSelectors[i]) != Some(true)
    ensures !clicked ==> at == -1
  {
    for k := 0 to |LaunchSelectors|
      invariant forall i | 0 <= i < k :: find(LaunchSelectors[i]) != Some(true)
    {
      var displayed := find(LaunchSelectors[k]);
      if displayed == Some(true) {
        return true, k;
      }
    }
    return false, -1;
  }

  /** `LabExtractor.process`.  Lab downloading is not implemented in the
      extractor: it always reports zero files, so the item never counts as
      downloaded. */
  method Process(fs: FileSystem, moduleDir: Path, counter: nat, title: string, url: string,
                 find: string -> Option<bool>)
    returns (ok: bool, count: nat, launched: bool, labDir: Path, fs': FileSystem, raised: bool)
    requires WellFormed(fs)
    ensures labDir == moduleDir + [LabFolder(counter, title, url)]
    ensures raised <==> !NoFileOnPath(fs, labDir)
    ensures raised ==> fs' == fs
    ensures !raised ==> fs' == MkDirs(fs, labDir) && WellFormed(fs') && IsDir(fs', labDir)
    ensures launched <==> !raised && !HasNotebook(fs, labDir)
                          && exists i | 0 <= i < |LaunchSelectors| :: find(LaunchSelectors[i]) == Some(true)
    ensures ok <==> count > 0
    ensures count == 0
  {
    ok, count, launched := false, 0, false;
    labDir, fs', raised := PrepareTargetDir(fs, moduleDir, counter, title, url);
    if raised {
      return;
    }
    MkDirsAddsNoNotebook(fs, labDir);
    if HasNotebook(fs', labDir) {
      return;
    }
    var at;
    launched, at := LaunchLab(find);
    if !launched {
      return;
    }
    // `_download_lab_assets` returns 0 whether or not the interface loads.
    var downloaded := 0;
    ok, count := downloaded > 0, downloaded;
  }

  // ---------------------------------------------------------------------
  // Moving lab files into the shared folder
  // ---------------------------------------------------------------------

  /** `f"{h}_{item.name}"`, `h` the first twelve hex digits of the md5 of
      the file's content. */
  function SharedName(digest: string, name: Name): Name
  {
    Take(digest, 12) + "_" + name
  }

  /** `str(item.relative_to(lab_dir)).replace("\\", "/")`, or `None` where
      `relative_to` raises `ValueError`. */
  function RelativeTo(item: Path, labDir: Path): Option<string>
  {
    if !Under(labDir, item) then None
    else if item == labDir then Some(".")
    else Some(MapChar(JoinWith(item[|labDir|..], "/"), '\\', '/'))
  }

  /** `_migrate_to_shared`: copy a lab file into the shared lab folder
      unless a file of that name is already there, record its relative path
      and its name as moved, and delete it.  `digest` is the md5 of its
      content.  An item that cannot be opened as a file gives `None`. */
  method MigrateToShared(fs: FileSystem, labsDir: Path, item: Path, labDir: Path, digest: string, repl: Assoc)
    returns (shared: Option<Name>, repl': Assoc, fs': FileSystem)
    requires WellFormed(fs) && IsDir(fs, labsDir) && |item| >= 1 && DistinctKeys(repl)
    ensures WellFormed(fs') && DistinctKeys(repl')
    ensures !IsFile(fs, item) ==> shared == None && repl' == repl && fs' == fs
    ensures IsFile(fs, item) ==>
              var name := SharedName(digest, Last(item));
              var target := labsDir + [name];
              && shared == Some(name)
              && item !in fs'
              && (target != item ==> target in fs' && fs'[target] == if target in fs then fs[target] else fs[item])
              && (forall p | p in fs' :: p in fs || p == target)
              && (forall p | p in fs && p != item && p != target :: p in fs' && fs'[p] == fs[p])
              && Get(repl', Last(item)) == Some(name)
              && (RelativeTo(item, labDir).Some? ==> Get(repl', RelativeTo(item, labDir).value) == Some(name))
              && (forall k | k != Last(item) && RelativeTo(item, labDir) != Some(k) :: Get(repl', k) == Get(repl, k))
  {
    if !IsFile(fs, item) {
      return None, repl, fs;
    }
    var name := SharedName(digest, Last(item));
    var target := labsDir + [name];
    var copied := fs;
    if target !in fs {
      WriteWellFormed(fs, target, fs[item].size);
      copied := fs[target := fs[item]];
    }
    UnlinkWellFormed(copied, item);
    repl' := Recorded(repl, RelativeTo(item, labDir), Last(item), name);
    forall k ensures Get(repl', k) == (if k == Last(item) || RelativeTo(item, labDir) == Some(k) then Some(name) else Get(repl, k)) {
      RecordedGet(repl, RelativeTo(item, labDir), Last(item), name, k);
    }
    fs' := copied - {item};
    shared := Some(name);
  }

  /** The two entries `_migrate_to_shared` records: the path relative to the
      lab folder, when there is one, and then the bare file name, both
      mapped to the shared name. */
  function Recorded(repl: Assoc, rel: Option<string>, base: string, name: string): (r: Assoc)
    requires DistinctKeys(repl)
    ensures DistinctKeys(r)
  {
    Put(if rel.Some? then Put(repl, rel.value, name) else repl, base, name)
  }

  /** Both recorded keys give the shared name; every other key keeps its
      value. */
  lemma RecordedGet(repl: Assoc, rel: Option<string>, base: string, name: string, k: string)
    requires DistinctKeys(repl)
    ensures Get(Recorded(repl, rel, base, name), k)
            == (if k == base || rel == Some(k) then Some(name) else Get(repl, k))
  {
    var withRel := if rel.Some? then Put(repl, rel.value, name) else repl;
    PutGet(withRel, base, name, k);
    if rel.Some? {
      PutGet(repl, rel.value, name, k);
    }
  }

  // ---------------------------------------------------------------------
  // re.sub with an escaped pattern
  // ---------------------------------------------------------------------

  /** The text `re.sub` inserts for a replacement template: each pair of
      backslashes gives one backslash, every other character stands for
      itself. */
  function Template(t: string): (r: string)
    ensures |r| <= |t|
    decreases |t|
  {
    if |t| >= 2 && t[0] == '\\' && t[1] == '\\' then "\\" + Template(t[2..])
    else if t == [] then []
    else [t[0]] + Template(t[1..])
  }

  /** Without backslashes a template is the text itself. */
  lemma {:induction false} TemplatePlain(t: string)
    requires '\\' !in t
    ensures Template(t) == t
    decreases |t|
  {
    if t != [] {
      assert '\\' !in t[1..];
      TemplatePlain(t[1..]);
    }
  }

  /** `re.sub("", rep, s)`: the empty pattern matches before every
      character and at the end. */
  function EveryGap(s: string, rep: string): (r: string)
    ensures |r| == |s| + (|s| + 1) * |rep|
  {
    if s == [] then rep else rep + [s[0]] + EveryGap(s[1..], rep)
  }

  /** `_regex_replace_path`: `re.sub(re.escape(key), rep, line)`; the
      escaped pattern matches `key` literally, left to right without
      overlaps. */
  function Sub(line: string, key: string, rep: string): string
  {
    if key == [] then EveryGap(line, Template(rep)) else ReplaceAll(line, key, Template(rep))
  }

  /** A line without the pattern is left as it is. */
  lemma SubAbsent(line: string, key: string, rep: string)
    requires key != [] && !Contains(line, key)
    ensures Sub(line, key, rep) == line
  {
    ReplaceAbsent(line, key, Template(rep));
  }

  /** `s.replace("/", "\\\\")`: every slash becomes two backslashes. */
  function Backslashed(s: string): string
  {
    ReplaceAll(s, "/", "\\\\")
  }

  /** Without a slash nothing changes; with one, a backslash appears. */
  lemma {:induction false} BackslashedShape(s: string)
    ensures '/' !in s ==> Backslashed(s) == s
    ensures '/' in s ==> '\\' in Backslashed(s)
    decreases |s|
  {
    if s != [] {
      BackslashedShape(s[1..]);
      var r := Backslashed(s);
      if s[0] == '/' {
        assert s[..1] == "/";
        assert r[0] == '\\';
      } else {
        assert s[..1] != "/";
        assert r == [s[0]] + Backslashed(s[1..]);
        if '/' in s[1..] {
          var j :| 0 <= j < |Backslashed(s[1..])| && Backslashed(s[1..])[j] == '\\';
          assert r[j + 1] == '\\';
        }
      }
    }
  }

  /** Read back as a template, a doubled-backslash path is the path with
      single backslashes for its slashes. */
  lemma {:induction false} TemplateOfBackslashed(s: string)
    requires '\\' !in s
    ensures Template(Backslashed(s)) == MapChar(s, '/', '\\')
    decreases |s|
  {
    if s != [] {
      assert '\\' !in s[1..];
      TemplateOfBackslashed(s[1..]);
      var tail := Backslashed(s[1..]);
      if s[0] == '/' {
        assert s[..1] == "/";
        assert Backslashed(s) == "\\\\" + tail;
        assert ("\\\\" + tail)[2..] == tail;
      } else {
        assert s[..1] != "/";
        assert Backslashed(s) == [s[0]] + tail;
        assert ([s[0]] + tail)[1..] == tail;
      }
    }
  }

  // ---------------------------------------------------------------------
  // The final replacement map
  // ---------------------------------------------------------------------

  const SharedLabs := "shared_assets/labs/"

  /** `f"{dots}shared_assets/labs/{shared}"`. */
  function NewRel(dots: string, shared: string): string
  {
    dots + SharedLabs + shared
  }

  /** One pass of the loop in `_prepare_final_replacements`: map `key` to its
      new path and add the backslash form of both.  `asWritten` adds the
      backslash form for every key, as the source does; otherwise it is
      added only for keys with a slash, where it is a different key. */
  function FinalStep(acc: Assoc, key: string, nr: string, asWritten: bool): (r: Assoc)
    requires DistinctKeys(acc)
    ensures DistinctKeys(r)
  {
    var a := Put(acc, key, nr);
    if asWritten || '/' in key then Put(a, Backslashed(key), Backslashed(nr)) else a
  }

  function Finals(repl: Assoc, dots: string, asWritten: bool): (r: Assoc)
    ensures DistinctKeys(r)
    decreases |repl|
  {
    if repl == [] then []
    else
      var (key, shared) := Last(repl);
      FinalStep(Finals(repl[..|repl| - 1], dots, asWritten), key, NewRel(dots, shared), asWritten)
  }

  lemma NewRelPlain(dots: string, shared: string)
    requires '\\' !in dots && '\\' !in shared
    ensures '\\' !in NewRel(dots, shared)
  {
    var nr := NewRel(dots, shared);
    forall j | 0 <= j < |nr| ensures nr[j] != '\\' {
      if j < |dots| { assert nr[j] == dots[j]; }
      else if j < |dots| + |SharedLabs| { assert nr[j] == SharedLabs[j - |dots|]; }
      else { assert nr[j] == shared[j - |dots| - |SharedLabs|]; }
    }
  }

  /** The new path always has a slash, so turning slashes into backslashes
      changes it. */
  lemma NewRelHasSlash(dots: string, shared: string)
    ensures MapChar(NewRel(dots, shared), '/', '\\') != NewRel(dots, shared)
  {
    var nr := NewRel(dots, shared);
    var at := |dots| + 13;
    assert nr[at] == SharedLabs[13] == '/';
    assert MapChar(nr, '/', '\\')[at] != nr[at];
  }

  /** `_prepare_final_replacements` as written. */
  function FinalAsWritten(repl: Assoc, dots: string): Assoc
  {
    Finals(repl, dots, true)
  }

  /** `_prepare_final_replacements` with the backslash form added only
      where it differs from the key. */
  function Final(repl: Assoc, dots: string): Assoc
  {
    Finals(repl, dots, false)
  }

  /** A later pass for another key leaves a backslash-free key alone. */
  lemma FinalStepKeeps(acc: Assoc, key: string, nr: string, asWritten: bool, k: string)
    requires DistinctKeys(acc) && key != k && '\\' !in k
    ensures Get(FinalStep(acc, key, nr, asWritten), k) == Get(acc, k)
  {
    PutGet(acc, key, nr, k);
    BackslashedShape(key);
    if asWritten || '/' in key {
      PutGet(Put(acc, key, nr), Backslashed(key), Backslashed(nr), k);
    }
  }

  /** What a backslash-free key of the input maps to in the final map. */
  lemma {:induction false} FinalsAt(repl: Assoc, dots: string, asWritten: bool, i: int)
    requires DistinctKeys(repl) && 0 <= i < |repl| && '\\' !in repl[i].0
    ensures Get(Finals(repl, dots, asWritten), repl[i].0)
            == Some(if asWritten && '/' !in repl[i].0 then Backslashed(NewRel(dots, repl[i].1))
                    else NewRel(dots, repl[i].1))
    decreases |repl|
  {
    var n := |repl| - 1;
    var acc := Finals(repl[..n], dots, asWritten);
    var (key, shared) := repl[n];
    var k := repl[i].0;
    assert Finals(repl, dots, asWritten) == FinalStep(acc, key, NewRel(dots, shared), asWritten);
    if i == n {
      var nr := NewRel(dots, shared);
      PutGet(acc, k, nr, k);
      BackslashedShape(k);
      if asWritten || '/' in k {
        PutGet(Put(acc, k, nr), Backslashed(k), Backslashed(nr), k);
      }
    } else {
      assert repl[..n][i] == repl[i];
      FinalsAt(repl[..n], dots, asWritten, i);
      FinalStepKeeps(acc, key, NewRel(dots, shared), asWritten, k);
    }
  }

  /** As written, a bare file name (no slash) is mapped to the doubled
      backslash form of its new path, which `re.sub` writes into the
      notebook as a path with backslashes, not the new relative path. */
  lemma BareNameGetsBackslashes(repl: Assoc, dots: string, i: int)
    requires DistinctKeys(repl) && 0 <= i < |repl|
    requires '/' !in repl[i].0 && '\\' !in repl[i].0 && '\\' !in dots && '\\' !in repl[i].1
    ensures var got := Get(FinalAsWritten(repl, dots), repl[i].0);
            && got.Some?
            && Template(got.value) == MapChar(NewRel(dots, repl[i].1), '/', '\\')
            && Template(got.value) != NewRel(dots, repl[i].1)
  {
    var nr := NewRel(dots, repl[i].1);
    FinalsAt(repl, dots, true, i);
    assert Get(FinalAsWritten(repl, dots), repl[i].0) == Some(Backslashed(nr));
    NewRelPlain(dots, repl[i].1);
    TemplateOfBackslashed(nr);
    NewRelHasSlash(dots, repl[i].1);
  }

  /** With the correction every backslash-free key keeps its new relative
      path, which `re.sub` writes unchanged. */
  lemma FinalKeepsNewPath(repl: Assoc, dots: string, i: int)
    requires DistinctKeys(repl) && 0 <= i < |repl|
    requires '\\' !in repl[i].0 && '\\' !in dots && '\\' !in repl[i].1
    ensures Get(Final(repl, dots), repl[i].0) == Some(NewRel(dots, repl[i].1))
    ensures Template(NewRel(dots, repl[i].1)) == NewRel(dots, repl[i].1)
  {
    var nr := NewRel(dots, repl[i].1);
    FinalsAt(repl, dots, false, i);
    NewRelPlain(dots, repl[i].1);
    TemplatePlain(nr);
  }

  /** The loop of `_prepare_final_replacements`, corrected. */
  method PrepareFinalReplacements(repl: Assoc, dots: string) returns (final: Assoc)
    ensures final == Final(repl, dots)
  {
    final := [];
    for i := 0 to |repl|
      invariant final == Final(repl[..i], dots)
    {
      var (key, shared) := repl[i];
      var nr := NewRel(dots, shared);
      final := Put(final, key, nr);
      if '/' in key {
        final := Put(final, Backslashed(key), Backslashed(nr));
      }
      assert repl[..i + 1][..i] == repl[..i];
    }
    assert repl[..|repl|] == repl;
  }

  // ---------------------------------------------------------------------
  // Rewriting the notebook
  // ---------------------------------------------------------------------

  /** The inner loop of `_apply_replacements_to_notebook`: every pair of the
      final map, in order, rewrites the line. */
  function Rewrite(line: string, final: Assoc): string
    decreases |final|
  {
    if final == [] then line else Rewrite(Sub(line, final[0].0, final[0].1), final[1..])
  }

  /** A line that mentions none of the keys is left as it is. */
  lemma {:induction false} RewriteAbsent(line: string, final: Assoc)
    requires forall i | 0 <= i < |final| :: final[i].0 != [] && !Contains(line, final[i].0)
    ensures Rewrite(line, final) == line
    decreases |final|
  {
    if final != [] {
      SubAbsent(line, final[0].0, final[0].1);
      assert forall i | 0 <= i < |final[1..]| :: final[1..][i] == final[i + 1];
      RewriteAbsent(line, final[1..]);
    }
  }

  method RewriteLine(line: string, final: Assoc) returns (r: string)
    ensures r == Rewrite(line, final)
  {
    r := line;
    for i := 0 to |final|
      invariant Rewrite(r, final[i..]) == Rewrite(line, final)
    {
      assert final[i..][1..] == final[i + 1..];
      r := Sub(r, final[i].0, final[i].1);
    }
  }

  /** A cell's `source`: a list of lines, or anything else (a string, or no
      source), which is left alone. */
  datatype Cell = ListSource(lines: seq<string>) | OtherSource

  function RewriteCell(c: Cell, final: Assoc): (r: Cell)
    ensures r.ListSource? <==> c.ListSource?
    ensures r.ListSource? ==> |r.lines| == |c.lines|
                              && forall i | 0 <= i < |c.lines| :: r.lines[i] == Rewrite(c.lines[i], final)
  {
    match c
    case ListSource(lines) =>
      ListSource(seq(|lines|, i requires 0 <= i < |lines| => Rewrite(lines[i], final)))
    case OtherSource => c
  }

  function RewriteCells(cells: seq<Cell>, final: Assoc): (r: seq<Cell>)
    ensures |r| == |cells| && forall i | 0 <= i < |cells| :: r[i] == RewriteCell(cells[i], final)
  {
    seq(|cells|, i requires 0 <= i < |cells| => RewriteCell(cells[i], final))
  }

  /** The lines of one cell, rewritten; `changed` tells whether any line
      differs. */
  method RewriteSource(lines: seq<string>, final: Assoc) returns (newSrc: seq<string>, changed: bool)
    ensures ListSource(newSrc) == RewriteCell(ListSource(lines), final)
    ensures changed <==> newSrc != lines
  {
    newSrc, changed := [], false;
    for i := 0 to |lines|
      invariant |newSrc| == i
      invariant forall j | 0 <= j < i :: newSrc[j] == Rewrite(lines[j], final)
      invariant changed <==> exists j | 0 <= j < i :: newSrc[j] != lines[j]
    {
      var line := RewriteLine(lines[i], final);
      if line != lines[i] {
        changed := true;
      }
      newSrc := newSrc + [line];
    }
    ghost var cell := RewriteCell(ListSource(lines), final);
    assert cell.lines == newSrc;
    if changed {
      ghost var j :| 0 <= j < |lines| && newSrc[j] != lines[j];
    }
  }

  /** A parsed notebook: its `cells` list (`[]` when the key is missing). */
  class Notebook {
    var cells: seq<Cell>

    constructor(cells: seq<Cell>)
      ensures this.cells == cells
    {
      this.cells := cells;
    }

    /** `_apply_replacements_to_notebook`: rewrite every list source in
        place; the result tells whether any line changed. */
    method ApplyReplacements(final: Assoc) returns (updated: bool)
      modifies this
      ensures cells == RewriteCells(old(cells), final)
      ensures updated <==> cells != old(cells)
    {
      updated := false;
      var i := 0;
      while i < |cells|
        invariant 0 <= i <= |cells| == |old(cells)|
        invariant forall j | 0 <= j < i :: cells[j] == RewriteCell(old(cells)[j], final)
        invariant forall j | i <= j < |cells| :: cells[j] == old(cells)[j]
        invariant updated <==> exists j | 0 <= j < i :: cells[j] != old(cells)[j]
      {
        if cells[i].ListSource? {
          var newSrc, changed := RewriteSource(cells[i].lines, final);
          if changed {
            updated := true;
          }
          cells := cells[i := ListSource(newSrc)];
        }
        i := i + 1;
      }
      if updated {
        ghost var j :| 0 <= j < |cells| && cells[j] != old(cells)[j];
      }
    }
  }

  /** `_update_ipynb_references`.  `parsed` is the notebook's cells as
      `json.load` reads them, `None` when it is not valid JSON; `dumpSize`
      the size of the file `json.dump` writes.  A notebook outside the
      download folder raises `ValueError`; an unreadable one is skipped. */
  method UpdateIpynbReferences(fs: FileSystem, downloadDir: Path, ipynb: Path, repl: Assoc,
                               parsed: Option<seq<Cell>>, dumpSize: seq<Cell> -> nat)
    returns (fs': FileSystem, raised: bool)
    requires |ipynb| >= 1 && DistinctKeys(repl)
    ensures raised <==> ipynb in fs && repl != [] && !Under(downloadDir, Parent(ipynb))
    ensures var dots := Repeat("../", |ipynb| - 1 - |downloadDir|);
            var write := !raised && repl != [] && IsFile(fs, ipynb) && parsed.Some?
                         && RewriteCells(parsed.value, Final(repl, dots)) != parsed.value;
            fs' == if write then fs[ipynb := File(dumpSize(RewriteCells(parsed.value, Final(repl, dots))))] else fs
  {
    fs', raised := fs, false;
    if ipynb !in fs || repl == [] {
      return;
    }
    if !Under(downloadDir, Parent(ipynb)) {
      raised := true;
      return;
    }
    var dots := Repeat("../", |ipynb| - 1 - |downloadDir|);
    if !IsFile(fs, ipynb) || parsed.None? {
      return;
    }
    var final := PrepareFinalReplacements(repl, dots);
    var nb := new Notebook(parsed.value);
    var updated := nb.ApplyReplacements(final);
    if updated {
      fs' := fs[ipynb := File(dumpSize(nb.cells))];
    }
  }
}
