/** The course navigator: every module folder of a course is indexed into
    items (a lab folder, a video or a reading), one per number prefix, and
    each item's page gets a sidebar that opens its module and marks it
    active.  The pages themselves are written by I/O that is described here
    by what each page is made from. */
module Navigator {
  import opened Base
  import opened Listing
  import Fs
  import Dashboard

  // ---------------------------------------------------------------------
  // The item an entry of a module folder makes
  // ---------------------------------------------------------------------

  datatype NavKind = LabPage | VideoPage | ReadingPage

  /** `asset` is the folder, video or page the item is about; `nav` is the
      page the sidebar links to. */
  datatype NavItem = NavItem(title: string, kind: NavKind, asset: Fs.Path, nav: Fs.Path)

  function Entries(n: Node): seq<Node>
  {
    if n.Folder? then n.entries else []
  }

  /** A wrapper page written by an earlier version of the script. */
  predicate IsViewPage(name: string)
  {
    Suffix(name) == ".html" && EndsWith(name, "_view.html")
  }

  /** The name matches `{prefix}_*{ext}`. */
  predicate GlobMatch(name: string, prefix: string, ext: string)
  {
    |name| >= |prefix| + 1 + |ext| && StartsWith(name, prefix + "_") && EndsWith(name, ext)
  }

  /** `folder.glob(f"{prefix}_*{ext}")`, in listing order. */
  function Glob(listing: seq<Node>, prefix: string, ext: string): (r: seq<Node>)
    ensures forall i | 0 <= i < |r| :: r[i] in listing && GlobMatch(r[i].name, prefix, ext)
    ensures forall i | 0 <= i < |listing| && GlobMatch(listing[i].name, prefix, ext) :: listing[i] in r
  {
    Filter(listing, (n: Node) => GlobMatch(n.name, prefix, ext))
  }

  /** The non-wrapper pages of a prefix. */
  function Pages(listing: seq<Node>, prefix: string): (r: seq<Node>)
    ensures forall i | 0 <= i < |r| :: r[i] in listing && GlobMatch(r[i].name, prefix, ".html") && !EndsWith(r[i].name, "_view.html")
  {
    Filter(Glob(listing, prefix, ".html"), (n: Node) => !EndsWith(n.name, "_view.html"))
  }

  /** A folder that holds a notebook or whose name says it is a lab. */
  predicate IsLabFolder(f: Node)
  {
    f.Folder? && ((exists i | 0 <= i < |f.entries| :: EndsWith(f.entries[i].name, ".ipynb")) || Contains(f.name, "_lab"))
  }

  /** The title: every `{prefix}_` removed from the stem, underscores as
      spaces, title-cased. */
  function NavTitle(name: string, prefix: string): (r: string)
    ensures '_' !in r
  {
    Titled(ReplaceAll(Stem(name), prefix + "_", ""))
  }

  /** When the prefix does not recur in the name, the navigator's title
      and the dashboard's title of the same file agree. */
  lemma NavTitleAgrees(name: string, prefix: string)
    requires NumberPrefix(Stem(name)) == Some(prefix)
    requires !Contains(DropNumber(Stem(name)), prefix + "_")
    ensures NavTitle(name, prefix) == Dashboard.ItemTitle(name)
  {
    var stem, rest := Stem(name), DropNumber(Stem(name));
    var pat := prefix + "_";
    assert stem == pat + rest;
    assert stem[..|pat|] == pat && stem[|pat|..] == rest;
    ReplaceAbsent(rest, pat, "");
    assert ReplaceAll(stem, pat, "") == rest;
  }

  /** The item an entry with number prefix `prefix` makes: a lab folder
      comes first, then the first video of the prefix, then its first
      non-wrapper page. */
  function ItemFor(at: Fs.Path, listing: seq<Node>, f: Node, prefix: string): (r: Option<NavItem>)
    ensures r.Some? ==> (r.value.kind == LabPage <==> IsLabFolder(f))
    ensures r.Some? && r.value.kind == LabPage ==>
              r.value.asset == at + [f.name] && r.value.nav == at + [f.name + ".html"]
              && r.value.title == NavTitle(f.name, prefix) + " (Lab)"
    ensures r.Some? && r.value.kind == VideoPage ==>
              Glob(listing, prefix, ".mp4") != [] &&
              var video := Glob(listing, prefix, ".mp4")[0];
              r.value.asset == at + [video.name] && r.value.nav == at + [Stem(video.name) + ".html"]
              && r.value.title == NavTitle(f.name, prefix)
    ensures r.Some? && r.value.kind == ReadingPage ==>
              Glob(listing, prefix, ".mp4") == [] && r.value.asset == r.value.nav
              && Pages(listing, prefix) != [] && r.value.nav == at + [Pages(listing, prefix)[0].name]
              && r.value.title == NavTitle(f.name, prefix)
    ensures r.None? <==> !IsLabFolder(f) && Glob(listing, prefix, ".mp4") == [] && Pages(listing, prefix) == []
  {
    var title := NavTitle(f.name, prefix);
    var videos := Glob(listing, prefix, ".mp4");
    var pages := Pages(listing, prefix);
    if IsLabFolder(f) then
      Some(NavItem(title + " (Lab)", LabPage, at + [f.name], at + [f.name + ".html"]))
    else if videos != [] then
      Some(NavItem(title, VideoPage, at + [videos[0].name], at + [Stem(videos[0].name) + ".html"]))
    else if pages != [] then
      Some(NavItem(title, ReadingPage, at + [pages[0].name], at + [pages[0].name]))
    else None
  }

  /** The item the loop body makes of entry `f` of the module folder at
      `at`, whose entries in listing order are `listing`, paired with its
      prefix; `None` when the entry is skipped or makes no item. */
  function EntryItem(at: Fs.Path, listing: seq<Node>, f: Node): (r: Option<(string, NavItem)>)
    ensures r.Some? <==> !IsViewPage(f.name) && NumberPrefix(f.name).Some?
                         && ItemFor(at, listing, f, NumberPrefix(f.name).value).Some?
    ensures r.Some? ==> NumberPrefix(f.name) == Some(r.value.0)
                        && Some(r.value.1) == ItemFor(at, listing, f, r.value.0)
  {
    if IsViewPage(f.name) then None
    else match NumberPrefix(f.name)
      case None => None
      case Some(prefix) =>
        match ItemFor(at, listing, f, prefix)
        case Some(item) => Some((prefix, item))
        case None => None
  }

  // ---------------------------------------------------------------------
  // One item per prefix
  // ---------------------------------------------------------------------

  function PrefixesOf(s: seq<(string, NavItem)>): set<string>
  {
    set i | 0 <= i < |s| :: s[i].0
  }

  lemma PrefixesSnoc(s: seq<(string, NavItem)>, x: (string, NavItem))
    ensures PrefixesOf(s + [x]) == PrefixesOf(s) + {x.0}
  {
    var r := s + [x];
    assert r[|s|] == x;
    assert forall i | 0 <= i < |s| :: r[i] == s[i];
  }

  /** What the loop keeps of the entries' items, in order: an item whose
      prefix already gave one is dropped, a skipped entry marks nothing. */
  function Firsts(made: seq<Option<(string, NavItem)>>): (r: seq<(string, NavItem)>)
    ensures forall i, j | 0 <= i < j < |r| :: r[i].0 != r[j].0
    ensures forall p :: p in PrefixesOf(r) <==> exists i | 0 <= i < |made| :: made[i].Some? && made[i].value.0 == p
  {
    if made == [] then []
    else
      var n := |made| - 1;
      var prev := Firsts(made[..n]);
      assert forall i | 0 <= i < n :: made[..n][i] == made[i];
      match made[n]
      case Some((p, item)) =>
        if p in PrefixesOf(prev) then prev
        else
          PrefixesSnoc(prev, (p, item));
          prev + [(p, item)]
      case None => prev
  }

  /** Every kept item is the item of the first entry that made one with
      its prefix. */
  lemma {:induction false} FirstsAreFirst(made: seq<Option<(string, NavItem)>>, k: int)
    requires 0 <= k < |Firsts(made)|
    ensures exists j | 0 <= j < |made| :: made[j] == Some(Firsts(made)[k])
              && forall i | 0 <= i < j :: made[i].None? || made[i].value.0 != Firsts(made)[k].0
  {
    var n := |made| - 1;
    var prev := Firsts(made[..n]);
    assert forall i | 0 <= i < n :: made[..n][i] == made[i];
    if k < |prev| {
      FirstsAreFirst(made[..n], k);
      assert Firsts(made)[k] == prev[k];
      var j :| 0 <= j < n && made[..n][j] == Some(prev[k])
                && forall i | 0 <= i < j :: made[..n][i].None? || made[..n][i].value.0 != prev[k].0;
      assert made[j] == Some(Firsts(made)[k]);
    } else {
      assert Firsts(made)[k] == made[n].value;
      var p := made[n].value.0;
      assert p !in PrefixesOf(prev);
      forall i | 0 <= i < n ensures made[i].None? || made[i].value.0 != p {
        if made[i].Some? && made[i].value.0 == p {
          assert made[..n][i] == made[i];
        }
      }
    }
  }

  function Made(at: Fs.Path, listing: seq<Node>, sorted: seq<Node>): (r: seq<Option<(string, NavItem)>>)
    ensures |r| == |sorted| && forall i | 0 <= i < |sorted| :: r[i] == EntryItem(at, listing, sorted[i])
  {
    seq(|sorted|, i requires 0 <= i < |sorted| => EntryItem(at, listing, sorted[i]))
  }

  function Items(s: seq<(string, NavItem)>): (r: seq<NavItem>)
    ensures |r| == |s| && forall i | 0 <= i < |s| :: r[i] == s[i].1
  {
    seq(|s|, i requires 0 <= i < |s| => s[i].1)
  }

  /** The items of the module folder `dir` of the course folder at `at`,
      its entries taken in name order. */
  function ModuleNavItems(at: Fs.Path, dir: Node): seq<(string, NavItem)>
  {
    Firsts(Made(at + [dir.name], Entries(dir), SortNodes(Entries(dir))))
  }

  lemma ItemsSnoc(s: seq<(string, NavItem)>, x: (string, NavItem))
    ensures Items(s + [x]) == Items(s) + [x.1]
  {
  }

  lemma FirstsSnoc(made: seq<Option<(string, NavItem)>>, i: int)
    requires 0 <= i < |made|
    ensures Firsts(made[..i + 1])
            == match made[i]
               case Some((p, item)) => if p in PrefixesOf(Firsts(made[..i])) then Firsts(made[..i]) else Firsts(made[..i]) + [(p, item)]
               case None => Firsts(made[..i])
  {
    assert made[..i + 1][..i] == made[..i];
  }

  /** The entry loop of one module folder, with its `processed_prefixes`
      set. */
  method ScanNavModule(at: Fs.Path, dir: Node) returns (items: seq<NavItem>)
    ensures items == Items(ModuleNavItems(at, dir))
  {
    var here := at + [dir.name];
    var sorted := SortNodes(Entries(dir));
    ghost var made := Made(here, Entries(dir), sorted);
    ghost var kept: seq<(string, NavItem)> := [];
    var processed: set<string> := {};
    items := [];
    for i := 0 to |sorted|
      invariant kept == Firsts(made[..i])
      invariant processed == PrefixesOf(kept)
      invariant items == Items(kept)
    {
      FirstsSnoc(made, i);
      var entry := EntryItem(here, Entries(dir), sorted[i]);
      if entry.Some? && entry.value.0 !in processed {
        PrefixesSnoc(kept, entry.value);
        ItemsSnoc(kept, entry.value);
        kept := kept + [entry.value];
        items := items + [entry.value.1];
        processed := processed + {entry.value.0};
      }
    }
    assert made[..|sorted|] == made;
  }

  // ---------------------------------------------------------------------
  // Courses
  // ---------------------------------------------------------------------

  datatype NavModule = NavModule(name: string, items: seq<NavItem>)

  datatype NavCourse = NavCourse(name: string, modules: seq<NavModule>)

  /** The modules of a course, in the given (name) order, without those
      that have no item. */
  function NavModulesOf(at: Fs.Path, dirs: seq<Node>): (r: seq<NavModule>)
    ensures forall i | 0 <= i < |r| :: r[i].items != []
  {
    if dirs == [] then []
    else
      var n := |dirs| - 1;
      var rest := NavModulesOf(at, dirs[..n]);
      var items := Items(ModuleNavItems(at, dirs[n]));
      if items == [] then rest else rest + [NavModule(Lower(MapChar(dirs[n].name, '_', ' ')), items)]
  }

  /** A course folder the navigator skips. */
  predicate Skipped(name: string)
  {
    StartsWith(name, ".") || name == "shared_assets"
  }

  /** The index of the course folder at `at + [dir.name]`; `None` when the
      folder is skipped or has no module with an item. */
  function CourseNav(at: Fs.Path, dir: Node): (r: Option<NavCourse>)
    ensures r.Some? ==> !Skipped(dir.name) && r.value.name == dir.name && r.value.modules != []
                        && forall m | 0 <= m < |r.value.modules| :: r.value.modules[m].items != []
  {
    if Skipped(dir.name) then None
    else
      var modules := NavModulesOf(at + [dir.name], SortNodes(Folders(Entries(dir))));
      if modules == [] then None else Some(NavCourse(dir.name, modules))
  }

  lemma NavModulesSnoc(at: Fs.Path, dirs: seq<Node>, j: int)
    requires 0 <= j < |dirs|
    ensures NavModulesOf(at, dirs[..j + 1])
            == var items := Items(ModuleNavItems(at, dirs[j]));
               if items == [] then NavModulesOf(at, dirs[..j])
               else NavModulesOf(at, dirs[..j]) + [NavModule(Lower(MapChar(dirs[j].name, '_', ' ')), items)]
  {
    assert dirs[..j + 1][..j] == dirs[..j];
  }

  /** `generate_course_navigation`, indexing phase. */
  method GenerateCourseNavigation(at: Fs.Path, dir: Node) returns (course: Option<NavCourse>)
    ensures course == CourseNav(at, dir)
  {
    if Skipped(dir.name) {
      return None;
    }
    var here := at + [dir.name];
    var dirs := SortNodes(Folders(Entries(dir)));
    var modules := [];
    for j := 0 to |dirs|
      invariant modules == NavModulesOf(here, dirs[..j])
    {
      NavModulesSnoc(here, dirs, j);
      var items := ScanNavModule(here, dirs[j]);
      if items != [] {
        modules := modules + [NavModule(Lower(MapChar(dirs[j].name, '_', ' ')), items)];
      }
    }
    assert dirs[..|dirs|] == dirs;
    course := if modules == [] then None else Some(NavCourse(dir.name, modules));
  }

  /** The courses indexed from the given (sorted) course folders. */
  function NavCourses(at: Fs.Path, dirs: seq<Node>): (r: seq<NavCourse>)
    ensures forall i | 0 <= i < |r| :: !Skipped(r[i].name) && r[i].modules != []
  {
    if dirs == [] then []
    else
      var n := |dirs| - 1;
      var rest := NavCourses(at, dirs[..n]);
      match CourseNav(at, dirs[n])
      case Some(c) => rest + [c]
      case None => rest
  }

  lemma NavCoursesSnoc(dirs: seq<Node>, i: int)
    requires 0 <= i < |dirs|
    ensures NavCourses([], dirs[..i + 1])
            == match CourseNav([], dirs[i])
               case Some(c) => NavCourses([], dirs[..i]) + [c]
               case None => NavCourses([], dirs[..i])
  {
    assert dirs[..i + 1][..i] == dirs[..i];
  }

  /** `scan_and_generate`: the course folders of the root, by name. */
  method ScanAndGenerate(root: seq<Node>) returns (courses: seq<NavCourse>)
    ensures courses == NavCourses([], SortNodes(Folders(root)))
  {
    var dirs := SortNodes(Folders(root));
    courses := [];
    for i := 0 to |dirs|
      invariant courses == NavCourses([], dirs[..i])
    {
      NavCoursesSnoc(dirs, i);
      if !Skipped(dirs[i].name) {
        var course := GenerateCourseNavigation([], dirs[i]);
        if course.Some? {
          courses := courses + [course.value];
        }
      }
    }
    assert dirs[..|dirs|] == dirs;
  }

  // ---------------------------------------------------------------------
  // Relative links
  // ---------------------------------------------------------------------

  /** The length of the longest common prefix. */
  function CommonLength(a: Fs.Path, b: Fs.Path): (k: nat)
    ensures k <= |a| && k <= |b| && a[..k] == b[..k]
    ensures k < |a| && k < |b| ==> a[k] != b[k]
  {
    if a == [] || b == [] || a[0] != b[0] then 0
    else
      var k := 1 + CommonLength(a[1..], b[1..]);
      assert a[..k] == [a[0]] + a[1..][..k - 1];
      assert b[..k] == [b[0]] + b[1..][..k - 1];
      k
  }

  function Ups(n: nat): (r: Fs.Path)
    ensures |r| == n
  {
    if n == 0 then [] else [".."] + Ups(n - 1)
  }

  /** `os.path.relpath(target, start)` on normalised absolute paths. */
  function RelPath(target: Fs.Path, start: Fs.Path): (r: Fs.Path)
    ensures r != []
  {
    var k := CommonLength(target, start);
    var rel := Ups(|start| - k) + target[k..];
    if rel == [] then ["."] else rel
  }

  /** Following a relative path from a folder, as a browser resolves a
      link. */
  function Resolve(base: Fs.Path, rel: Fs.Path): Fs.Path
    decreases |rel|
  {
    if rel == [] then base
    else if rel[0] == ".." then Resolve(if base == [] then [] else base[..|base| - 1], rel[1..])
    else if rel[0] == "." then Resolve(base, rel[1..])
    else Resolve(base + [rel[0]], rel[1..])
  }

  predicate Plain(p: Fs.Path)
  {
    forall i | 0 <= i < |p| :: p[i] != ".." && p[i] != "."
  }

  lemma {:induction false} ResolvePlain(base: Fs.Path, rel: Fs.Path)
    requires Plain(rel)
    ensures Resolve(base, rel) == base + rel
    decreases |rel|
  {
    if rel != [] {
      ResolvePlain(base + [rel[0]], rel[1..]);
      assert base + [rel[0]] + rel[1..] == base + rel;
    }
  }

  lemma {:induction false} ResolveUps(base: Fs.Path, n: nat, rel: Fs.Path)
    requires n <= |base|
    ensures Resolve(base, Ups(n) + rel) == Resolve(base[..|base| - n], rel)
    decreases n
  {
    if n > 0 {
      assert Ups(n) == [".."] + Ups(n - 1);
      assert (Ups(n) + rel)[0] == ".." && (Ups(n) + rel)[1..] == Ups(n - 1) + rel;
      assert base != [];
      assert Resolve(base, Ups(n) + rel) == Resolve(base[..|base| - 1], Ups(n - 1) + rel);
      ResolveUps(base[..|base| - 1], n - 1, rel);
      assert base[..|base| - 1][..|base| - 1 - (n - 1)] == base[..|base| - n];
    } else {
      assert Ups(0) + rel == rel && base[..|base|] == base;
    }
  }

  /** A relative link followed from its start folder leads to its
      target. */
  lemma RelPathResolves(target: Fs.Path, start: Fs.Path)
    requires Plain(target)
    ensures Resolve(start, RelPath(target, start)) == target
  {
    var k := CommonLength(target, start);
    ClimbThenDescend(target, start, k);
    RelPathAsClimb(target, start);
  }

  /** Climbing from `start` to the shared prefix and descending along the
      rest of the target reaches the target. */
  lemma ClimbThenDescend(target: Fs.Path, start: Fs.Path, k: nat)
    requires Plain(target) && k <= |target| && k <= |start| && target[..k] == start[..k]
    ensures Resolve(start, Ups(|start| - k) + target[k..]) == target
  {
    PlainSuffix(target, k);
    ResolveUps(start, |start| - k, target[k..]);
    ResolvePlain(start[..k], target[k..]);
    assert start[..k] + target[k..] == target by {
      assert target[..k] + target[k..] == target;
    }
  }

  /** The "." that stands for an empty relative path resolves like it. */
  lemma RelPathAsClimb(target: Fs.Path, start: Fs.Path)
    ensures var k := CommonLength(target, start);
      Resolve(start, RelPath(target, start)) == Resolve(start, Ups(|start| - k) + target[k..])
  {
    var k := CommonLength(target, start);
    var rel := Ups(|start| - k) + target[k..];
    if rel == [] {
      ResolveDot(start);
    } else {
      assert RelPath(target, start) == rel;
    }
  }

  lemma ResolveDot(base: Fs.Path)
    ensures Resolve(base, ["."]) == Resolve(base, [])
  {
    var rel: Fs.Path := ["."];
    assert rel[0] == "." && rel[1..] == [];
  }

  lemma PlainSuffix(p: Fs.Path, k: nat)
    requires Plain(p) && k <= |p|
    ensures Plain(p[k..])
  {
    forall i | 0 <= i < |p| - k ensures p[k..][i] != ".." && p[k..][i] != "." {
      assert p[k..][i] == p[k + i];
    }
  }

  // ---------------------------------------------------------------------
  // The sidebar
  // ---------------------------------------------------------------------

  /** One link of the sidebar: `video` chooses the video icon. */
  datatype Link = Link(href: string, active: bool, video: bool, title: string)

  datatype SideModule = SideModule(name: string, open: bool, links: seq<Link>)

  function Folder(p: Fs.Path): Fs.Path
  {
    if p == [] then [] else p[..|p| - 1]
  }

  /** The link to `item` on the page at `current`. */
  function LinkOf(item: NavItem, current: Fs.Path): (r: Link)
    ensures r.active <==> item.nav == current
    ensures r.video <==> item.kind == VideoPage
    ensures r.title == item.title
  {
    Link(JoinWith(RelPath(item.nav, Folder(current)), "/"), item.nav == current, item.kind == VideoPage, item.title)
  }

  /** A module is open when one of its items is the current page. */
  predicate HasPage(items: seq<NavItem>, current: Fs.Path)
  {
    exists i | 0 <= i < |items| :: items[i].nav == current
  }

  function Links(items: seq<NavItem>, current: Fs.Path): (r: seq<Link>)
    ensures |r| == |items| && forall i | 0 <= i < |items| :: r[i] == LinkOf(items[i], current)
  {
    seq(|items|, i requires 0 <= i < |items| => LinkOf(items[i], current))
  }

  function SidebarOf(modules: seq<NavModule>, current: Fs.Path): (r: seq<SideModule>)
    ensures |r| == |modules|
    ensures forall m | 0 <= m < |modules| ::
              r[m] == SideModule(modules[m].name, HasPage(modules[m].items, current), Links(modules[m].items, current))
  {
    seq(|modules|, m requires 0 <= m < |modules| =>
      SideModule(modules[m].name, HasPage(modules[m].items, current), Links(modules[m].items, current)))
  }

  /** A module of the sidebar is open exactly when one of its links is
      active. */
  lemma OpenIffActiveLink(modules: seq<NavModule>, current: Fs.Path, m: int)
    requires 0 <= m < |modules|
    ensures SidebarOf(modules, current)[m].open
            <==> exists i | 0 <= i < |SidebarOf(modules, current)[m].links| :: SidebarOf(modules, current)[m].links[i].active
  {
    var s := SidebarOf(modules, current)[m];
    if s.open {
      var i :| 0 <= i < |modules[m].items| && modules[m].items[i].nav == current;
      assert s.links[i].active;
    }
  }

  /** The scan for the current page among a module's items, stopping at
      the first match. */
  method FindPage(items: seq<NavItem>, current: Fs.Path) returns (open: bool)
    ensures open == HasPage(items, current)
  {
    open := false;
    var i := 0;
    while i < |items|
      invariant 0 <= i <= |items|
      invariant !open && forall j | 0 <= j < i :: items[j].nav != current
    {
      if items[i].nav == current {
        open := true;
        break;
      }
      i := i + 1;
    }
  }

  /** The links of a module's items, in order. */
  method BuildLinks(items: seq<NavItem>, current: Fs.Path) returns (links: seq<Link>)
    ensures links == Links(items, current)
  {
    links := [];
    for j := 0 to |items|
      invariant links == Links(items[..j], current)
    {
      LinksSnoc(items, j, current);
      links := links + [LinkOf(items[j], current)];
    }
    assert items[..|items|] == items;
  }

  lemma LinksSnoc(items: seq<NavItem>, j: nat, current: Fs.Path)
    requires j < |items|
    ensures Links(items[..j + 1], current) == Links(items[..j], current) + [LinkOf(items[j], current)]
  {
    var a, b := Links(items[..j + 1], current), Links(items[..j], current) + [LinkOf(items[j], current)];
    assert |a| == |b|;
    forall i | 0 <= i < |a| ensures a[i] == b[i] {
      assert items[..j + 1][i] == if i < j then items[..j][i] else items[j];
    }
  }

  /** `generate_sidebar_html`: for each module, whether it holds the
      current page, then its links. */
  method GenerateSidebar(course: NavCourse, current: Fs.Path) returns (sidebar: seq<SideModule>)
    ensures sidebar == SidebarOf(course.modules, current)
  {
    var modules := course.modules;
    sidebar := [];
    for m := 0 to |modules|
      invariant |sidebar| == m
      invariant forall k | 0 <= k < m :: sidebar[k] == SidebarOf(modules, current)[k]
    {
      var open := FindPage(modules[m].items, current);
      var links := BuildLinks(modules[m].items, current);
      sidebar := sidebar + [SideModule(modules[m].name, open, links)];
    }
  }

  // ---------------------------------------------------------------------
  // Pages
  // ---------------------------------------------------------------------

  /** A subtitle track of a video page. */
  datatype Track = Track(lang: string, src: string, isDefault: bool)

  predicate HasName(listing: seq<Node>, name: string)
  {
    exists i | 0 <= i < |listing| :: listing[i].name == name
  }

  /** The tracks of the video `stem`.mp4 in a folder listed by `listing`:
      Hebrew first and default when it exists, English default only
      without Hebrew. */
  function Tracks(listing: seq<Node>, stem: string): (r: seq<Track>)
    ensures |r| <= 2
    ensures (exists i | 0 <= i < |r| :: r[i].lang == "he") <==> HasName(listing, stem + "_heb.vtt")
    ensures (exists i | 0 <= i < |r| :: r[i].lang == "en") <==> HasName(listing, stem + "_en.vtt")
    ensures forall i | 0 <= i < |r| && r[i].lang == "he" :: r[i].isDefault && r[i].src == stem + "_heb.vtt"
    ensures forall i | 0 <= i < |r| && r[i].lang == "en" ::
              r[i].src == stem + "_en.vtt" && (r[i].isDefault <==> !HasName(listing, stem + "_heb.vtt"))
    ensures forall i, j | 0 <= i < j < |r| :: !(r[i].isDefault && r[j].isDefault)
  {
    var he := if HasName(listing, stem + "_heb.vtt") then [Track("he", stem + "_heb.vtt", true)] else [];
    var en := if HasName(listing, stem + "_en.vtt") then [Track("en", stem + "_en.vtt", he == [])] else [];
    var r := he + en;
    assert "he" != "en" by { assert "he"[0] != "en"[0]; }
    assert he != [] ==> r[0] == he[0];
    assert en != [] ==> r[|r| - 1] == en[0];
    r
  }

  /** What the generation phase does for one item: a lab page, a video
      page with its tracks, or the sidebar injected into the existing
      page; each with the sidebar for the item's own page. */
  datatype Page =
    | LabPageOf(folder: Fs.Path, nav: Fs.Path, sidebar: seq<SideModule>)
    | VideoPageOf(video: Fs.Path, nav: Fs.Path, tracks: seq<Track>, sidebar: seq<SideModule>)
    | InjectInto(nav: Fs.Path, sidebar: seq<SideModule>)

  /** The page of `item` of the course; `listing` lists the item's module
      folder, where the video's subtitles are looked up. */
  function PageOf(course: NavCourse, item: NavItem, listing: seq<Node>): Page
  {
    var sidebar := SidebarOf(course.modules, item.nav);
    match item.kind
    case LabPage => LabPageOf(item.asset, item.nav, sidebar)
    case VideoPage =>
      var name := if item.asset == [] then "" else item.asset[|item.asset| - 1];
      VideoPageOf(item.asset, item.nav, Tracks(listing, Stem(name)), sidebar)
    case ReadingPage => InjectInto(item.nav, sidebar)
  }

  /** On the page of an item, the item's own module is open and its own
      link is active. */
  lemma PageMarksItself(course: NavCourse, m: int, i: int, listing: seq<Node>)
    requires 0 <= m < |course.modules| && 0 <= i < |course.modules[m].items|
    ensures var page := PageOf(course, course.modules[m].items[i], listing);
            page.sidebar[m].open && page.sidebar[m].links[i].active
  {
    var item := course.modules[m].items[i];
    assert HasPage(course.modules[m].items, item.nav);
  }
}
