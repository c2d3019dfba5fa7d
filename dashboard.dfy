/** The offline dashboard: `scan_directory` turns the download folder into
    courses, modules and items.  Files are grouped by their number prefix;
    each group gives one item, a video or else an HTML page. */
module Dashboard {
  import opened Base
  import opened Listing

  // ---------------------------------------------------------------------
  // Grouping the files of a module
  // ---------------------------------------------------------------------

  datatype Role = VideoFile | EnglishSub | HebrewSub | HtmlPage

  /** The slot of its group a file fills: by suffix, and for `.vtt` by the
      language marker in the name. */
  function RoleOf(name: string): Option<Role>
  {
    var suffix := Suffix(name);
    if suffix == ".mp4" then Some(VideoFile)
    else if suffix == ".vtt" then
      if Contains(name, "_en.vtt") then Some(EnglishSub)
      else if Contains(name, "_heb.vtt") then Some(HebrewSub)
      else None
    else if suffix == ".html" then Some(HtmlPage)
    else None
  }

  /** `re.match(r"(\d+)_", f.name)` and the suffix tests together: the
      group and the slot a file goes to, if any. */
  function Classify(name: string): Option<(string, Role)>
  {
    match (NumberPrefix(name), RoleOf(name))
    case (Some(key), Some(role)) => Some((key, role))
    case _ => None
  }

  function Tags(files: seq<string>): (r: seq<Option<(string, Role)>>)
    ensures |r| == |files| && forall i | 0 <= i < |files| :: r[i] == Classify(files[i])
  {
    seq(|files|, i requires 0 <= i < |files| => Classify(files[i]))
  }

  /** The last of `files` tagged with `key` and `role`. */
  function LastIn(files: seq<string>, tags: seq<Option<(string, Role)>>, key: string, role: Role): (r: Option<string>)
    requires |tags| == |files|
    ensures r.None? <==> forall i | 0 <= i < |files| :: tags[i] != Some((key, role))
    ensures r.Some? ==> exists i | 0 <= i < |files| :: files[i] == r.value && tags[i] == Some((key, role))
                          && forall j | i < j < |files| :: tags[j] != Some((key, role))
  {
    var n := |files|;
    if n == 0 then None
    else if tags[n - 1] == Some((key, role)) then Some(files[n - 1])
    else
      var fs := files[..n - 1];
      var ts := tags[..n - 1];
      var r := LastIn(fs, ts, key, role);
      forall i | 0 <= i < n - 1 ensures fs[i] == files[i] && ts[i] == tags[i] { }
      r
  }

  datatype Group = Group(video: Option<string>, subEn: Option<string>, subHe: Option<string>, html: Option<string>)

  const NoGroup := Group(None, None, None, None)

  /** The folder of assets shared by the courses, which is not a course. */
  const SharedAssets := "shared_assets"

  function Slot(g: Group, role: Role): Option<string>
  {
    match role
    case VideoFile => g.video
    case EnglishSub => g.subEn
    case HebrewSub => g.subHe
    case HtmlPage => g.html
  }

  /** `grouped_items[key][role] = f`. */
  function Fill(g: Group, role: Role, f: string): (r: Group)
    ensures Slot(r, role) == Some(f)
    ensures forall other | other != role :: Slot(r, other) == Slot(g, other)
  {
    match role
    case VideoFile => g.(video := Some(f))
    case EnglishSub => g.(subEn := Some(f))
    case HebrewSub => g.(subHe := Some(f))
    case HtmlPage => g.(html := Some(f))
  }

  function GroupIn(files: seq<string>, tags: seq<Option<(string, Role)>>, key: string): Group
    requires |tags| == |files|
  {
    Group(LastIn(files, tags, key, VideoFile), LastIn(files, tags, key, EnglishSub),
          LastIn(files, tags, key, HebrewSub), LastIn(files, tags, key, HtmlPage))
  }

  /** The group of `key`: each slot holds the last file that fills it, so a
      later file in the sorted listing overrides an earlier one. */
  function GroupOf(files: seq<string>, key: string): Group
  {
    GroupIn(files, Tags(files), key)
  }

  /** The group keys of the tagged files, in listing order. */
  function KeyList(tags: seq<Option<(string, Role)>>): (r: seq<string>)
    ensures forall k :: k in r <==> exists i | 0 <= i < |tags| :: tags[i].Some? && tags[i].value.0 == k
  {
    if tags == [] then []
    else
      var n := |tags|;
      var r := KeyList(tags[..n - 1]);
      assert forall i | 0 <= i < n - 1 :: tags[..n - 1][i] == tags[i];
      if tags[n - 1].Some? then r + [tags[n - 1].value.0] else r
  }

  /** The loop that fills `grouped_items`: the dict equals `GroupOf` on
      every key it has, and its keys are the group keys of the files in
      order of first appearance. */
  method GroupFiles(files: seq<string>) returns (groups: map<string, Group>, keys: seq<string>)
    ensures keys == Dedup(KeyList(Tags(files)))
    ensures forall k :: k in groups <==> k in keys
    ensures forall k | k in groups :: groups[k] == GroupOf(files, k)
  {
    var tags := Tags(files);
    groups, keys := map[], [];
    for i := 0 to |files|
      invariant |tags| == |files|
      invariant keys == Dedup(KeyList(tags[..i]))
      invariant forall k :: k in groups <==> k in keys
      invariant forall k | k in groups :: groups[k] == GroupIn(files[..i], tags[..i], k)
    {
      KeysStep(tags, i, groups, keys, files[i]);
      GroupsStep(files, tags, i, groups);
      groups, keys := Record(groups, tags[i], files[i]), Note(keys, tags[i]);
    }
    assert files[..|files|] == files && tags[..|tags|] == tags;
  }

  /** Appending a file changes exactly the slot its tag names. */
  lemma LastInStep(files: seq<string>, tags: seq<Option<(string, Role)>>, i: int, key: string, role: Role)
    requires |tags| == |files| && 0 <= i < |files|
    ensures LastIn(files[..i + 1], tags[..i + 1], key, role)
            == if tags[i] == Some((key, role)) then Some(files[i]) else LastIn(files[..i], tags[..i], key, role)
  {
    assert files[..i + 1][..i] == files[..i] && tags[..i + 1][..i] == tags[..i];
  }

  /** Appending a file tagged with `key` fills its slot of `key`'s group
      and leaves every other group as it was. */
  lemma GroupInStep(files: seq<string>, tags: seq<Option<(string, Role)>>, i: int, k: string)
    requires |tags| == |files| && 0 <= i < |files|
    ensures GroupIn(files[..i + 1], tags[..i + 1], k)
            == if tags[i].Some? && tags[i].value.0 == k then Fill(GroupIn(files[..i], tags[..i], k), tags[i].value.1, files[i])
               else GroupIn(files[..i], tags[..i], k)
  {
    LastInStep(files, tags, i, k, VideoFile);
    LastInStep(files, tags, i, k, EnglishSub);
    LastInStep(files, tags, i, k, HebrewSub);
    LastInStep(files, tags, i, k, HtmlPage);
  }

  /** A key that no file is tagged with has an empty group. */
  lemma FreshKeyEmpty(files: seq<string>, tags: seq<Option<(string, Role)>>, key: string)
    requires |tags| == |files| && key !in KeyList(tags)
    ensures GroupIn(files, tags, key) == NoGroup
  {
    forall r ensures LastIn(files, tags, key, r) == None {
    }
  }

  /** The dict after `grouped_items[key][role] = f` for a file tagged `tag`. */
  function Record(groups: map<string, Group>, tag: Option<(string, Role)>, f: string): map<string, Group>
  {
    match tag
    case None => groups
    case Some((key, role)) => groups[key := Fill(if key in groups then groups[key] else NoGroup, role, f)]
  }

  /** The key list after a file tagged `tag`. */
  function Note(keys: seq<string>, tag: Option<(string, Role)>): seq<string>
  {
    match tag
    case None => keys
    case Some((key, _)) => if key in keys then keys else keys + [key]
  }

  /** One pass of the grouping loop keeps the key list in step with the
      dict's keys. */
  lemma KeysStep(tags: seq<Option<(string, Role)>>, i: int, groups: map<string, Group>, keys: seq<string>, f: string)
    requires 0 <= i < |tags|
    requires keys == Dedup(KeyList(tags[..i]))
    requires forall k :: k in groups <==> k in keys
    ensures Note(keys, tags[i]) == Dedup(KeyList(tags[..i + 1]))
    ensures forall k :: k in Record(groups, tags[i], f) <==> k in Note(keys, tags[i])
  {
    assert tags[..i + 1][..i] == tags[..i];
  }

  /** One pass of the grouping loop keeps every group equal to `GroupIn`
      over the files seen. */
  lemma GroupsStep(files: seq<string>, tags: seq<Option<(string, Role)>>, i: int, groups: map<string, Group>)
    requires |tags| == |files| && 0 <= i < |files|
    requires forall k :: k in groups <==> k in KeyList(tags[..i])
    requires forall k | k in groups :: groups[k] == GroupIn(files[..i], tags[..i], k)
    ensures var groups' := Record(groups, tags[i], files[i]);
            forall k | k in groups' :: groups'[k] == GroupIn(files[..i + 1], tags[..i + 1], k)
  {
    forall k {
      GroupInStep(files, tags, i, k);
    }
    if tags[i].Some? && tags[i].value.0 !in groups {
      FreshKeyEmpty(files[..i], tags[..i], tags[i].value.0);
    }
  }

  // ---------------------------------------------------------------------
  // Items
  // ---------------------------------------------------------------------

  datatype Kind = VideoKind | QuizKind | LabKind | HtmlKind

  /** An item of the dashboard; `path` and the subtitle paths are quoted
      paths relative to the download folder. */
  datatype Item = Item(title: string, kind: Kind, path: string, subEn: Option<string>, subHe: Option<string>)

  /** The title: the stem without its number prefix, underscores as spaces,
      title-cased. */
  function ItemTitle(name: string): (r: string)
    ensures '_' !in r
  {
    Titled(DropNumber(Stem(name)))
  }

  /** The type of a page that is not a video, from its lowercased name. */
  function PageKind(name: string): (r: Kind)
    ensures r != VideoKind
    ensures r == QuizKind <==> Contains(Lower(name), "quiz") || Contains(Lower(name), "assignment")
    ensures r == LabKind <==> !Contains(Lower(name), "quiz") && !Contains(Lower(name), "assignment") && Contains(Lower(name), "lab")
  {
    var lower := Lower(name);
    if Contains(lower, "quiz") || Contains(lower, "assignment") then QuizKind
    else if Contains(lower, "lab") then LabKind
    else HtmlKind
  }

  /** The item a group gives.  `dir` is `course/module/`; `quote` is
      `urllib.parse.quote`.  An item without a path is dropped. */
  function ItemOf(g: Group, dir: string, quote: string -> string): (r: Option<Item>)
    ensures g.video.Some? ==>
              (r.Some? <==> quote(dir + g.video.value) != [])
              && (r.Some? ==> r.value.kind == VideoKind && r.value.title == ItemTitle(g.video.value)
                              && r.value.path == quote(dir + g.video.value)
                              && (r.value.subEn.Some? <==> g.subEn.Some?)
                              && (r.value.subHe.Some? <==> g.subHe.Some?))
    ensures g.video.None? && g.html.Some? ==>
              (r.Some? <==> quote(dir + g.html.value) != [])
              && (r.Some? ==> r.value.kind == PageKind(g.html.value) && r.value.title == ItemTitle(g.html.value)
                              && r.value.path == quote(dir + g.html.value))
    ensures g.video.None? && g.html.None? ==> r.None?
    ensures r.Some? ==> r.value.path != []
    ensures r.Some? && r.value.kind != VideoKind ==> r.value.subEn.None? && r.value.subHe.None?
  {
    if g.video.Some? then
      var f := g.video.value;
      var path := quote(dir + f);
      var en := if g.subEn.Some? then Some(quote(dir + g.subEn.value)) else None;
      var he := if g.subHe.Some? then Some(quote(dir + g.subHe.value)) else None;
      if path == [] then None else Some(Item(ItemTitle(f), VideoKind, path, en, he))
    else if g.html.Some? then
      var f := g.html.value;
      var path := quote(dir + f);
      if path == [] then None else Some(Item(ItemTitle(f), PageKind(f), path, None, None))
    else None
  }

  /** The items of the groups, in the order of `keys`. */
  function ItemsFor(files: seq<string>, keys: seq<string>, dir: string, quote: string -> string): (r: seq<Item>)
    ensures |r| <= |keys|
    ensures forall i | 0 <= i < |r| :: r[i].path != []
  {
    if keys == [] then []
    else
      var rest := ItemsFor(files, keys[..|keys| - 1], dir, quote);
      match ItemOf(GroupOf(files, keys[|keys| - 1]), dir, quote)
      case Some(item) => rest + [item]
      case None => rest
  }

  lemma ItemsForSnoc(files: seq<string>, keys: seq<string>, i: int, dir: string, quote: string -> string)
    requires 0 <= i < |keys|
    ensures ItemsFor(files, keys[..i + 1], dir, quote)
            == match ItemOf(GroupOf(files, keys[i]), dir, quote)
               case Some(item) => ItemsFor(files, keys[..i], dir, quote) + [item]
               case None => ItemsFor(files, keys[..i], dir, quote)
  {
    assert keys[..i + 1][..i] == keys[..i];
  }

  /** The keys in the order items are emitted: sorted. */
  function SortedKeys(files: seq<string>): (r: seq<string>)
    ensures forall i, j | 0 <= i < j < |r| :: LexLe(r[i], r[j])
    ensures Distinct(r)
    ensures forall k :: k in r <==> k in KeyList(Tags(files))
  {
    var keys := Dedup(KeyList(Tags(files)));
    var r := SortStrings(keys);
    assert forall k :: k in r <==> k in multiset(keys);
    DistinctPermutation(keys, r);
    r
  }

  /** The items of one module folder. */
  function ModuleItems(course: string, dir: Node, quote: string -> string): seq<Item>
  {
    var files := SortStrings(FileNames(if dir.Folder? then dir.entries else []));
    ItemsFor(files, SortedKeys(files), course + "/" + dir.name + "/", quote)
  }

  /** One module folder: groups its files, then walks the sorted keys. */
  method ScanModule(course: string, dir: Node, quote: string -> string) returns (items: seq<Item>)
    ensures items == ModuleItems(course, dir, quote)
  {
    var files := SortStrings(FileNames(if dir.Folder? then dir.entries else []));
    var groups, keys := GroupFiles(files);
    var sorted := SortStrings(keys);
    assert sorted == SortedKeys(files);
    var prefix := course + "/" + dir.name + "/";
    items := [];
    for i := 0 to |sorted|
      invariant items == ItemsFor(files, sorted[..i], prefix, quote)
    {
      PermutedMember(keys, sorted, i);
      var item := ItemOf(groups[sorted[i]], prefix, quote);
      ItemsForSnoc(files, sorted, i, prefix, quote);
      if item.Some? {
        items := items + [item.value];
      }
    }
    assert sorted[..|sorted|] == sorted;
  }

  // ---------------------------------------------------------------------
  // Courses
  // ---------------------------------------------------------------------

  datatype Module = Module(name: string, items: seq<Item>)

  /** `path` is the course folder's name. */
  datatype Course = Course(name: string, path: string, modules: seq<Module>)

  lemma ModulesSnoc(ms: seq<Module>, m: Module)
    requires forall i | 0 <= i < |ms| :: ms[i].items != []
    requires m.items != []
    ensures forall i | 0 <= i < |ms| + 1 :: (ms + [m])[i].items != []
  {
    forall i | 0 <= i < |ms| + 1 ensures (ms + [m])[i].items != [] {
      if i < |ms| {
        assert (ms + [m])[i] == ms[i];
      }
    }
  }

  /** The modules of a course, in the given (sorted) order, without those
      that have no item. */
  function ModulesOf(course: string, dirs: seq<Node>, quote: string -> string): (r: seq<Module>)
    ensures |r| <= |dirs|
    ensures forall i | 0 <= i < |r| :: r[i].items != []
  {
    if dirs == [] then []
    else
      var rest := ModulesOf(course, dirs[..|dirs| - 1], quote);
      var d := dirs[|dirs| - 1];
      var items := ModuleItems(course, d, quote);
      if items == [] then rest
      else
        ModulesSnoc(rest, Module(Titled(d.name), items));
        rest + [Module(Titled(d.name), items)]
  }

  function CourseOf(d: Node, quote: string -> string): (r: Course)
    ensures r.path == d.name
    ensures forall m | 0 <= m < |r.modules| :: r.modules[m].items != []
  {
    var dirs := SortNodes(Folders(if d.Folder? then d.entries else []));
    Course(Titled(d.name), d.name, ModulesOf(d.name, dirs, quote))
  }

  /** A course folder as the scan sees it: a folder whose name does not
      start with a dot. */
  predicate Visible(n: Node)
  {
    n.Folder? && !StartsWith(n.name, ".")
  }

  /** The courses, in the given (sorted) order, skipping `shared_assets`
      and the courses without a module. */
  function CoursesOf(dirs: seq<Node>, quote: string -> string): (r: seq<Course>)
    ensures forall i | 0 <= i < |r| :: Listed(r[i])
  {
    if dirs == [] then []
    else
      var rest := CoursesOf(dirs[..|dirs| - 1], quote);
      var d := dirs[|dirs| - 1];
      if d.name == SharedAssets then rest
      else
        var c := CourseOf(d, quote);
        if c.modules == [] then rest
        else
          ListedSnoc(rest, c);
          rest + [c]
  }

  /** A course the dashboard lists: not `shared_assets`, with at least one
      module, and every module with at least one item. */
  predicate Listed(c: Course)
  {
    c.modules != [] && c.path != SharedAssets
    && forall m | 0 <= m < |c.modules| :: c.modules[m].items != []
  }

  lemma ListedSnoc(cs: seq<Course>, c: Course)
    requires forall i | 0 <= i < |cs| :: Listed(cs[i])
    requires Listed(c)
    ensures forall i | 0 <= i < |cs| + 1 :: Listed((cs + [c])[i])
  {
    forall i | 0 <= i < |cs| + 1 ensures Listed((cs + [c])[i]) {
      if i < |cs| {
        assert (cs + [c])[i] == cs[i];
      }
    }
  }

  /** The course folders of the download folder, sorted. */
  function CourseDirs(root: seq<Node>): (r: seq<Node>)
    ensures forall i | 0 <= i < |r| :: Visible(r[i]) && r[i] in root
    ensures forall i, j | 0 <= i < j < |r| :: LexLe(r[i].name, r[j].name)
  {
    var visible := Filter(root, Visible);
    var r := SortNodes(visible);
    assert forall i | 0 <= i < |r| :: r[i] in multiset(visible);
    r
  }

  lemma ModulesOfSnoc(course: string, dirs: seq<Node>, j: int, quote: string -> string)
    requires 0 <= j < |dirs|
    ensures ModulesOf(course, dirs[..j + 1], quote)
            == var items := ModuleItems(course, dirs[j], quote);
               if items == [] then ModulesOf(course, dirs[..j], quote)
               else ModulesOf(course, dirs[..j], quote) + [Module(Titled(dirs[j].name), items)]
  {
    assert dirs[..j + 1][..j] == dirs[..j];
  }

  lemma CoursesOfSnoc(dirs: seq<Node>, i: int, quote: string -> string)
    requires 0 <= i < |dirs|
    ensures CoursesOf(dirs[..i + 1], quote)
            == if dirs[i].name == SharedAssets || CourseOf(dirs[i], quote).modules == [] then CoursesOf(dirs[..i], quote)
               else CoursesOf(dirs[..i], quote) + [CourseOf(dirs[i], quote)]
  {
    assert dirs[..i + 1][..i] == dirs[..i];
  }

  /** The course folders the scan starts from are visible, so no course
      path starts with a dot. */
  lemma {:induction false} CoursesVisible(dirs: seq<Node>, quote: string -> string)
    requires forall i | 0 <= i < |dirs| :: Visible(dirs[i])
    ensures forall i | 0 <= i < |CoursesOf(dirs, quote)| :: !StartsWith(CoursesOf(dirs, quote)[i].path, ".")
  {
    if dirs != [] {
      var n := |dirs| - 1;
      var w := dirs[..n];
      forall i | 0 <= i < |w| ensures Visible(w[i]) {
        assert w[i] == dirs[i];
      }
      CoursesVisible(w, quote);
      var rest := CoursesOf(w, quote);
      var c := CourseOf(dirs[n], quote);
      assert c.path == dirs[n].name && Visible(dirs[n]);
      assert CoursesOf(dirs, quote) == rest || CoursesOf(dirs, quote) == rest + [c];
    }
  }

  /** The module loop of one course folder. */
  method ScanCourse(d: Node, quote: string -> string) returns (modules: seq<Module>)
    ensures modules == CourseOf(d, quote).modules
  {
    var mdirs := SortNodes(Folders(if d.Folder? then d.entries else []));
    modules := [];
    for j := 0 to |mdirs|
      invariant modules == ModulesOf(d.name, mdirs[..j], quote)
    {
      ModulesOfSnoc(d.name, mdirs, j, quote);
      var items := ScanModule(d.name, mdirs[j], quote);
      if items != [] {
        modules := modules + [Module(Titled(mdirs[j].name), items)];
      }
    }
    assert mdirs[..|mdirs|] == mdirs;
  }

  /** `scan_directory`: every course is a visible folder other than
      `shared_assets`, and has a module, every module of which has an
      item. */
  method ScanDirectory(root: seq<Node>, quote: string -> string) returns (courses: seq<Course>)
    ensures courses == CoursesOf(CourseDirs(root), quote)
    ensures forall i | 0 <= i < |courses| ::
              courses[i].modules != [] && courses[i].path != SharedAssets
              && !StartsWith(courses[i].path, ".")
              && forall m | 0 <= m < |courses[i].modules| :: courses[i].modules[m].items != []
  {
    var dirs := CourseDirs(root);
    courses := [];
    for i := 0 to |dirs|
      invariant courses == CoursesOf(dirs[..i], quote)
    {
      var d := dirs[i];
      CoursesOfSnoc(dirs, i, quote);
      if d.name != SharedAssets {
        var modules := ScanCourse(d, quote);
        if modules != [] {
          courses := courses + [Course(Titled(d.name), d.name, modules)];
        }
      }
    }
    assert dirs[..|dirs|] == dirs;
    CoursesVisible(dirs, quote);
  }
}
