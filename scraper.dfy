/** The course and module driver of coursera/scraper.py: how an item URL is
    classified, how its title falls back to the URL, how the module loop
    hands out course-global item counters, when the course loop stops, and
    how items already on disk are registered and renumbered instead of
    being downloaded again.  Every answer of the browser (the item links of
    a module, the number of materials an item yields) is an input. */
module Scraper {
  import opened Base
  import opened Utils
  import opened Fs
  import opened Files

  // ---------------------------------------------------------------------
  // _determine_item_type
  // ---------------------------------------------------------------------

  /** The kinds `_determine_item_type` returns.  The dispatcher also accepts
      "assignment", which the classifier never produces. */
  datatype ItemKind = Video | Reading | Quiz | Lab | Supplement | Other

  predicate IsVideoUrl(url: string) { Contains(url, "/lecture/") || Contains(url, "/video-item/") }
  predicate IsReadingUrl(url: string) { Contains(url, "/reading/") }
  predicate IsQuizUrl(url: string)
  {
    Contains(url, "/quiz/") || Contains(url, "/exam/") || Contains(url, "/assignment/")
  }
  predicate IsLabUrl(url: string) { Contains(url, "/ungradedLab/") || Contains(url, "/lab/") }
  predicate IsSupplementUrl(url: string) { Contains(url, "/supplement/") }

  /** The URL markers, each with its kind, in the order they are tested. */
  const Markers: seq<(string, ItemKind)> :=
    [("/lecture/", Video), ("/video-item/", Video), ("/reading/", Reading),
     ("/quiz/", Quiz), ("/exam/", Quiz), ("/assignment/", Quiz),
     ("/ungradedLab/", Lab), ("/lab/", Lab), ("/supplement/", Supplement)]

  /** Reference reading of the classifier: the kind of the first marker in
      the table that the URL contains, or Other. */
  function FirstMarkerKind(markers: seq<(string, ItemKind)>, url: string): ItemKind
  {
    if markers == [] then Other
    else if Contains(url, markers[0].0) then markers[0].1
    else FirstMarkerKind(markers[1..], url)
  }

  /** `_determine_item_type`. */
  function DetermineItemType(url: string): ItemKind
  {
    if IsVideoUrl(url) then Video
    else if IsReadingUrl(url) then Reading
    else if IsQuizUrl(url) then Quiz
    else if IsLabUrl(url) then Lab
    else if IsSupplementUrl(url) then Supplement
    else Other
  }

  /** The chain of tests agrees with the ordered marker table: the earliest
      marker present decides. */
  lemma ClassifierFollowsMarkerOrder(url: string)
    ensures DetermineItemType(url) == FirstMarkerKind(Markers, url)
  {
    var t3 := Markers[3..];
    assert Markers == [("/lecture/", Video), ("/video-item/", Video), ("/reading/", Reading)] + t3;
    assert Markers[1..] == [("/video-item/", Video), ("/reading/", Reading)] + t3;
    FirstMarkerCons(("/lecture/", Video), Markers[1..], url);
    FirstMarkerCons(("/video-item/", Video), Markers[2..], url);
    FirstMarkerCons(("/reading/", Reading), t3, url);
    MarkerTail(url);
  }

  /** The last six markers: quizzes, labs and supplements. */
  lemma MarkerTail(url: string)
    ensures FirstMarkerKind(Markers[3..], url)
            == if IsQuizUrl(url) then Quiz else if IsLabUrl(url) then Lab else if IsSupplementUrl(url) then Supplement else Other
  {
    var t8 := [("/supplement/", Supplement)];
    var t7 := [("/lab/", Lab)] + t8;
    var t6 := [("/ungradedLab/", Lab)] + t7;
    var t5 := [("/assignment/", Quiz)] + t6;
    var t4 := [("/exam/", Quiz)] + t5;
    assert Markers[3..] == [("/quiz/", Quiz)] + t4;
    FirstMarkerCons(("/quiz/", Quiz), t4, url);
    FirstMarkerCons(("/exam/", Quiz), t5, url);
    FirstMarkerCons(("/assignment/", Quiz), t6, url);
    FirstMarkerCons(("/ungradedLab/", Lab), t7, url);
    FirstMarkerCons(("/lab/", Lab), t8, url);
    FirstMarkerCons(("/supplement/", Supplement), [], url);
    assert t8 == [("/supplement/", Supplement)] + [];
  }

  lemma FirstMarkerCons(m: (string, ItemKind), rest: seq<(string, ItemKind)>, url: string)
    ensures FirstMarkerKind([m] + rest, url) == if Contains(url, m.0) then m.1 else FirstMarkerKind(rest, url)
  {
    assert ([m] + rest)[1..] == rest;
  }

  /** A table without Other entries yields Other exactly when the URL
      contains none of its markers. */
  lemma {:induction false} FirstMarkerOther(markers: seq<(string, ItemKind)>, url: string)
    requires forall i | 0 <= i < |markers| :: markers[i].1 != Other
    ensures FirstMarkerKind(markers, url) == Other <==> forall i | 0 <= i < |markers| :: !Contains(url, markers[i].0)
  {
    if markers != [] {
      FirstMarkerOther(markers[1..], url);
      assert forall i | 1 <= i < |markers| :: markers[i] == markers[1..][i - 1];
    }
  }

  /** `_determine_item_type` answers "other" exactly when the URL carries
      none of the nine markers. */
  lemma OtherIffNoMarker(url: string)
    ensures DetermineItemType(url) == Other <==> forall i | 0 <= i < |Markers| :: !Contains(url, Markers[i].0)
  {
    ClassifierFollowsMarkerOrder(url);
    FirstMarkerOther(Markers, url);
  }

  /** A URL that carries a video marker is a video whatever else it
      contains. */
  lemma VideoMarkerWins(prefix: string, rest: string)
    ensures DetermineItemType(prefix + "/lecture/" + rest) == Video
  {
    ContainsInside(prefix, "/lecture/", rest);
  }

  // ---------------------------------------------------------------------
  // _get_item_title, URL fallback; the course directory
  // ---------------------------------------------------------------------

  /** `s.rstrip("/")`. */
  function StripTrailingSlashes(s: string): (r: string)
    ensures StartsWith(s, r)
    ensures r == [] || r[|r| - 1] != '/'
    ensures forall i | |r| <= i < |s| :: s[i] == '/'
  {
    if s != [] && s[|s| - 1] == '/' then StripTrailingSlashes(s[..|s| - 1]) else s
  }

  /** The URL fallback of `_get_item_title`: the last segment of the URL
      with its query and trailing slashes removed, or "Untitled", sanitised. */
  function TitleFromUrl(itemUrl: string): (r: string)
    ensures r != [] && IsSanitized(r)
  {
    var parts := Split(StripTrailingSlashes(BeforeFirst(itemUrl, '?')), '/');
    var last := Last(parts);
    var name := if last != [] then last else "Untitled";
    SanitizedShape(name);
    SanitizeFilename(name)
  }

  lemma BeforeQuery(base: string, query: string)
    requires '?' !in base
    ensures BeforeFirst(base + "?" + query, '?') == base
  {
    var u := base + "?" + query;
    FirstIndexAt(base, '?', query);
    assert u[..|base|] == base;
  }

  /** The query string never changes the fallback title. */
  lemma TitleIgnoresQuery(base: string, query: string)
    requires '?' !in base
    ensures TitleFromUrl(base + "?" + query) == TitleFromUrl(base)
  {
    BeforeQuery(base, query);
    BeforeQuery(base, "");
    assert base + "?" + "" == base + "?";
    assert BeforeFirst(base, '?') == base by {
      FirstIndexAt(base, '?', "");
    }
  }

  /** A trailing slash never changes the fallback title. */
  lemma TitleIgnoresTrailingSlash(url: string)
    requires '?' !in url
    ensures TitleFromUrl(url + "/") == TitleFromUrl(url)
  {
    FirstIndexAt(url, '?', "");
    FirstIndexAt(url + "/", '?', "");
    assert url + "/" + "" == url + "/";
    assert url + "" == url;
    assert (url + "/")[..|url|] == url;
  }

  /** The fallback title of `.../<segment>` is the sanitised segment. */
  lemma TitleOfLastSegment(prefix: string, segment: string)
    requires '?' !in prefix && '?' !in segment && '/' !in segment && segment != []
    ensures TitleFromUrl(prefix + "/" + segment) == SanitizeFilename(segment)
  {
    var u := prefix + "/" + segment;
    assert '?' !in u;
    assert BeforeFirst(u, '?') == u;
    assert u[|u| - 1] == segment[|segment| - 1] != '/';
    assert StripTrailingSlashes(u) == u;
    SplitConcat(prefix, '/', segment);
    SplitNone(segment, '/');
    assert Last(Split(u, '/')) == segment;
  }

  /** `download_dir / sanitize_filename(course_url.split("/")[-1])`. */
  function CourseDir(downloadDir: Path, courseUrl: string): (r: Path)
    ensures |r| == |downloadDir| + 1 && r[..|downloadDir|] == downloadDir
    ensures IsSanitized(r[|downloadDir|]) && r[|downloadDir|] != []
  {
    var slug := Last(Split(courseUrl, '/'));
    SanitizedShape(slug);
    downloadDir + [SanitizeFilename(slug)]
  }

  /** The course directory is named after the last URL segment. */
  lemma CourseDirOfSlug(downloadDir: Path, prefix: string, slug: string)
    requires '/' !in slug
    ensures CourseDir(downloadDir, prefix + "/" + slug) == downloadDir + [SanitizeFilename(slug)]
  {
    SplitConcat(prefix, '/', slug);
    SplitNone(slug, '/');
  }

  // ---------------------------------------------------------------------
  // _process_module: course-global counters
  // ---------------------------------------------------------------------

  function SeenSet(links: seq<string>): set<string>
  {
    set u | u in links
  }

  /** The items a module's link list hands on to `_process_course_item`,
      each with its `item_counter`: links already visited are skipped and a
      new link gets the size of the visited set after its insertion. */
  function NewItems(links: seq<string>, visited: set<string>): seq<(string, nat)>
  {
    if links == [] then []
    else if links[0] in visited then NewItems(links[1..], visited)
    else [(links[0], |visited + {links[0]}|)] + NewItems(links[1..], visited + {links[0]})
  }

  function Urls(items: seq<(string, nat)>): seq<string>
  {
    seq(|items|, i requires 0 <= i < |items| => items[i].0)
  }

  /** The materials of the handled items, `item_materials` being what one
      call of `_process_course_item` yields. */
  function Downloads(items: seq<(string, nat)>, itemMaterials: (string, nat) -> nat): nat
  {
    if items == [] then 0 else itemMaterials(items[0].0, items[0].1) + Downloads(items[1..], itemMaterials)
  }

  lemma SeenSetCons(links: seq<string>)
    requires links != []
    ensures SeenSet(links) == {links[0]} + SeenSet(links[1..])
  {
    assert links == [links[0]] + links[1..];
  }

  /** Each new item grows the visited set by exactly one. */
  lemma {:induction false} NewItemsCount(links: seq<string>, visited: set<string>)
    ensures |visited + SeenSet(links)| == |visited| + |NewItems(links, visited)|
    decreases |links|
  {
    if links != [] {
      var u := links[0];
      SeenSetCons(links);
      assert visited + SeenSet(links) == (visited + {u}) + SeenSet(links[1..]);
      CardAdd(visited, u);
      NewItemsCount(links[1..], visited + {u});
      if u in visited {
        NewItemsCount(links[1..], visited);
      }
    }
  }

  /** Counters are consecutive from the size of the visited set: 1-based and
      strictly increasing over a course that starts with nothing visited. */
  lemma {:induction false} NewItemsCounters(links: seq<string>, visited: set<string>)
    ensures forall i | 0 <= i < |NewItems(links, visited)| :: NewItems(links, visited)[i].1 == |visited| + i + 1
    decreases |links|
  {
    if links != [] {
      var u := links[0];
      CardAdd(visited, u);
      var r := NewItems(links, visited);
      if u in visited {
        NewItemsCounters(links[1..], visited);
        assert r == NewItems(links[1..], visited);
      } else {
        var rest := NewItems(links[1..], visited + {u});
        NewItemsCounters(links[1..], visited + {u});
        assert r == [(u, |visited + {u}|)] + rest;
        forall i | 0 <= i < |r|
          ensures r[i].1 == |visited| + i + 1
        {
          if i > 0 {
            assert r[i] == rest[i - 1];
            assert rest[i - 1].1 == |visited + {u}| + (i - 1) + 1;
          } else {
            assert r[0].1 == |visited + {u}|;
          }
        }
      }
    }
  }

  /** The handled URLs are exactly the new links, each once. */
  lemma {:induction false} NewItemsUrls(links: seq<string>, visited: set<string>)
    ensures var r := Urls(NewItems(links, visited));
            && Distinct(r)
            && forall u :: u in r <==> u in links && u !in visited
    decreases |links|
  {
    if links != [] {
      var u := links[0];
      var r := NewItems(links, visited);
      assert forall v :: v in links <==> v == u || v in links[1..] by {
        assert links == [u] + links[1..];
      }
      if u in visited {
        NewItemsUrls(links[1..], visited);
      } else {
        NewItemsUrls(links[1..], visited + {u});
        var rest := NewItems(links[1..], visited + {u});
        assert Urls(r) == [u] + Urls(rest);
      }
    }
  }

  /** What the module loop knows after handling `links[..idx]`. */
  predicate ModuleLoopState(links: seq<string>, visited: set<string>, itemMaterials: (string, nat) -> nat,
                            idx: int, seen: set<string>, processed: nat, downloaded: nat)
    requires 0 <= idx <= |links|
  {
    && seen + SeenSet(links[idx..]) == visited + SeenSet(links)
    && processed + |NewItems(links[idx..], seen)| == |NewItems(links, visited)|
    && downloaded + Downloads(NewItems(links[idx..], seen), itemMaterials) == Downloads(NewItems(links, visited), itemMaterials)
  }

  /** One link of the module loop: skipped when visited, otherwise handled
      with the next counter. */
  lemma ModuleStep(links: seq<string>, visited: set<string>, itemMaterials: (string, nat) -> nat,
                   idx: int, seen: set<string>, processed: nat, downloaded: nat)
    requires 0 <= idx < |links| && ModuleLoopState(links, visited, itemMaterials, idx, seen, processed, downloaded)
    ensures var u := links[idx];
            if u in seen then ModuleLoopState(links, visited, itemMaterials, idx + 1, seen, processed, downloaded)
            else ModuleLoopState(links, visited, itemMaterials, idx + 1, seen + {u}, processed + 1,
                                 downloaded + itemMaterials(u, |seen + {u}|))
  {
    assert links[idx..][0] == links[idx] && links[idx..][1..] == links[idx + 1..];
    SeenSetCons(links[idx..]);
    var u := links[idx];
    CardAdd(seen, u);
    if u !in seen {
      var here := NewItems(links[idx..], seen);
      assert here[0] == (u, |seen + {u}|);
      assert here[1..] == NewItems(links[idx + 1..], seen + {u});
    }
  }

  /** `_process_module`.  `visited'` is the shared `visited_urls` set after
      the call. */
  method ProcessModule(links: seq<string>, visited: set<string>, itemMaterials: (string, nat) -> nat)
    returns (processed: nat, downloaded: nat, visited': set<string>)
    ensures links == [] ==> processed == 0 && downloaded == 0 && visited' == visited
    ensures visited' == visited + SeenSet(links)
    ensures processed == |NewItems(links, visited)|
    ensures downloaded == Downloads(NewItems(links, visited), itemMaterials)
  {
    if links == [] {
      return 0, 0, visited;
    }
    processed, downloaded, visited' := 0, 0, visited;
    assert links[0..] == links;
    var idx := 0;
    while idx < |links|
      invariant 0 <= idx <= |links|
      invariant ModuleLoopState(links, visited, itemMaterials, idx, visited', processed, downloaded)
    {
      var itemUrl := links[idx];
      ModuleStep(links, visited, itemMaterials, idx, visited', processed, downloaded);
      if itemUrl !in visited' {
        visited' := visited' + {itemUrl};
        processed := processed + 1;
        var itemCounter := |visited'|;
        downloaded := downloaded + itemMaterials(itemUrl, itemCounter);
      }
      idx := idx + 1;
    }
    assert links[idx..] == [];
  }

  // ---------------------------------------------------------------------
  // get_course_content: the module loop
  // ---------------------------------------------------------------------

  /** The links the browser finds on module page `n` (1-based); pages past
      the end have none. */
  function ModuleLinks(modules: seq<seq<string>>, n: nat): seq<string>
  {
    if 1 <= n <= |modules| then modules[n - 1] else []
  }

  /** The module loop from module `n` on: the total downloads and every item
      handled, stopping at the first module with no new item. */
  function CourseRun(modules: seq<seq<string>>, n: nat, visited: set<string>, itemMaterials: (string, nat) -> nat)
    : (run: (nat, seq<(string, nat)>))
    decreases |modules| + 1 - n
  {
    if n == 0 || n > |modules| then (0, [])
    else
      var items := NewItems(modules[n - 1], visited);
      if |items| == 0 then (0, [])
      else
        var rest := CourseRun(modules, n + 1, visited + SeenSet(modules[n - 1]), itemMaterials);
        (Downloads(items, itemMaterials) + rest.0, items + rest.1)
  }

  /** `get_course_content`: the course directory and the total materials of
      the module loop. */
  method GetCourseContent(downloadDir: Path, courseUrl: string, modules: seq<seq<string>>,
                          itemMaterials: (string, nat) -> nat)
    returns (courseDir: Path, total: nat, visited: set<string>)
    ensures courseDir == CourseDir(downloadDir, courseUrl)
    ensures total == CourseRun(modules, 1, {}, itemMaterials).0
  {
    courseDir := CourseDir(downloadDir, courseUrl);
    total := 0;
    visited := {};
    var moduleNum := 1;
    ghost var final := CourseRun(modules, moduleNum, visited, itemMaterials).0;
    while true
      invariant 1 <= moduleNum <= |modules| + 1
      invariant total + CourseRun(modules, moduleNum, visited, itemMaterials).0 == final
      decreases |modules| + 1 - moduleNum
    {
      var stop, dld, visited' := ModuleTurn(modules, moduleNum, visited, itemMaterials);
      if stop {
        break;
      }
      visited := visited';
      total := total + dld;
      moduleNum := moduleNum + 1;
    }
  }

  /** One pass of the module loop: `_process_module` on module `n`, and
      whether the loop stops there (nothing processed, nothing
      downloaded). */
  method ModuleTurn(modules: seq<seq<string>>, n: nat, visited: set<string>, itemMaterials: (string, nat) -> nat)
    returns (stop: bool, downloaded: nat, visited': set<string>)
    requires 1 <= n <= |modules| + 1
    ensures stop ==> CourseRun(modules, n, visited, itemMaterials).0 == 0
    ensures !stop ==> n <= |modules| && CourseRun(modules, n, visited, itemMaterials).0
                                        == downloaded + CourseRun(modules, n + 1, visited', itemMaterials).0
  {
    var processed;
    processed, downloaded, visited' := ProcessModule(ModuleLinks(modules, n), visited, itemMaterials);
    stop := processed == 0 && downloaded == 0;
  }

  /** Over a whole course the counters are 1, 2, 3, ... in visiting order. */
  lemma {:induction false} CourseCountersFrom(modules: seq<seq<string>>, n: nat, visited: set<string>,
                                              itemMaterials: (string, nat) -> nat)
    ensures forall i | 0 <= i < |CourseRun(modules, n, visited, itemMaterials).1| ::
              CourseRun(modules, n, visited, itemMaterials).1[i].1 == |visited| + i + 1
    decreases |modules| + 1 - n
  {
    if 1 <= n <= |modules| {
      var links := modules[n - 1];
      var items := NewItems(links, visited);
      if |items| != 0 {
        NewItemsCounters(links, visited);
        NewItemsCount(links, visited);
        var rest := CourseRun(modules, n + 1, visited + SeenSet(links), itemMaterials).1;
        CourseCountersFrom(modules, n + 1, visited + SeenSet(links), itemMaterials);
        var all := CourseRun(modules, n, visited, itemMaterials).1;
        assert all == items + rest;
        forall i | 0 <= i < |all|
          ensures all[i].1 == |visited| + i + 1
        {
          if i >= |items| {
            assert all[i] == rest[i - |items|];
          } else {
            assert all[i] == items[i];
          }
        }
      }
    }
  }

  lemma CourseCounters(modules: seq<seq<string>>, itemMaterials: (string, nat) -> nat)
    ensures var items := CourseRun(modules, 1, {}, itemMaterials).1;
            forall i | 0 <= i < |items| :: items[i].1 == i + 1
  {
    CourseCountersFrom(modules, 1, {}, itemMaterials);
  }

  /** A module whose links were all seen in earlier modules ends the course:
      later modules are never visited. */
  lemma RepeatedModuleStops(modules: seq<seq<string>>, n: nat, visited: set<string>,
                            itemMaterials: (string, nat) -> nat)
    requires 1 <= n <= |modules| && SeenSet(modules[n - 1]) <= visited
    ensures CourseRun(modules, n, visited, itemMaterials) == (0, [])
  {
    NewItemsCount(modules[n - 1], visited);
    assert visited + SeenSet(modules[n - 1]) == visited;
  }

  // ---------------------------------------------------------------------
  // _handle_existing_items
  // ---------------------------------------------------------------------

  /** The name an existing item is registered under: `NNN_rest` with a
      different three-digit prefix is renumbered to the current counter. */
  function ExistingTarget(name: Name, counter: nat): (r: Name)
    ensures |name| > 4 && name[3] == '_' && !StartsWith(name, Pad3(counter) + "_")
            ==> StartsWith(r, Pad3(counter) + "_") && r[|Pad3(counter)| + 1..] == name[4..]
    ensures !(|name| > 4 && name[3] == '_' && !StartsWith(name, Pad3(counter) + "_")) ==> r == name
  {
    if |name| > 4 && name[3] == '_' && !StartsWith(name, Pad3(counter) + "_")
    then Pad3(counter) + "_" + name[4..]
    else name
  }

  /** Below 1000 the renumbered name always carries the current prefix and
      keeps the rest of the name. */
  lemma ExistingTargetNumbered(name: Name, counter: nat)
    requires counter < 1000 && |name| > 4 && name[3] == '_'
    ensures var r := ExistingTarget(name, counter);
            StartsWith(r, Pad3(counter) + "_") && |r| == |name| && r[4..] == name[4..]
  {
  }

  /** From counter 1000 on the prefix has four digits, so a renumbered name
      fails the `name[3] == "_"` guard and is never renumbered again. */
  lemma ExistingTargetPast999(name: Name, counter: nat, later: nat)
    requires counter >= 1000 && |name| > 4 && name[3] == '_' && !StartsWith(name, Pad3(counter) + "_")
    ensures var r := ExistingTarget(name, counter);
            ExistingTarget(r, later) == r
  {
    var r := ExistingTarget(name, counter);
    assert r[3] == Pad3(counter)[3];
  }

  /** The entries of `module_dir` found by slug. */
  predicate ExistingInModule(fs: FileSystem, courseDir: Path, moduleDir: Path, itemUrl: string, p: Path)
  {
    FoundBySlug(fs, courseDir, moduleDir, ExtractSlug(itemUrl), p) && |p| >= 1 && Parent(p) == moduleDir
  }

  function ExistingItems(fs: FileSystem, courseDir: Path, moduleDir: Path, itemUrl: string): set<Path>
  {
    set p | p in fs && ExistingInModule(fs, courseDir, moduleDir, itemUrl, p)
  }

  /** The name an existing item is registered under. */
  function ItemTarget(p: Path, counter: nat): Name
    requires |p| >= 1
  {
    ExistingTarget(p[|p| - 1], counter)
  }

  /** Where an existing item is registered. */
  function Registered(moduleDir: Path, p: Path, counter: nat): Path
    requires |p| >= 1
  {
    Join(moduleDir, ItemTarget(p, counter))
  }

  /** A registered name that passes the renumbering guard starts with the
      current three-digit prefix. */
  lemma GuardedTargetPrefixed(name: Name, counter: nat)
    requires RenumberGuard(ExistingTarget(name, counter))
    ensures counter < 1000 && StartsWith(ExistingTarget(name, counter), Pad3(counter) + "_")
  {
  }

  /** Two items of one module never compete: their registered names are
      equal, or neither is a renumbering candidate of the other, so placing
      one never takes the other away. */
  lemma TargetsSpared(a: Name, b: Name, counter: nat)
    ensures Spared(ExistingTarget(b, counter), ExistingTarget(a, counter))
  {
    var ni, nj := ExistingTarget(a, counter), ExistingTarget(b, counter);
    if RenumberGuard(nj) && NumberedAs(ni, nj[4..]) {
      GuardedTargetPrefixed(b, counter);
      GuardedTargetPrefixed(a, counter);
      assert ni[..4] == nj[..4];
      assert ni == ni[..4] + ni[4..] && nj == nj[..4] + nj[4..];
    }
  }

  /** One pass of the registration loop, as `get_or_move_path` promises it:
      the target is filled exactly when placing it was not vacant, and the
      rest of the module is kept. */
  ghost predicate PlaceStep(fs: FileSystem, fs': FileSystem, courseDir: Path, moduleDir: Path, name: Name, broken: set<Path>)
  {
    (Vacant(fs, courseDir, moduleDir, name, broken) <==> Join(moduleDir, name) !in fs')
    && ModuleKept(fs, fs', moduleDir, name)
  }

  /** `trace` holds the tree before each of the first `n` items and after
      the last of them, each pass a `PlaceStep`. */
  ghost predicate Traced(existing: seq<Path>, n: nat, courseDir: Path, moduleDir: Path, counter: nat, broken: set<Path>,
                         trace: seq<FileSystem>)
    requires n <= |existing| && forall i | 0 <= i < |existing| :: |existing[i]| >= 1
  {
    |trace| == n + 1
    && forall i | 0 <= i < n ::
         PlaceStep(trace[i], trace[i + 1], courseDir, moduleDir, ItemTarget(existing[i], counter), broken)
  }

  /** Every one of the first `n` items whose placement was not vacant when
      its turn came is at its registered path in `fs`. */
  ghost predicate PlacedUpTo(existing: seq<Path>, n: nat, courseDir: Path, moduleDir: Path, counter: nat, broken: set<Path>,
                             trace: seq<FileSystem>, fs: FileSystem)
    requires n <= |existing| && n < |trace| && forall i | 0 <= i < |existing| :: |existing[i]| >= 1
  {
    forall i | 0 <= i < n && !Vacant(trace[i], courseDir, moduleDir, ItemTarget(existing[i], counter), broken) ::
      Registered(moduleDir, existing[i], counter) in fs
  }

  /** A later pass keeps every item placed before it. */
  lemma PlacedStep(existing: seq<Path>, k: nat, courseDir: Path, moduleDir: Path, counter: nat, broken: set<Path>,
                   trace: seq<FileSystem>, fs1: FileSystem, fs2: FileSystem)
    requires k < |existing| && forall i | 0 <= i < |existing| :: |existing[i]| >= 1
    requires |trace| == k + 1 && trace[k] == fs1 && moduleDir in fs2
    requires PlacedUpTo(existing, k, courseDir, moduleDir, counter, broken, trace, fs1)
    requires PlaceStep(fs1, fs2, courseDir, moduleDir, ItemTarget(existing[k], counter), broken)
    ensures PlacedUpTo(existing, k + 1, courseDir, moduleDir, counter, broken, trace + [fs2], fs2)
  {
    var t := trace + [fs2];
    forall i | 0 <= i < k + 1 && !Vacant(t[i], courseDir, moduleDir, ItemTarget(existing[i], counter), broken)
      ensures Registered(moduleDir, existing[i], counter) in fs2
    {
      if i < k {
        assert t[i] == trace[i];
        var x := ItemTarget(existing[i], counter);
        TargetsSpared(existing[i][|existing[i]| - 1], existing[k][|existing[k]| - 1], counter);
        if x != [] {
          assert Join(moduleDir, x) in fs1;
        }
      }
    }
  }

  function RegisteredTargets(fs: FileSystem, courseDir: Path, moduleDir: Path, itemUrl: string, counter: nat): set<Path>
  {
    set p | p in ExistingItems(fs, courseDir, moduleDir, itemUrl) :: Registered(moduleDir, p, counter)
  }

  /** The registered paths of a list of items. */
  function RegisteredOf(items: seq<Path>, moduleDir: Path, counter: nat): set<Path>
    requires forall i | 0 <= i < |items| :: |items[i]| >= 1
  {
    RegisteredUpTo(items, |items|, moduleDir, counter)
  }

  /** The registered paths of the first `n` items. */
  function RegisteredUpTo(items: seq<Path>, n: nat, moduleDir: Path, counter: nat): set<Path>
    requires n <= |items| && forall i | 0 <= i < |items| :: |items[i]| >= 1
  {
    set i | 0 <= i < n :: Registered(moduleDir, items[i], counter)
  }

  lemma RegisteredUpToSnoc(items: seq<Path>, k: nat, moduleDir: Path, counter: nat)
    requires k < |items| && forall i | 0 <= i < |items| :: |items[i]| >= 1
    ensures RegisteredUpTo(items, k + 1, moduleDir, counter)
            == RegisteredUpTo(items, k, moduleDir, counter) + {Registered(moduleDir, items[k], counter)}
  {
    forall q | q in RegisteredUpTo(items, k + 1, moduleDir, counter)
      ensures q in RegisteredUpTo(items, k, moduleDir, counter) + {Registered(moduleDir, items[k], counter)}
    {
      var i :| 0 <= i < k + 1 && q == Registered(moduleDir, items[i], counter);
    }
  }

  /** The list comprehension keeping the found items whose parent is the
      module directory. */
  function InModule(found: seq<Path>, moduleDir: Path): (r: seq<Path>)
    ensures forall p :: p in r <==> p in found && |p| >= 1 && Parent(p) == moduleDir
    ensures forall i | 0 <= i < |r| :: |r[i]| >= 1
  {
    if found == [] then []
    else (if |found[0]| >= 1 && Parent(found[0]) == moduleDir then [found[0]] else []) + InModule(found[1..], moduleDir)
  }

  lemma RegisteredOfAll(existing: seq<Path>, fs: FileSystem, courseDir: Path, moduleDir: Path, itemUrl: string, counter: nat)
    requires forall i | 0 <= i < |existing| :: |existing[i]| >= 1
    requires forall p :: p in existing <==> p in ExistingItems(fs, courseDir, moduleDir, itemUrl)
    ensures RegisteredOf(existing, moduleDir, counter) == RegisteredTargets(fs, courseDir, moduleDir, itemUrl, counter)
  {
    var a := RegisteredOf(existing, moduleDir, counter);
    var b := RegisteredTargets(fs, courseDir, moduleDir, itemUrl, counter);
    forall q | q in a ensures q in b {
      var i :| 0 <= i < |existing| && q == Registered(moduleDir, existing[i], counter);
      assert existing[i] in ExistingItems(fs, courseDir, moduleDir, itemUrl);
    }
    forall q | q in b ensures q in a {
      var p :| p in ExistingItems(fs, courseDir, moduleDir, itemUrl) && q == Registered(moduleDir, p, counter);
      var i :| 0 <= i < |existing| && existing[i] == p;
    }
  }

  /** `_handle_existing_items`: true exactly when the module already holds
      materials of the item; each of them, in the order `find_items` lists
      them (`existing`), then goes through `get_or_move_path` under its
      registered name, that path joins `downloaded` whether or not a file
      ended up there, and every item whose placement was not vacant when
      its turn came is at its registered path afterwards. */
  method HandleExistingItems(fs: FileSystem, courseDir: Path, moduleDir: Path, itemUrl: string,
                             counter: nat, downloaded: set<Path>, broken: set<Path>)
    returns (handled: bool, fs': FileSystem, downloaded': set<Path>, ghost existing: seq<Path>, ghost trace: seq<FileSystem>)
    requires WellFormed(fs) && |moduleDir| >= 1 && NoFileOnPath(fs, moduleDir)
    ensures handled <==> ExistingItems(fs, courseDir, moduleDir, itemUrl) != {}
    ensures !handled ==> fs' == fs && downloaded' == downloaded
    ensures downloaded' == downloaded + RegisteredTargets(fs, courseDir, moduleDir, itemUrl, counter)
    ensures WellFormed(fs') && NoFileOnPath(fs', moduleDir) && ConfinedTo(fs, fs', moduleDir)
    ensures handled ==> IsDir(fs', moduleDir)
    ensures forall p :: p in existing <==> p in ExistingItems(fs, courseDir, moduleDir, itemUrl)
    ensures forall i | 0 <= i < |existing| :: |existing[i]| >= 1
    ensures Traced(existing, |existing|, courseDir, moduleDir, counter, broken, trace)
            && trace[0] == fs && trace[|existing|] == fs'
    ensures PlacedUpTo(existing, |existing|, courseDir, moduleDir, counter, broken, trace, fs')
  {
    ghost var dirs, globbed;
    var found;
    found, dirs, globbed := FindItems(fs, courseDir, moduleDir, itemUrl);
    var items := InModule(found, moduleDir);
    existing := items;
    assert forall p :: p in items <==> p in ExistingItems(fs, courseDir, moduleDir, itemUrl);
    RegisteredOfAll(items, fs, courseDir, moduleDir, itemUrl, counter);
    fs', downloaded', trace := fs, downloaded, [fs];
    if items == [] {
      assert ExistingItems(fs, courseDir, moduleDir, itemUrl) == {};
      return false, fs', downloaded', existing, trace;
    }
    assert items[0] in ExistingItems(fs, courseDir, moduleDir, itemUrl);
    handled := true;
    fs', downloaded', trace := RegisterAll(fs, courseDir, moduleDir, items, counter, downloaded, broken);
  }

  /** One existing item: its registered name goes through
      `get_or_move_path` and joins `downloaded`. */
  method RegisterItem(fs: FileSystem, courseDir: Path, moduleDir: Path, item: Path, counter: nat, broken: set<Path>)
    returns (itemFile: Path, fs': FileSystem)
    requires WellFormed(fs) && |moduleDir| >= 1 && NoFileOnPath(fs, moduleDir) && |item| >= 1
    ensures itemFile == Registered(moduleDir, item, counter)
    ensures WellFormed(fs') && IsDir(fs', moduleDir) && NoFileOnPath(fs', moduleDir) && ConfinedTo(fs, fs', moduleDir)
    ensures PlaceStep(fs, fs', courseDir, moduleDir, ItemTarget(item, counter), broken)
  {
    var target := ExistingTarget(item[|item| - 1], counter);
    itemFile, fs' := PlaceInModule(fs, courseDir, moduleDir, target, broken);
  }

  /** The state of the registration loop after the first `i` items. */
  ghost predicate Registering(fs: FileSystem, courseDir: Path, moduleDir: Path, existing: seq<Path>, i: nat, counter: nat,
                              downloaded: set<Path>, broken: set<Path>, fs': FileSystem, downloaded': set<Path>,
                              trace: seq<FileSystem>)
    requires i <= |existing| && forall j | 0 <= j < |existing| :: |existing[j]| >= 1
  {
    WellFormed(fs') && NoFileOnPath(fs', moduleDir) && ConfinedTo(fs, fs', moduleDir)
    && (i > 0 ==> IsDir(fs', moduleDir))
    && downloaded' == downloaded + RegisteredUpTo(existing, i, moduleDir, counter)
    && Traced(existing, i, courseDir, moduleDir, counter, broken, trace) && trace[0] == fs && trace[i] == fs'
    && PlacedUpTo(existing, i, courseDir, moduleDir, counter, broken, trace, fs')
  }

  /** The loop of `_handle_existing_items` over the existing items: every
      registered path joins `downloaded`, and every item whose placement was
      not vacant at its turn is at its registered path at the end. */
  method RegisterAll(fs: FileSystem, courseDir: Path, moduleDir: Path, existing: seq<Path>, counter: nat,
                     downloaded: set<Path>, broken: set<Path>)
    returns (fs': FileSystem, downloaded': set<Path>, ghost trace: seq<FileSystem>)
    requires WellFormed(fs) && |moduleDir| >= 1 && NoFileOnPath(fs, moduleDir)
    requires forall i | 0 <= i < |existing| :: |existing[i]| >= 1
    ensures downloaded' == downloaded + RegisteredOf(existing, moduleDir, counter)
    ensures WellFormed(fs') && NoFileOnPath(fs', moduleDir) && ConfinedTo(fs, fs', moduleDir)
    ensures existing != [] ==> IsDir(fs', moduleDir)
    ensures Traced(existing, |existing|, courseDir, moduleDir, counter, broken, trace)
            && trace[0] == fs && trace[|existing|] == fs'
    ensures PlacedUpTo(existing, |existing|, courseDir, moduleDir, counter, broken, trace, fs')
  {
    fs', downloaded', trace := fs, downloaded, [fs];
    var i := 0;
    while i < |existing|
      invariant 0 <= i <= |existing|
      invariant Registering(fs, courseDir, moduleDir, existing, i, counter, downloaded, broken, fs', downloaded', trace)
    {
      fs', downloaded', trace := RegisterTurn(fs, courseDir, moduleDir, existing, i, counter, downloaded, broken,
                                              fs', downloaded', trace);
      i := i + 1;
    }
  }

  /** One pass of the registration loop. */
  method RegisterTurn(fs: FileSystem, courseDir: Path, moduleDir: Path, existing: seq<Path>, i: nat, counter: nat,
                      downloaded: set<Path>, broken: set<Path>, fs1: FileSystem, dl1: set<Path>, ghost trace1: seq<FileSystem>)
    returns (fs2: FileSystem, dl2: set<Path>, ghost trace2: seq<FileSystem>)
    requires |moduleDir| >= 1 && i < |existing| && forall j | 0 <= j < |existing| :: |existing[j]| >= 1
    requires Registering(fs, courseDir, moduleDir, existing, i, counter, downloaded, broken, fs1, dl1, trace1)
    ensures Registering(fs, courseDir, moduleDir, existing, i + 1, counter, downloaded, broken, fs2, dl2, trace2)
  {
    var itemFile;
    itemFile, fs2 := RegisterItem(fs1, courseDir, moduleDir, existing[i], counter, broken);
    RegisteredUpToSnoc(existing, i, moduleDir, counter);
    ConfinedTrans(fs, fs1, fs2, moduleDir);
    PlacedStep(existing, i, courseDir, moduleDir, counter, broken, trace1, fs1, fs2);
    TracedSnoc(existing, i, courseDir, moduleDir, counter, broken, trace1, fs2);
    trace2 := trace1 + [fs2];
    dl2 := dl1 + {itemFile};
  }

  lemma TracedSnoc(existing: seq<Path>, k: nat, courseDir: Path, moduleDir: Path, counter: nat, broken: set<Path>,
                   trace: seq<FileSystem>, fs2: FileSystem)
    requires k < |existing| && forall i | 0 <= i < |existing| :: |existing[i]| >= 1
    requires Traced(existing, k, courseDir, moduleDir, counter, broken, trace)
    requires PlaceStep(trace[k], fs2, courseDir, moduleDir, ItemTarget(existing[k], counter), broken)
    ensures Traced(existing, k + 1, courseDir, moduleDir, counter, broken, trace + [fs2])
  {
    var t := trace + [fs2];
    forall i | 0 <= i < k + 1
      ensures PlaceStep(t[i], t[i + 1], courseDir, moduleDir, ItemTarget(existing[i], counter), broken)
    {
      if i < k {
        assert t[i] == trace[i] && t[i + 1] == trace[i + 1];
      }
    }
  }

  // ---------------------------------------------------------------------
  // _process_course_item / _execute_extractor
  // ---------------------------------------------------------------------

  /** What `_execute_extractor` adds for a kind: the extractor's count, or
      nothing for the kinds without an extractor. */
  function ExtractorCount(kind: ItemKind, count: nat): (r: nat)
    ensures kind == Supplement || kind == Other ==> r == 0
    ensures kind != Supplement && kind != Other ==> r == count
  {
    match kind
    case Video => count
    case Reading => count
    case Quiz => count
    case Lab => count
    case Supplement => 0
    case Other => 0
  }

  /** `_process_course_item`: an item already on disk contributes nothing;
      otherwise its extractor count plus its PDF count. */
  function ItemMaterials(kind: ItemKind, handled: bool, extracted: nat, pdfs: nat): (r: nat)
    ensures handled ==> r == 0
    ensures !handled && (kind == Supplement || kind == Other) ==> r == pdfs
    ensures !handled && kind != Supplement && kind != Other ==> r == extracted + pdfs
    ensures !handled ==> r >= pdfs
  {
    if handled then 0 else ExtractorCount(kind, extracted) + pdfs
  }
}
