/** The first, single-file downloader (coursera_scraper.py): one browser
    session that reads the courses of a certificate, walks each course
    module by module and item by item, classifies every item by its URL and
    downloads the videos, PDFs and other resources its page links to.
    Every answer of the browser (the links a page shows, where a module URL
    lands, the texts of the title elements) and every download outcome is
    an input. */
module Legacy {
  import opened Base
  import opened Listing

  // ---------------------------------------------------------------------
  // sanitize_filename
  // ---------------------------------------------------------------------

  /** The characters `sanitize_filename` replaces by `_`. */
  const Invalid := "<>:\"/\\|?*"

  function SanitizeChar(c: char): char { if c in Invalid then '_' else c }

  /** `sanitize_filename`: the character class substitution, scanned left
      to right.  Every replaced character becomes `_` in place and every
      other one is kept, so the length does not change. */
  function SanitizeFilename(s: string): (r: string)
    ensures |r| == |s|
    ensures forall i | 0 <= i < |r| :: r[i] !in Invalid
    ensures forall i | 0 <= i < |s| && s[i] in Invalid :: r[i] == '_'
    ensures forall i | 0 <= i < |s| && s[i] !in Invalid :: r[i] == s[i]
  {
    if s == [] then []
    else
      var n := |s| - 1;
      SanitizeFilename(s[..n]) + [SanitizeChar(s[n])]
  }

  /** A name without replaced characters is its own sanitised form, so
      sanitising twice is sanitising once. */
  lemma SanitizeFixed(s: string)
    requires forall i | 0 <= i < |s| :: s[i] !in Invalid
    ensures SanitizeFilename(s) == s
  {
  }

  lemma SanitizeIdempotent(s: string)
    ensures SanitizeFilename(SanitizeFilename(s)) == SanitizeFilename(s)
  {
    SanitizeFixed(SanitizeFilename(s));
  }

  // ---------------------------------------------------------------------
  // get_professional_certificate_courses
  // ---------------------------------------------------------------------

  const Learn := "/learn/"

  /** `href.split('?')[0].split('#')[0]`. */
  function CleanUrl(href: string): (r: string)
    ensures '?' !in r && '#' !in r
    ensures StartsWith(href, r)
    ensures '?' !in href && '#' !in href ==> r == href
  {
    var a := BeforeFirst(href, '?');
    var r := BeforeFirst(a, '#');
    assert r == href[..|r|] by {
      assert a == href[..|a|];
    }
    assert forall i | 0 <= i < |r| :: r[i] == a[i];
    r
  }

  /** An anchor of the certificate page kept by the first loop: it has an
      `href` containing `/learn/`. */
  predicate IsCourseLink(href: Option<string>)
  {
    href.Some? && Contains(href.value, Learn)
  }

  /** The cleaned URLs of the course links, in page order. */
  function CourseLinks(hrefs: seq<Option<string>>): (r: seq<string>)
    ensures forall i | 0 <= i < |r| :: '?' !in r[i] && '#' !in r[i]
  {
    if hrefs == [] then []
    else
      var n := |hrefs| - 1;
      CourseLinks(hrefs[..n]) + if IsCourseLink(hrefs[n]) then [CleanUrl(hrefs[n].value)] else []
  }

  /** The cleaned URLs of the course cards' enclosing anchors that have an
      `href`, in page order (the fallback). */
  function CardLinks(hrefs: seq<Option<string>>): (r: seq<string>)
    ensures forall i | 0 <= i < |r| :: '?' !in r[i] && '#' !in r[i]
  {
    if hrefs == [] then []
    else
      var n := |hrefs| - 1;
      CardLinks(hrefs[..n]) + if hrefs[n].Some? && hrefs[n].value != [] then [CleanUrl(hrefs[n].value)] else []
  }

  /** The filter applied after the dedupe. */
  predicate IsCourseUrl(c: string)
  {
    Contains(c, Learn) && !Contains(c, "/lecture/") && !Contains(c, "/supplement/")
  }

  /** What `get_professional_certificate_courses` returns: the distinct
      cleaned course links in order of first appearance that pass the
      filter, or, when none does, the distinct cleaned card links. */
  function CertificateCourses(links: seq<Option<string>>, cards: seq<Option<string>>): seq<string>
  {
    var courses := Filter(Dedup(CourseLinks(links)), IsCourseUrl);
    if courses != [] then courses else Dedup(CardLinks(cards))
  }

  /** `c` is the cleaned URL of one of the course links. */
  predicate LinkedCourse(links: seq<Option<string>>, c: string)
  {
    exists i | 0 <= i < |links| :: IsCourseLink(links[i]) && CleanUrl(links[i].value) == c
  }

  lemma {:induction false} CourseLinksFrom(links: seq<Option<string>>)
    ensures forall c :: c in CourseLinks(links) <==> LinkedCourse(links, c)
  {
    if links != [] {
      var n := |links| - 1;
      CourseLinksFrom(links[..n]);
      forall c ensures LinkedCourse(links[..n], c) || (IsCourseLink(links[n]) && CleanUrl(links[n].value) == c)
                       <==> LinkedCourse(links, c)
      {
        if LinkedCourse(links, c) {
          var i :| 0 <= i < |links| && IsCourseLink(links[i]) && CleanUrl(links[i].value) == c;
          if i < n {
            assert links[..n][i] == links[i];
          }
        }
        if LinkedCourse(links[..n], c) {
          var i :| 0 <= i < n && IsCourseLink(links[..n][i]) && CleanUrl(links[..n][i].value) == c;
          assert links[i] == links[..n][i];
        }
      }
    }
  }

  /** The courses are distinct and free of query and fragment.  When a
      course link passes the filter, they are exactly the cleaned course
      links that pass it; links of lectures and supplements are never
      among them. */
  lemma CertificateCoursesSpec(links: seq<Option<string>>, cards: seq<Option<string>>)
    ensures var r := CertificateCourses(links, cards);
      Distinct(r) && (forall i | 0 <= i < |r| :: '?' !in r[i] && '#' !in r[i])
    ensures (exists c :: LinkedCourse(links, c) && IsCourseUrl(c)) ==>
      forall c :: c in CertificateCourses(links, cards) <==> LinkedCourse(links, c) && IsCourseUrl(c)
  {
    var found := Dedup(CourseLinks(links));
    var courses := Filter(found, IsCourseUrl);
    CourseLinksFrom(links);
    FilterDistinct(found, IsCourseUrl);
    if exists c :: LinkedCourse(links, c) && IsCourseUrl(c) {
      var c :| LinkedCourse(links, c) && IsCourseUrl(c);
      assert c in found;
      assert courses != [];
    }
    var r := CertificateCourses(links, cards);
    forall i | 0 <= i < |r| ensures '?' !in r[i] && '#' !in r[i] {
      if courses != [] {
        assert r[i] in found;
        var k :| 0 <= k < |CourseLinks(links)| && CourseLinks(links)[k] == r[i];
      } else {
        assert r[i] in CardLinks(cards);
        var k :| 0 <= k < |CardLinks(cards)| && CardLinks(cards)[k] == r[i];
      }
    }
  }

  lemma {:induction false} FilterDistinct<T>(s: seq<T>, p: T -> bool)
    requires Distinct(s)
    ensures Distinct(Filter(s, p))
  {
    if s != [] {
      FilterDistinct(s[1..], p);
      assert forall i | 1 <= i < |s| :: s[i] == s[1..][i - 1];
    }
  }

  /** One anchor of the first loop: a course link whose cleaned URL is new
      is appended. */
  lemma CourseLinksStep(links: seq<Option<string>>, i: int)
    requires 0 <= i < |links|
    ensures var before := Dedup(CourseLinks(links[..i]));
      Dedup(CourseLinks(links[..i + 1]))
      == if IsCourseLink(links[i]) && CleanUrl(links[i].value) !in before then before + [CleanUrl(links[i].value)] else before
  {
    var s := links[..i + 1];
    assert s[..i] == links[..i] && s[i] == links[i];
    assert CourseLinks(s) == CourseLinks(links[..i]) + if IsCourseLink(links[i]) then [CleanUrl(links[i].value)] else [];
    if IsCourseLink(links[i]) {
      DedupSnoc(CourseLinks(links[..i]), CleanUrl(links[i].value));
    } else {
      assert CourseLinks(s) == CourseLinks(links[..i]);
    }
  }

  /** One card of the fallback loop. */
  lemma CardLinksStep(cards: seq<Option<string>>, i: int)
    requires 0 <= i < |cards|
    ensures var before := Dedup(CardLinks(cards[..i]));
      Dedup(CardLinks(cards[..i + 1]))
      == if cards[i].Some? && cards[i].value != [] && CleanUrl(cards[i].value) !in before then before + [CleanUrl(cards[i].value)] else before
  {
    var s := cards[..i + 1];
    assert s[..i] == cards[..i] && s[i] == cards[i];
    assert CardLinks(s) == CardLinks(cards[..i]) + if cards[i].Some? && cards[i].value != [] then [CleanUrl(cards[i].value)] else [];
    if cards[i].Some? && cards[i].value != [] {
      DedupSnoc(CardLinks(cards[..i]), CleanUrl(cards[i].value));
    } else {
      assert CardLinks(s) == CardLinks(cards[..i]);
    }
  }

  /** The method of the page: the first loop collects the cleaned course
      links not yet collected, `dict.fromkeys` keeps them as they are, the
      filter drops what is not a course, and only when nothing is left do
      the course cards give the links. */
  method GetCertificateCourses(links: seq<Option<string>>, cards: seq<Option<string>>) returns (courses: seq<string>)
    ensures courses == CertificateCourses(links, cards)
  {
    courses := [];
    for i := 0 to |links|
      invariant courses == Dedup(CourseLinks(links[..i]))
    {
      CourseLinksStep(links, i);
      var href := links[i];
      if href.Some? && Contains(href.value, Learn) {
        var baseUrl := CleanUrl(href.value);
        if baseUrl !in courses {
          courses := courses + [baseUrl];
        }
      }
    }
    assert links[..|links|] == links;
    DedupOfDistinct(courses);
    courses := Dedup(courses);
    courses := Filter(courses, IsCourseUrl);
    if courses == [] {
      for i := 0 to |cards|
        invariant courses == Dedup(CardLinks(cards[..i]))
      {
        CardLinksStep(cards, i);
        var href := cards[i];
        if href.Some? && href.value != [] {
          var baseUrl := CleanUrl(href.value);
          if baseUrl !in courses {
            courses := courses + [baseUrl];
          }
        }
      }
      assert cards[..|cards|] == cards;
    }
  }

  // ---------------------------------------------------------------------
  // Item classification and title
  // ---------------------------------------------------------------------

  datatype ItemType = VideoItem | ReadingItem | QuizItem | AssignmentItem | OtherItem

  /** The chain of tests on the item URL. */
  function ItemTypeOf(url: string): ItemType
  {
    if Contains(url, "/lecture/") then VideoItem
    else if Contains(url, "/supplement/") then ReadingItem
    else if Contains(url, "/quiz/") || Contains(url, "/exam/") then QuizItem
    else if Contains(url, "/assignment/") || Contains(url, "/programming/") then AssignmentItem
    else OtherItem
  }

  /** The URL markers with their types, in the order they are tested. */
  const TypeMarkers: seq<(string, ItemType)> :=
    [("/lecture/", VideoItem), ("/supplement/", ReadingItem), ("/quiz/", QuizItem),
     ("/exam/", QuizItem), ("/assignment/", AssignmentItem), ("/programming/", AssignmentItem)]

  /** Reference reading: the type of the first marker of the table that the
      URL contains, or OtherItem. */
  function FirstMarkerType(markers: seq<(string, ItemType)>, url: string): ItemType
  {
    if markers == [] then OtherItem
    else if Contains(url, markers[0].0) then markers[0].1
    else FirstMarkerType(markers[1..], url)
  }

  /** The earliest marker of the table that the URL contains decides. */
  lemma ItemTypeFollowsMarkers(url: string)
    ensures ItemTypeOf(url) == FirstMarkerType(TypeMarkers, url)
  {
    var t5 := [("/programming/", AssignmentItem)];
    var t4 := [("/assignment/", AssignmentItem)] + t5;
    var t3 := [("/exam/", QuizItem)] + t4;
    var t2 := [("/quiz/", QuizItem)] + t3;
    var t1 := [("/supplement/", ReadingItem)] + t2;
    assert TypeMarkers == [("/lecture/", VideoItem)] + t1;
    FirstMarkerCons(("/lecture/", VideoItem), t1, url);
    FirstMarkerCons(("/supplement/", ReadingItem), t2, url);
    FirstMarkerCons(("/quiz/", QuizItem), t3, url);
    FirstMarkerCons(("/exam/", QuizItem), t4, url);
    FirstMarkerCons(("/assignment/", AssignmentItem), t5, url);
    FirstMarkerCons(("/programming/", AssignmentItem), [], url);
    assert t5 == [("/programming/", AssignmentItem)] + [];
  }

  lemma FirstMarkerCons(m: (string, ItemType), rest: seq<(string, ItemType)>, url: string)
    ensures FirstMarkerType([m] + rest, url) == if Contains(url, m.0) then m.1 else FirstMarkerType(rest, url)
  {
    assert ([m] + rest)[1..] == rest;
  }

  /** An item is "other" exactly when its URL has none of the markers. */
  lemma OtherIffNoMarker(url: string)
    ensures ItemTypeOf(url) == OtherItem <==> forall k | 0 <= k < |TypeMarkers| :: !Contains(url, TypeMarkers[k].0)
  {
    if ItemTypeOf(url) != OtherItem {
      if Contains(url, "/lecture/") {
        assert TypeMarkers[0].0 == "/lecture/";
      } else if Contains(url, "/supplement/") {
        assert TypeMarkers[1].0 == "/supplement/";
      } else if Contains(url, "/quiz/") {
        assert TypeMarkers[2].0 == "/quiz/";
      } else if Contains(url, "/exam/") {
        assert TypeMarkers[3].0 == "/exam/";
      } else if Contains(url, "/assignment/") {
        assert TypeMarkers[4].0 == "/assignment/";
      } else {
        assert TypeMarkers[5].0 == "/programming/";
      }
    }
  }

  /** A title element's text that is used: found, and not blank once
      stripped. */
  predicate Usable(text: Option<string>)
  {
    text.Some? && Strip(text.value) != []
  }

  /** The title loop: the sanitised stripped text of the first selector
      whose element has one, or "Untitled".  `texts` holds the text each
      selector's element has, `None` when the element is not found. */
  function ItemTitle(texts: seq<Option<string>>): (r: string)
    ensures forall i | 0 <= i < |r| :: r[i] !in Invalid
  {
    if texts == [] then "Untitled"
    else if Usable(texts[0]) then SanitizeFilename(Strip(texts[0].value))
    else ItemTitle(texts[1..])
  }

  /** The first usable text gives the title; with none it is "Untitled". */
  lemma {:induction false} ItemTitleFirstUsable(texts: seq<Option<string>>, k: int)
    requires 0 <= k < |texts| && Usable(texts[k])
    requires forall j | 0 <= j < k :: !Usable(texts[j])
    ensures ItemTitle(texts) == SanitizeFilename(Strip(texts[k].value))
  {
    if k > 0 {
      assert !Usable(texts[0]);
      assert forall j | 0 <= j < k - 1 :: texts[1..][j] == texts[j + 1];
      ItemTitleFirstUsable(texts[1..], k - 1);
    }
  }

  lemma {:induction false} ItemTitleUntitled(texts: seq<Option<string>>)
    requires forall j | 0 <= j < |texts| :: !Usable(texts[j])
    ensures ItemTitle(texts) == "Untitled"
  {
    if texts != [] {
      assert forall j | 0 <= j < |texts| - 1 :: texts[1..][j] == texts[j + 1];
      ItemTitleUntitled(texts[1..]);
    }
  }

  // ---------------------------------------------------------------------
  // get_course_content: the module and item loops
  // ---------------------------------------------------------------------

  /** The last module number tried. */
  const MaxModule := 20
  const ModuleSegment := "module/"

  /** What the browser shows after going to a module URL: the URL it ends
      up at and the `href` of each item anchor of the module list. */
  datatype ModulePage = ModulePage(currentUrl: string, links: seq<Option<string>>)

  /** The module exists when the page did not redirect away from
      `module/<n>`. */
  predicate ModulePresent(page: ModulePage, n: nat)
  {
    Contains(page.currentUrl, ModuleSegment + Decimal(n))
  }

  /** The `href`s that are present and not empty, in page order. */
  function Hrefs(links: seq<Option<string>>): (r: seq<string>)
    ensures forall u :: u in r <==> Some(u) in links && u != []
  {
    if links == [] then []
    else
      var n := |links| - 1;
      assert links == links[..n] + [links[n]];
      Hrefs(links[..n]) + if links[n].Some? && links[n].value != [] then [links[n].value] else []
  }

  /** `item_links`: the distinct non-empty `href`s in order of first
      appearance. */
  function ItemLinks(links: seq<Option<string>>): seq<string>
  {
    Dedup(Hrefs(links))
  }

  /** The item links are distinct and are exactly the non-empty `href`s. */
  lemma ItemLinksSpec(links: seq<Option<string>>)
    ensures var r := ItemLinks(links);
      Distinct(r) && forall u :: u in r <==> Some(u) in links && u != []
  {
  }

  /** One anchor of the collecting loop: a non-empty `href` not yet
      collected is appended. */
  lemma HrefsStep(links: seq<Option<string>>, k: int)
    requires 0 <= k < |links|
    ensures var before := ItemLinks(links[..k]);
      ItemLinks(links[..k + 1])
      == if links[k].Some? && links[k].value != [] && links[k].value !in before then before + [links[k].value] else before
  {
    var s := links[..k + 1];
    assert s[..k] == links[..k] && s[k] == links[k];
    if links[k].Some? && links[k].value != [] {
      assert Hrefs(s) == Hrefs(links[..k]) + [links[k].value];
      DedupSnoc(Hrefs(links[..k]), links[k].value);
    } else {
      assert Hrefs(s) == Hrefs(links[..k]);
    }
  }

  /** The course-wide state of the item loop: `visited_urls`,
      `item_counter` and `materials_downloaded`. */
  datatype Progress = Progress(visited: set<string>, itemCounter: nat, materials: nat)

  /** One item URL: skipped when already visited, otherwise recorded,
      numbered with the next counter and handled, `itemMaterials(url, n)`
      being the number of materials the page of item `n` yields. */
  function ItemStep(p: Progress, url: string, itemMaterials: (string, nat) -> nat): Progress
  {
    if url in p.visited then p
    else Progress(p.visited + {url}, p.itemCounter + 1, p.materials + itemMaterials(url, p.itemCounter + 1))
  }

  /** The item loop of one module. */
  function ItemsRun(p: Progress, urls: seq<string>, itemMaterials: (string, nat) -> nat): Progress
  {
    if urls == [] then p
    else
      var n := |urls| - 1;
      ItemStep(ItemsRun(p, urls[..n], itemMaterials), urls[n], itemMaterials)
  }

  /** A module page ends the module loop when the module URL redirected,
      or when it lists no item (the exception raised then leaves the
      loop). */
  predicate EndsCourse(page: ModulePage, n: nat)
  {
    !ModulePresent(page, n) || ItemLinks(page.links) == []
  }

  /** The module loop from module `n` on, `pageOf(n)` being what the browser
      shows for module `n`. */
  function ModulesFrom(p: Progress, n: nat, pageOf: nat -> ModulePage, itemMaterials: (string, nat) -> nat): Progress
    decreases MaxModule + 1 - n
  {
    if n > MaxModule || EndsCourse(pageOf(n), n) then p
    else ModulesFrom(ItemsRun(p, ItemLinks(pageOf(n).links), itemMaterials), n + 1, pageOf, itemMaterials)
  }

  /** A module that ends the course leaves the progress as it is. */
  lemma ModulesFromStop(p: Progress, n: nat, pageOf: nat -> ModulePage, itemMaterials: (string, nat) -> nat)
    requires n > MaxModule || EndsCourse(pageOf(n), n)
    ensures ModulesFrom(p, n, pageOf, itemMaterials) == p
  {
  }

  /** A module that does not end the course runs its items and moves on. */
  lemma ModulesFromNext(p: Progress, q: Progress, n: nat, pageOf: nat -> ModulePage, itemMaterials: (string, nat) -> nat)
    requires n <= MaxModule && !EndsCourse(pageOf(n), n)
    requires q == ItemsRun(p, ItemLinks(pageOf(n).links), itemMaterials)
    ensures ModulesFrom(p, n, pageOf, itemMaterials) == ModulesFrom(q, n + 1, pageOf, itemMaterials)
  {
  }

  /** What `get_course_content` returns: the materials downloaded, or
      `None` for the RuntimeError raised when no item was processed. */
  function CourseContent(pageOf: nat -> ModulePage, itemMaterials: (string, nat) -> nat): Option<nat>
  {
    var p := ModulesFrom(Progress({}, 0, 0), 1, pageOf, itemMaterials);
    if p.itemCounter == 0 then None else Some(p.materials)
  }

  /** The course's result read off the progress after the module loop. */
  lemma CourseContentOf(final: Progress, pageOf: nat -> ModulePage, itemMaterials: (string, nat) -> nat)
    requires final == ModulesFrom(Progress({}, 0, 0), 1, pageOf, itemMaterials)
    ensures CourseContent(pageOf, itemMaterials) == if final.itemCounter == 0 then None else Some(final.materials)
  {
  }

  /** The loop collecting a module's item links. */
  method CollectItemLinks(links: seq<Option<string>>) returns (itemLinks: seq<string>)
    ensures itemLinks == ItemLinks(links)
  {
    itemLinks := [];
    for k := 0 to |links|
      invariant itemLinks == ItemLinks(links[..k])
    {
      HrefsStep(links, k);
      var href := links[k];
      if href.Some? && href.value != [] && href.value !in itemLinks {
        itemLinks := itemLinks + [href.value];
      }
    }
    assert links[..|links|] == links;
  }

  /** The loop over a module's item links. */
  method VisitItems(itemLinks: seq<string>, visitedUrls: set<string>, itemCounter: nat, materialsDownloaded: nat,
                    itemMaterials: (string, nat) -> nat)
    returns (visitedUrls': set<string>, itemCounter': nat, materialsDownloaded': nat)
    ensures Progress(visitedUrls', itemCounter', materialsDownloaded')
            == ItemsRun(Progress(visitedUrls, itemCounter, materialsDownloaded), itemLinks, itemMaterials)
  {
    visitedUrls', itemCounter', materialsDownloaded' := visitedUrls, itemCounter, materialsDownloaded;
    for idx := 0 to |itemLinks|
      invariant Progress(visitedUrls', itemCounter', materialsDownloaded')
                == ItemsRun(Progress(visitedUrls, itemCounter, materialsDownloaded), itemLinks[..idx], itemMaterials)
    {
      assert itemLinks[..idx + 1][..idx] == itemLinks[..idx];
      var itemUrl := itemLinks[idx];
      if itemUrl in visitedUrls' {
        continue;
      }
      visitedUrls' := visitedUrls' + {itemUrl};
      itemCounter' := itemCounter' + 1;
      materialsDownloaded' := materialsDownloaded' + itemMaterials(itemUrl, itemCounter');
    }
    assert itemLinks[..|itemLinks|] == itemLinks;
  }

  /** One pass of the module loop: the module's page either ends the
      course, or its item links are collected and visited. */
  method ModuleTurn(pageOf: nat -> ModulePage, moduleNum: nat, visitedUrls: set<string>, itemCounter: nat, materialsDownloaded: nat,
                    itemMaterials: (string, nat) -> nat)
    returns (ended: bool, visitedUrls': set<string>, itemCounter': nat, materialsDownloaded': nat)
    requires moduleNum <= MaxModule
    ensures ended <==> EndsCourse(pageOf(moduleNum), moduleNum)
    ensures ended ==> visitedUrls' == visitedUrls && itemCounter' == itemCounter && materialsDownloaded' == materialsDownloaded
    ensures !ended ==> ModulesFrom(Progress(visitedUrls, itemCounter, materialsDownloaded), moduleNum, pageOf, itemMaterials)
                       == ModulesFrom(Progress(visitedUrls', itemCounter', materialsDownloaded'), moduleNum + 1, pageOf, itemMaterials)
  {
    var page := pageOf(moduleNum);
    visitedUrls', itemCounter', materialsDownloaded' := visitedUrls, itemCounter, materialsDownloaded;
    if !ModulePresent(page, moduleNum) {
      return true, visitedUrls', itemCounter', materialsDownloaded';
    }
    var itemLinks := CollectItemLinks(page.links);
    if |itemLinks| == 0 {
      return true, visitedUrls', itemCounter', materialsDownloaded';
    }
    visitedUrls', itemCounter', materialsDownloaded' := VisitItems(itemLinks, visitedUrls, itemCounter, materialsDownloaded, itemMaterials);
    ended := false;
    ModulesFromNext(Progress(visitedUrls, itemCounter, materialsDownloaded), Progress(visitedUrls', itemCounter', materialsDownloaded'),
                    moduleNum, pageOf, itemMaterials);
  }

  /** `get_course_content`: modules 1 to 20, each module's item links
      collected without repeats, each item not yet visited numbered and
      handled. */
  method GetCourseContent(pageOf: nat -> ModulePage, itemMaterials: (string, nat) -> nat) returns (result: Option<nat>)
    ensures result == CourseContent(pageOf, itemMaterials)
  {
    var materialsDownloaded: nat := 0;
    var visitedUrls: set<string> := {};
    var itemCounter: nat := 0;
    ghost var final := ModulesFrom(Progress(visitedUrls, itemCounter, materialsDownloaded), 1, pageOf, itemMaterials);
    for moduleNum := 1 to MaxModule + 1
      invariant ModulesFrom(Progress(visitedUrls, itemCounter, materialsDownloaded), moduleNum, pageOf, itemMaterials) == final
    {
      var ended;
      ended, visitedUrls, itemCounter, materialsDownloaded :=
        ModuleTurn(pageOf, moduleNum, visitedUrls, itemCounter, materialsDownloaded, itemMaterials);
      if ended {
        ModulesFromStop(Progress(visitedUrls, itemCounter, materialsDownloaded), moduleNum, pageOf, itemMaterials);
        break;
      }
    }
    ModulesFromStop(Progress(visitedUrls, itemCounter, materialsDownloaded), MaxModule + 1, pageOf, itemMaterials);
    CourseContentOf(final, pageOf, itemMaterials);
    if itemCounter == 0 {
      return None;
    }
    return Some(materialsDownloaded);
  }

  /** The URLs visited after a module are those seen before and the
      module's links. */
  lemma {:induction false} ItemsRunVisited(p: Progress, urls: seq<string>, itemMaterials: (string, nat) -> nat)
    ensures forall u :: u in ItemsRun(p, urls, itemMaterials).visited <==> u in p.visited || u in urls
  {
    if urls != [] {
      var n := |urls| - 1;
      ItemsRunVisited(p, urls[..n], itemMaterials);
      assert forall u :: u in urls <==> u in urls[..n] || u == urls[n] by {
        assert urls == urls[..n] + [urls[n]];
      }
    }
  }

  /** Each new URL adds one to the counter: it grew by the number of URLs
      that were new. */
  lemma {:induction false} ItemsRunCounts(p: Progress, urls: seq<string>, itemMaterials: (string, nat) -> nat)
    ensures var r := ItemsRun(p, urls, itemMaterials);
      p.visited <= r.visited && r.itemCounter - p.itemCounter == |r.visited| - |p.visited|
  {
    if urls != [] {
      var n := |urls| - 1;
      var mid := ItemsRun(p, urls[..n], itemMaterials);
      ItemsRunCounts(p, urls[..n], itemMaterials);
      CardAdd(mid.visited, urls[n]);
    }
  }

  /** Over the module loop the counter only grows, by one per new URL. */
  lemma {:induction false} ModulesFromCounts(p: Progress, n: nat, pageOf: nat -> ModulePage, itemMaterials: (string, nat) -> nat)
    ensures var r := ModulesFrom(p, n, pageOf, itemMaterials);
      p.visited <= r.visited && r.itemCounter - p.itemCounter == |r.visited| - |p.visited|
    decreases MaxModule + 1 - n
  {
    if !(n > MaxModule || EndsCourse(pageOf(n), n)) {
      var mid := ItemsRun(p, ItemLinks(pageOf(n).links), itemMaterials);
      ItemsRunCounts(p, ItemLinks(pageOf(n).links), itemMaterials);
      ModulesFromCounts(mid, n + 1, pageOf, itemMaterials);
    }
  }

  /** Over a course the counter is the number of distinct item URLs
      visited. */
  lemma CounterIsVisited(pageOf: nat -> ModulePage, itemMaterials: (string, nat) -> nat)
    ensures var r := ModulesFrom(Progress({}, 0, 0), 1, pageOf, itemMaterials);
      r.itemCounter == |r.visited|
  {
    ModulesFromCounts(Progress({}, 0, 0), 1, pageOf, itemMaterials);
  }

  /** The RuntimeError is raised exactly when module 1 redirected or
      listed no item. */
  lemma NoItemsIff(pageOf: nat -> ModulePage, itemMaterials: (string, nat) -> nat)
    ensures CourseContent(pageOf, itemMaterials).None? <==> EndsCourse(pageOf(1), 1)
  {
    var start := Progress({}, 0, 0);
    if !EndsCourse(pageOf(1), 1) {
      var links := ItemLinks(pageOf(1).links);
      var mid := ItemsRun(start, links, itemMaterials);
      ItemsRunCounts(start, links, itemMaterials);
      ItemsRunVisited(start, links, itemMaterials);
      assert links[0] in mid.visited;
      assert |mid.visited| >= 1 by {
        assert {links[0]} <= mid.visited;
      }
      ModulesFromCounts(mid, 2, pageOf, itemMaterials);
    }
  }

  /** The module loop only looks at the pages up to the first one that
      ends it, and never past module 20. */
  lemma {:induction false} ModulesFromAgree(p: Progress, n: nat, pageOf: nat -> ModulePage, pageOf': nat -> ModulePage,
                                             k: nat, itemMaterials: (string, nat) -> nat)
    requires n <= k || n > MaxModule
    requires k >= MaxModule || EndsCourse(pageOf(k), k)
    requires forall m | n <= m <= k :: pageOf'(m) == pageOf(m)
    ensures ModulesFrom(p, n, pageOf, itemMaterials) == ModulesFrom(p, n, pageOf', itemMaterials)
    decreases MaxModule + 1 - n
  {
    if n <= MaxModule && !EndsCourse(pageOf(n), n) {
      var mid := ItemsRun(p, ItemLinks(pageOf(n).links), itemMaterials);
      ModulesFromAgree(mid, n + 1, pageOf, pageOf', k, itemMaterials);
    }
  }

  /** Pages past module 20 never matter. */
  lemma AtMostTwentyModules(pageOf: nat -> ModulePage, pageOf': nat -> ModulePage, itemMaterials: (string, nat) -> nat)
    requires forall m | 1 <= m <= MaxModule :: pageOf'(m) == pageOf(m)
    ensures CourseContent(pageOf, itemMaterials) == CourseContent(pageOf', itemMaterials)
  {
    ModulesFromAgree(Progress({}, 0, 0), 1, pageOf, pageOf', MaxModule, itemMaterials);
  }

  /** Pages after the first module that redirects (or lists no item) never
      matter. */
  lemma StopsAtFirstMissingModule(pageOf: nat -> ModulePage, pageOf': nat -> ModulePage, k: nat,
                                  itemMaterials: (string, nat) -> nat)
    requires 1 <= k && EndsCourse(pageOf(k), k)
    requires forall m | 1 <= m <= k :: pageOf'(m) == pageOf(m)
    ensures CourseContent(pageOf, itemMaterials) == CourseContent(pageOf', itemMaterials)
  {
    ModulesFromAgree(Progress({}, 0, 0), 1, pageOf, pageOf', k, itemMaterials);
  }

  // ---------------------------------------------------------------------
  // download_file
  // ---------------------------------------------------------------------

  /** The files on disk with their sizes. */
  class Disk {
    var sizes: map<string, nat>

    constructor (sizes: map<string, nat>)
      ensures this.sizes == sizes
    {
      this.sizes := sizes;
    }
  }

  /** The result of `download_file` and the disk after it. */
  datatype Fetched = Fetched(ok: bool, sizes: map<string, nat>)

  /** `download_file(url, path)`: a non-empty file already at `path` is kept
      and reported done; otherwise `fetch(url)` is the size of the body the
      request writes, `None` when the request raises. */
  function Download(sizes: map<string, nat>, url: string, path: string, fetch: string -> Option<nat>): Fetched
  {
    if path in sizes && sizes[path] > 0 then Fetched(true, sizes)
    else if fetch(url).Some? then Fetched(true, sizes[path := fetch(url).value])
    else Fetched(false, sizes)
  }

  /** `p` is where it was, with the same size. */
  predicate Untouched(before: map<string, nat>, after: map<string, nat>, p: string)
  {
    (p in after <==> p in before) && (p in before ==> after[p] == before[p])
  }

  /** The call succeeds exactly when a non-empty file was there or the
      request went through; on success the file is there; a non-empty file
      is never written over; nothing but `path` changes. */
  lemma DownloadSpec(sizes: map<string, nat>, url: string, path: string, fetch: string -> Option<nat>)
    ensures var d := Download(sizes, url, path, fetch);
      (d.ok <==> (path in sizes && sizes[path] > 0) || fetch(url).Some?)
      && (d.ok ==> path in d.sizes)
      && (!d.ok || (path in sizes && sizes[path] > 0) ==> d.sizes == sizes)
      && (forall p | p != path :: Untouched(sizes, d.sizes, p))
  {
  }

  method DownloadFile(disk: Disk, url: string, path: string, fetch: string -> Option<nat>) returns (ok: bool)
    modifies disk
    ensures Fetched(ok, disk.sizes) == Download(old(disk.sizes), url, path, fetch)
  {
    if path in disk.sizes && disk.sizes[path] > 0 {
      return true;
    }
    var body := fetch(url);
    if body.None? {
      return false;
    }
    disk.sizes := disk.sizes[path := body.value];
    return true;
  }

  // ---------------------------------------------------------------------
  // download_vid
  // ---------------------------------------------------------------------

  /** A `<video>` element: its own `src` and those of its `<source>`
      children. */
  datatype VideoTag = VideoTag(src: Option<string>, sources: seq<Option<string>>)

  predicate Has720(s: string) { Contains(s, "720") }

  /** The sources tried for a video: those naming 720 when there is one,
      otherwise every source present and not empty. */
  function ChosenSources(v: VideoTag): seq<string>
  {
    var all := Hrefs([v.src] + v.sources);
    var hd := Filter(all, Has720);
    if hd != [] then hd else all
  }

  /** Every source tried is a non-empty source of the element; one is
      tried exactly when the element has any; when a source names 720 only
      such sources are tried, all of them, and otherwise all sources are
      tried. */
  lemma ChosenSourcesSpec(v: VideoTag)
    ensures var all := [v.src] + v.sources;
      var r := ChosenSources(v);
      (forall s | s in r :: s != [] && Some(s) in all)
      && (r == [] <==> forall s | Some(s) in all :: s == [])
      && ((exists s | Some(s) in all :: s != [] && Has720(s)) ==>
            forall s :: s in r <==> Some(s) in all && s != [] && Has720(s))
      && (!(exists s | Some(s) in all :: s != [] && Has720(s)) ==>
            forall s :: s in r <==> Some(s) in all && s != [])
  {
    var all := [v.src] + v.sources;
    var hs := Hrefs(all);
    var hd := Filter(hs, Has720);
    if hs != [] {
      assert hs[0] in hs;
    }
    forall s | s in hs && Has720(s) ensures s in hd {
      var i :| 0 <= i < |hs| && hs[i] == s;
    }
    forall s | s in hd ensures s in hs && Has720(s) {
      var i :| 0 <= i < |hd| && hd[i] == s;
    }
    if hd == [] {
      forall s | Some(s) in all && s != [] ensures !Has720(s) {
        assert s in hs;
      }
    } else {
      assert hd[0] in hd;
    }
  }

  /** `<course_dir>/<NNN>_<title>_`: what the video files of an item start
      with. */
  function VideoPrefix(courseDir: string, itemCounter: nat, title: string): string
  {
    courseDir + "/" + Pad3(itemCounter) + "_" + title + "_"
  }

  /** The file of video `idx` of the item. */
  function VideoPath(prefix: string, idx: nat): (r: string)
    ensures StartsWith(r, prefix) && EndsWith(r, ".mp4")
  {
    var r := prefix + Decimal(idx) + ".mp4";
    assert r[..|prefix|] == prefix;
    assert r[|r| - 4..] == ".mp4";
    r
  }

  /** The disk, `materials_downloaded` and `downloaded_something` along
      `download_vid`. */
  datatype Vid = Vid(sizes: map<string, nat>, materials: nat, something: bool)

  /** One source of a video: when the video file is there it is not
      downloaded again but still counts as something downloaded; otherwise
      the source is fetched and, when that fails, yt-dlp is tried on the
      item page (`ytdlp(path)`: the size of what it writes, `None` when it
      fails). */
  function SourceStep(st: Vid, src: string, path: string, fetch: string -> Option<nat>, ytdlp: string -> Option<nat>): Vid
  {
    if path in st.sizes then Vid(st.sizes, st.materials, true)
    else
      var d := Download(st.sizes, src, path, fetch);
      if d.ok then Vid(d.sizes, st.materials + 1, true)
      else if ytdlp(path).Some? then Vid(st.sizes[path := ytdlp(path).value], st.materials + 1, true)
      else st
  }

  function SourcesRun(st: Vid, srcs: seq<string>, path: string, fetch: string -> Option<nat>, ytdlp: string -> Option<nat>): Vid
  {
    if srcs == [] then st
    else
      var n := |srcs| - 1;
      SourceStep(SourcesRun(st, srcs[..n], path, fetch, ytdlp), srcs[n], path, fetch, ytdlp)
  }

  /** The video elements of the page in order, video `idx` going to
      `VideoPath(prefix, idx)`. */
  function VideosRun(st: Vid, videos: seq<VideoTag>, prefix: string, fetch: string -> Option<nat>, ytdlp: string -> Option<nat>): Vid
  {
    if videos == [] then st
    else
      var n := |videos| - 1;
      SourcesRun(VideosRun(st, videos[..n], prefix, fetch, ytdlp), ChosenSources(videos[n]), VideoPath(prefix, n), fetch, ytdlp)
  }

  /** One more video element: its sources run on what the earlier ones
      left. */
  lemma VideosRunSnoc(st: Vid, videos: seq<VideoTag>, i: nat, prefix: string, fetch: string -> Option<nat>,
                      ytdlp: string -> Option<nat>)
    requires i < |videos|
    ensures VideosRun(st, videos[..i + 1], prefix, fetch, ytdlp)
            == SourcesRun(VideosRun(st, videos[..i], prefix, fetch, ytdlp), ChosenSources(videos[i]), VideoPath(prefix, i), fetch, ytdlp)
  {
    assert videos[..i + 1][..i] == videos[..i];
  }

  /** The loop over the sources of one video element. */
  method DownloadSources(disk: Disk, sources: seq<string>, videoFile: string, fetch: string -> Option<nat>,
                         ytdlp: string -> Option<nat>, something: bool, materials: nat)
    returns (something': bool, materials': nat)
    modifies disk
    ensures Vid(disk.sizes, materials', something')
            == SourcesRun(Vid(old(disk.sizes), materials, something), sources, videoFile, fetch, ytdlp)
  {
    something', materials' := something, materials;
    for j := 0 to |sources|
      invariant Vid(disk.sizes, materials', something')
                == SourcesRun(Vid(old(disk.sizes), materials, something), sources[..j], videoFile, fetch, ytdlp)
    {
      assert sources[..j + 1][..j] == sources[..j];
      if videoFile !in disk.sizes {
        var ok := DownloadFile(disk, sources[j], videoFile, fetch);
        if ok {
          materials' := materials' + 1;
          something' := true;
        } else {
          // the yt-dlp fallback on the item page
          var written := ytdlp(videoFile);
          if written.Some? {
            disk.sizes := disk.sizes[videoFile := written.value];
            materials' := materials' + 1;
            something' := true;
          }
        }
      } else {
        something' := true;
      }
    }
    assert sources[..|sources|] == sources;
  }

  /** `download_vid`. */
  method DownloadVid(disk: Disk, courseDir: string, downloadedSomething: bool, itemCounter: nat,
                     materialsDownloaded: nat, title: string, videos: seq<VideoTag>,
                     fetch: string -> Option<nat>, ytdlp: string -> Option<nat>)
    returns (something: bool, materials: nat)
    modifies disk
    ensures Vid(disk.sizes, materials, something)
            == VideosRun(Vid(old(disk.sizes), materialsDownloaded, downloadedSomething), videos,
                         VideoPrefix(courseDir, itemCounter, title), fetch, ytdlp)
  {
    something, materials := downloadedSomething, materialsDownloaded;
    var prefix := VideoPrefix(courseDir, itemCounter, title);
    ghost var start := Vid(disk.sizes, materials, something);
    for idx := 0 to |videos|
      invariant Vid(disk.sizes, materials, something) == VideosRun(start, videos[..idx], prefix, fetch, ytdlp)
    {
      VideosRunSnoc(start, videos, idx, prefix, fetch, ytdlp);
      var sources := ChosenSources(videos[idx]);
      var videoFile := VideoPath(prefix, idx);
      something, materials := DownloadSources(disk, sources, videoFile, fetch, ytdlp, something, materials);
    }
    assert videos[..|videos|] == videos;
  }

  /** The disk only gains files: none is changed or removed, each new one
      is a video file of the item, one per material counted, and
      `downloaded_something` is never reset. */
  predicate VidGrows(a: Vid, b: Vid, prefix: string)
  {
    (forall p | p in a.sizes :: p in b.sizes && b.sizes[p] == a.sizes[p])
    && (forall p | p in b.sizes && p !in a.sizes :: StartsWith(p, prefix) && EndsWith(p, ".mp4"))
    && b.materials - a.materials == |b.sizes.Keys| - |a.sizes.Keys|
    && (a.something ==> b.something)
  }

  lemma VidGrowsTrans(a: Vid, b: Vid, c: Vid, prefix: string)
    requires VidGrows(a, b, prefix) && VidGrows(b, c, prefix)
    ensures VidGrows(a, c, prefix)
  {
  }

  lemma SourceStepGrows(st: Vid, src: string, path: string, prefix: string, fetch: string -> Option<nat>, ytdlp: string -> Option<nat>)
    requires StartsWith(path, prefix) && EndsWith(path, ".mp4")
    ensures VidGrows(st, SourceStep(st, src, path, fetch, ytdlp), prefix)
  {
    var r := SourceStep(st, src, path, fetch, ytdlp);
    if path !in st.sizes {
      var d := Download(st.sizes, src, path, fetch);
      if d.ok || ytdlp(path).Some? {
        assert r.sizes == st.sizes[path := r.sizes[path]];
        assert r.sizes.Keys == st.sizes.Keys + {path};
        CardAdd(st.sizes.Keys, path);
      }
    }
  }

  lemma {:induction false} SourcesRunGrows(st: Vid, srcs: seq<string>, path: string, prefix: string,
                                           fetch: string -> Option<nat>, ytdlp: string -> Option<nat>)
    requires StartsWith(path, prefix) && EndsWith(path, ".mp4")
    ensures VidGrows(st, SourcesRun(st, srcs, path, fetch, ytdlp), prefix)
  {
    if srcs != [] {
      var n := |srcs| - 1;
      var mid := SourcesRun(st, srcs[..n], path, fetch, ytdlp);
      SourcesRunGrows(st, srcs[..n], path, prefix, fetch, ytdlp);
      SourceStepGrows(mid, srcs[n], path, prefix, fetch, ytdlp);
      VidGrowsTrans(st, mid, SourceStep(mid, srcs[n], path, fetch, ytdlp), prefix);
    }
  }

  /** Over the whole of `download_vid` no file is overwritten and every
      material counted is a new video file of the item. */
  lemma {:induction false} VideosRunGrows(st: Vid, videos: seq<VideoTag>, prefix: string,
                                          fetch: string -> Option<nat>, ytdlp: string -> Option<nat>)
    ensures VidGrows(st, VideosRun(st, videos, prefix, fetch, ytdlp), prefix)
  {
    if videos != [] {
      var n := |videos| - 1;
      var mid := VideosRun(st, videos[..n], prefix, fetch, ytdlp);
      VideosRunGrows(st, videos[..n], prefix, fetch, ytdlp);
      SourcesRunGrows(mid, ChosenSources(videos[n]), VideoPath(prefix, n), prefix, fetch, ytdlp);
      VidGrowsTrans(st, mid, SourcesRun(mid, ChosenSources(videos[n]), VideoPath(prefix, n), fetch, ytdlp), prefix);
    }
  }

  /** A video whose file is already there is not downloaded again, and
      still sets `downloaded_something` when it has a source. */
  lemma {:induction false} ExistingVideoKept(st: Vid, srcs: seq<string>, path: string,
                                             fetch: string -> Option<nat>, ytdlp: string -> Option<nat>)
    requires path in st.sizes
    ensures SourcesRun(st, srcs, path, fetch, ytdlp)
            == if srcs == [] then st else Vid(st.sizes, st.materials, true)
  {
    if srcs != [] {
      var n := |srcs| - 1;
      ExistingVideoKept(st, srcs[..n], path, fetch, ytdlp);
    }
  }

  // ---------------------------------------------------------------------
  // PDFs and other resources of an item page
  // ---------------------------------------------------------------------

  /** An anchor a query found: its `href`, its text and whether it sits
      inside a `<footer>`. */
  datatype Anchor = Anchor(href: Option<string>, text: string, inFooter: bool)

  /** The anchors outside any footer, in page order. */
  function MainLinks(links: seq<Anchor>): (r: seq<Anchor>)
    ensures forall a :: a in r <==> a in links && !a.inFooter
  {
    if links == [] then []
    else
      var n := |links| - 1;
      assert links == links[..n] + [links[n]];
      MainLinks(links[..n]) + if links[n].inFooter then [] else [links[n]]
  }

  /** The stripped text of a link, or `fallback` when it is blank. */
  function TextOr(text: string, fallback: string): string
  {
    if Strip(text) != [] then Strip(text) else fallback
  }

  /** The file name of a PDF link: its sanitised text (or "document"),
      with ".pdf" added when missing. */
  function PdfName(text: string): (r: string)
    ensures EndsWith(r, ".pdf")
  {
    var name := SanitizeFilename(TextOr(text, "document"));
    if EndsWith(name, ".pdf") then name
    else
      var r := name + ".pdf";
      assert r[|r| - 4..] == ".pdf";
      r
  }

  /** The file name of a resource link: its sanitised text (or
      "resource"). */
  function ResourceName(text: string): string
  {
    SanitizeFilename(TextOr(text, "resource"))
  }

  /** A resource link is skipped when its `href` names a PDF or a video. */
  predicate NotMedia(href: string)
  {
    !Contains(href, ".pdf") && !Contains(href, "video") && !Contains(href, ".mp4")
  }

  /** The disk, the course-wide `downloaded_files` set and the item's
      counters along a pass over links. */
  datatype Pass = Pass(sizes: map<string, nat>, downloaded: set<string>, materials: nat, something: bool)

  /** A link is taken when its `href` is present, not empty, not taken
      before in the course, and passes the pass's own test. */
  predicate Takes(st: Pass, a: Anchor, keep: string -> bool)
  {
    a.href.Some? && a.href.value != [] && a.href.value !in st.downloaded && keep(a.href.value)
  }

  /** One link: recorded in `downloaded_files` and downloaded to
      `prefix + name(text)`. */
  function LinkStep(st: Pass, a: Anchor, prefix: string, keep: string -> bool, name: string -> string,
                    fetch: string -> Option<nat>): Pass
  {
    if !Takes(st, a, keep) then st
    else
      var d := Download(st.sizes, a.href.value, prefix + name(a.text), fetch);
      Pass(d.sizes, st.downloaded + {a.href.value}, st.materials + (if d.ok then 1 else 0), st.something || d.ok)
  }

  function LinksRun(st: Pass, links: seq<Anchor>, prefix: string, keep: string -> bool, name: string -> string,
                    fetch: string -> Option<nat>): Pass
  {
    if links == [] then st
    else
      var n := |links| - 1;
      LinkStep(LinksRun(st, links[..n], prefix, keep, name, fetch), links[n], prefix, keep, name, fetch)
  }

  /** The footer filter: the links outside a footer, in page order. */
  method FilterMainLinks(links: seq<Anchor>) returns (mainLinks: seq<Anchor>)
    ensures mainLinks == MainLinks(links)
  {
    mainLinks := [];
    for i := 0 to |links|
      invariant mainLinks == MainLinks(links[..i])
    {
      assert links[..i + 1][..i] == links[..i];
      if !links[i].inFooter {
        mainLinks := mainLinks + [links[i]];
      }
    }
    assert links[..|links|] == links;
  }

  /** One link of the pass: taken links are marked and downloaded. */
  method LinkTurn(disk: Disk, link: Anchor, prefix: string, keep: string -> bool, name: string -> string,
                  fetch: string -> Option<nat>, downloaded: set<string>, materials: nat, something: bool)
    returns (downloaded': set<string>, materials': nat, something': bool)
    modifies disk
    ensures Pass(disk.sizes, downloaded', materials', something')
            == LinkStep(Pass(old(disk.sizes), downloaded, materials, something), link, prefix, keep, name, fetch)
  {
    downloaded', materials', something' := downloaded, materials, something;
    var href := link.href;
    if href.Some? && href.value != [] && href.value !in downloaded && keep(href.value) {
      downloaded' := downloaded + {href.value};
      var ok := DownloadFile(disk, href.value, prefix + name(link.text), fetch);
      if ok {
        materials' := materials + 1;
        something' := true;
      }
    }
  }

  /** The footer filter, then the pass over the links left. */
  method DownloadLinks(disk: Disk, links: seq<Anchor>, prefix: string, keep: string -> bool, name: string -> string,
                       fetch: string -> Option<nat>, downloaded: set<string>, materials: nat, something: bool)
    returns (downloaded': set<string>, materials': nat, something': bool)
    modifies disk
    ensures Pass(disk.sizes, downloaded', materials', something')
            == LinksRun(Pass(old(disk.sizes), downloaded, materials, something), MainLinks(links), prefix, keep, name, fetch)
  {
    var mainLinks := FilterMainLinks(links);
    downloaded', materials', something' := downloaded, materials, something;
    ghost var start := Pass(disk.sizes, downloaded, materials, something);
    for i := 0 to |mainLinks|
      invariant Pass(disk.sizes, downloaded', materials', something') == LinksRun(start, mainLinks[..i], prefix, keep, name, fetch)
    {
      assert mainLinks[..i + 1][..i] == mainLinks[..i];
      downloaded', materials', something' := LinkTurn(disk, mainLinks[i], prefix, keep, name, fetch, downloaded', materials', something');
    }
    assert mainLinks[..|mainLinks|] == mainLinks;
  }

  /** `<course_dir>/<NNN>_`: what the PDF and resource files of an item
      start with. */
  function ItemPrefix(courseDir: string, itemCounter: nat): string
  {
    courseDir + "/" + Pad3(itemCounter) + "_"
  }

  /** Step 2 of an item: every PDF link outside a footer not downloaded
      before in the course. */
  method DownloadPdfs(disk: Disk, courseDir: string, itemCounter: nat, links: seq<Anchor>, fetch: string -> Option<nat>,
                      downloaded: set<string>, materials: nat, something: bool)
    returns (downloaded': set<string>, materials': nat, something': bool)
    modifies disk
    ensures Pass(disk.sizes, downloaded', materials', something')
            == LinksRun(Pass(old(disk.sizes), downloaded, materials, something), MainLinks(links),
                        ItemPrefix(courseDir, itemCounter), _ => true, PdfName, fetch)
  {
    downloaded', materials', something' :=
      DownloadLinks(disk, links, ItemPrefix(courseDir, itemCounter), _ => true, PdfName, fetch, downloaded, materials, something);
  }

  /** Step 4 of an item: every download link outside a footer not
      downloaded before in the course whose `href` names no PDF or video. */
  method DownloadResources(disk: Disk, courseDir: string, itemCounter: nat, links: seq<Anchor>, fetch: string -> Option<nat>,
                           downloaded: set<string>, materials: nat, something: bool)
    returns (downloaded': set<string>, materials': nat, something': bool)
    modifies disk
    ensures Pass(disk.sizes, downloaded', materials', something')
            == LinksRun(Pass(old(disk.sizes), downloaded, materials, something), MainLinks(links),
                        ItemPrefix(courseDir, itemCounter), NotMedia, ResourceName, fetch)
  {
    downloaded', materials', something' :=
      DownloadLinks(disk, links, ItemPrefix(courseDir, itemCounter), NotMedia, ResourceName, fetch, downloaded, materials, something);
  }

  /** The `href`s a pass records are exactly the new non-empty ones that
      pass its test. */
  lemma {:induction false} LinksRunDownloaded(st: Pass, links: seq<Anchor>, prefix: string, keep: string -> bool,
                                              name: string -> string, fetch: string -> Option<nat>)
    ensures forall u :: u in LinksRun(st, links, prefix, keep, name, fetch).downloaded
                        <==> u in st.downloaded || (u != [] && keep(u) && exists a | a in links :: a.href == Some(u))
  {
    if links != [] {
      var n := |links| - 1;
      LinksRunDownloaded(st, links[..n], prefix, keep, name, fetch);
      assert forall a :: a in links <==> a in links[..n] || a == links[n] by {
        assert links == links[..n] + [links[n]];
      }
    }
  }

  /** Links inside a footer are never downloaded, and a resource pass
      never takes an `href` naming a PDF or a video. */
  lemma FooterNeverFetched(st: Pass, links: seq<Anchor>, prefix: string, keep: string -> bool,
                           name: string -> string, fetch: string -> Option<nat>)
    ensures forall u :: u in LinksRun(st, MainLinks(links), prefix, keep, name, fetch).downloaded
                        <==> u in st.downloaded || (u != [] && keep(u) && exists a | a in links :: !a.inFooter && a.href == Some(u))
  {
    LinksRunDownloaded(st, MainLinks(links), prefix, keep, name, fetch);
  }

  /** What a pass does to the disk: files outside the item's prefix are
      untouched, a non-empty file is never written over, new files carry
      the prefix and end in `suffix` when every name does, and each
      material counted took a new `href`. */
  predicate PassGrows(a: Pass, b: Pass, prefix: string, suffix: string)
  {
    (forall p | p in a.sizes && (!StartsWith(p, prefix) || a.sizes[p] > 0) :: p in b.sizes && b.sizes[p] == a.sizes[p])
    && (forall p | p in b.sizes && p !in a.sizes :: StartsWith(p, prefix) && EndsWith(p, suffix))
    && a.sizes.Keys <= b.sizes.Keys
    && a.downloaded <= b.downloaded
    && b.materials - a.materials <= |b.downloaded| - |a.downloaded|
  }

  lemma PassGrowsTrans(a: Pass, b: Pass, c: Pass, prefix: string, suffix: string)
    requires PassGrows(a, b, prefix, suffix) && PassGrows(b, c, prefix, suffix)
    ensures PassGrows(a, c, prefix, suffix)
  {
  }

  lemma LinkStepGrows(st: Pass, a: Anchor, prefix: string, suffix: string, keep: string -> bool,
                      name: string -> string, fetch: string -> Option<nat>)
    requires forall t :: EndsWith(name(t), suffix)
    ensures PassGrows(st, LinkStep(st, a, prefix, keep, name, fetch), prefix, suffix)
  {
    if Takes(st, a, keep) {
      var path := prefix + name(a.text);
      assert StartsWith(path, prefix) by {
        assert path[..|prefix|] == prefix;
      }
      assert EndsWith(path, suffix) by {
        var t := name(a.text);
        assert EndsWith(t, suffix);
        assert path[|path| - |suffix|..] == t[|t| - |suffix|..];
      }
      CardAdd(st.downloaded, a.href.value);
    }
  }

  /** Over a whole pass. */
  lemma {:induction false} LinksRunGrows(st: Pass, links: seq<Anchor>, prefix: string, suffix: string, keep: string -> bool,
                                         name: string -> string, fetch: string -> Option<nat>)
    requires forall t :: EndsWith(name(t), suffix)
    ensures PassGrows(st, LinksRun(st, links, prefix, keep, name, fetch), prefix, suffix)
  {
    if links != [] {
      var n := |links| - 1;
      var mid := LinksRun(st, links[..n], prefix, keep, name, fetch);
      LinksRunGrows(st, links[..n], prefix, suffix, keep, name, fetch);
      LinkStepGrows(mid, links[n], prefix, suffix, keep, name, fetch);
      PassGrowsTrans(st, mid, LinkStep(mid, links[n], prefix, keep, name, fetch), prefix, suffix);
    }
  }

  /** Every file a PDF pass adds is a `.pdf` of the item. */
  lemma PdfPassGrows(st: Pass, links: seq<Anchor>, courseDir: string, itemCounter: nat, fetch: string -> Option<nat>)
    ensures PassGrows(st, LinksRun(st, MainLinks(links), ItemPrefix(courseDir, itemCounter), _ => true, PdfName, fetch),
                      ItemPrefix(courseDir, itemCounter), ".pdf")
  {
    LinksRunGrows(st, MainLinks(links), ItemPrefix(courseDir, itemCounter), ".pdf", _ => true, PdfName, fetch);
  }
}
