/** The quiz and assignment extractor (coursera/extractors/quiz.py).  The
    browser is replaced by what it shows the extractor at each step (a
    `QuizPage` value), the HTTP session by `fetch` (the size of the body
    the server sends, or None) and the page template of the base extractor
    by the uninterpreted `wrap`. */
module Quiz {
  import opened Base
  import opened Fs
  import opened Files
  import opened Common

  // ---------------------------------------------------------------------
  // _prepare_page: whether the start button is pressed
  // ---------------------------------------------------------------------

  const AttemptMark := "/attempt"
  const SubmissionMark := "/assignment-submission"

  /** `_prepare_page` presses the start button unless the page is an
      attempt; an `/assignment-submission` page counts as an attempt but
      is pressed all the same, so only a plain `/attempt` page is spared. */
  function ClicksStart(url: string): (r: bool)
    ensures r <==> !Contains(url, AttemptMark) || Contains(url, SubmissionMark)
  {
    var isAttempt := Contains(url, AttemptMark) || Contains(url, SubmissionMark);
    !isAttempt || Contains(url, SubmissionMark)
  }

  // ---------------------------------------------------------------------
  // _is_btn_safe and _safe_and_click
  // ---------------------------------------------------------------------

  /** A button as the start-button search sees it: whether it is displayed
      and enabled, its text and `aria-label` (None when missing), whether
      it sits inside an `rc-ItemNavigation` container, whether the scripted
      scroll or click raises, and the URL the browser shows after the
      click. */
  datatype Button = Button(displayed: bool, enabled: bool, text: string, ariaLabel: Option<string>,
                           inNavigation: bool, raises: bool, landing: string)

  const NextItem := "next item"
  const ContinueLearning := "continue learning"

  /** `_is_btn_safe`: the button is not a way to the next item. */
  predicate IsBtnSafe(b: Button)
  {
    var txt := Lower(b.text);
    var aria := Lower(if b.ariaLabel.Some? then b.ariaLabel.value else "");
    !Contains(txt, NextItem) && !Contains(txt, ContinueLearning) && !Contains(aria, NextItem)
    && !b.inNavigation
  }

  /** The test is on the lower-cased text: "Next Item", "NEXT ITEM" and any
      other casing inside the label make the button unsafe. */
  lemma NextItemInAnyCase(b: Button, a: string, w: string, c: string)
    requires b.text == a + w + c && Lower(w) == NextItem
    ensures !IsBtnSafe(b)
  {
    var txt := Lower(b.text);
    forall k | 0 <= k < |NextItem|
      ensures txt[|a| + k] == NextItem[k]
    {
      assert b.text[|a| + k] == w[k];
    }
    assert txt[|a|..|a| + |NextItem|] == NextItem;
    assert OccursAt(txt, NextItem, |a|);
  }

  const HomeMark := "/home/"
  const LearnMark := "/learn/"
  const AssignmentMark := "/assignment"
  const QuizMark := "/quiz"

  /** After a click the browser has left the assessment: it shows the home
      page, or a course page that is none of an assignment, a quiz or an
      attempt. */
  predicate LeftAssessment(url: string)
  {
    Contains(url, HomeMark)
    || (Contains(url, LearnMark)
        && !(Contains(url, AssignmentMark) || Contains(url, QuizMark) || Contains(url, AttemptMark)))
  }

  /** A submission page is an assignment page: landing there after a click
      is never rolled back unless it is also a home page. */
  lemma SubmissionStays(url: string)
    requires Contains(url, SubmissionMark) && !Contains(url, HomeMark)
    ensures !LeftAssessment(url)
  {
    var i :| 0 <= i <= |url| - |SubmissionMark| && OccursAt(url, SubmissionMark, i);
    assert url[i..i + |AssignmentMark|] == url[i..i + |SubmissionMark|][..|AssignmentMark|];
    assert OccursAt(url, AssignmentMark, i);
  }

  /** A button whose click keeps the browser on the assessment. */
  predicate Clicks(b: Button)
  {
    b.displayed && b.enabled && IsBtnSafe(b) && !b.raises && !LeftAssessment(b.landing)
  }

  /** `_safe_and_click`: whether the click counts, and the URL shown
      afterwards.  A click that leaves the assessment navigates back to
      `urlBefore` and does not count. */
  function SafeAndClick(b: Button, current: string, urlBefore: string): (r: (bool, string))
    ensures r.0 <==> Clicks(b)
    ensures r.0 ==> r.1 == b.landing
    ensures !r.0 ==> r.1 == current || r.1 == urlBefore
    ensures b.displayed && b.enabled && IsBtnSafe(b) && !b.raises && LeftAssessment(b.landing) ==>
              r == (false, urlBefore)
  {
    if !b.displayed || !b.enabled then (false, current)
    else if !IsBtnSafe(b) then (false, current)
    else if b.raises then (false, current)
    else if LeftAssessment(b.landing) then (false, urlBefore)
    else (true, b.landing)
  }

  /** `_try_click_start_btn` over the buttons it tries, in order: the cover
      page action buttons, then those whose text holds "start", then those
      whose text holds "resume".  The first button that clicks ends the
      search. */
  method TryClickStart(buttons: seq<Button>, current: string, urlBefore: string) returns (clicked: bool, url: string)
    ensures !clicked ==> (forall i | 0 <= i < |buttons| :: !Clicks(buttons[i])) && (url == current || url == urlBefore)
    ensures clicked ==> exists i | 0 <= i < |buttons| ::
              Clicks(buttons[i]) && url == buttons[i].landing && forall j | 0 <= j < i :: !Clicks(buttons[j])
  {
    url := current;
    for i := 0 to |buttons|
      invariant forall j | 0 <= j < i :: !Clicks(buttons[j])
      invariant url == current || url == urlBefore
    {
      var outcome := SafeAndClick(buttons[i], url, urlBefore);
      url := outcome.1;
      if outcome.0 {
        return true, url;
      }
    }
    return false, url;
  }

  // ---------------------------------------------------------------------
  // _click_assignment_start_button
  // ---------------------------------------------------------------------

  /** What the browser shows at one turn of the start loop: whether the
      questions are visible, whether a barrier was handled, and the
      buttons the start search tries (see `TryClickStart`). */
  datatype Round = Round(visible: bool, barrier: bool, buttons: seq<Button>)

  /** The loop goes on after this turn: nothing is visible yet, and either
      a barrier was handled or a start button clicked. */
  predicate Continues(r: Round)
  {
    !r.visible && (r.barrier || exists i | 0 <= i < |r.buttons| :: Clicks(r.buttons[i]))
  }

  /** `_click_assignment_start_button`, with `rounds(k)` what the browser
      shows at turn `k`: at most three turns, the loop ending early at the
      first turn after which it does not go on; the result is always
      True. */
  method ClickStartButton(rounds: nat -> Round, urlBefore: string) returns (ok: bool, turns: nat)
    ensures ok && 1 <= turns <= 3
    ensures forall k | 0 <= k < turns - 1 :: Continues(rounds(k))
    ensures turns < 3 ==> !Continues(rounds(turns - 1))
  {
    var url := urlBefore;
    turns := 0;
    while turns < 3
      invariant turns <= 3
      invariant forall k | 0 <= k < turns :: Continues(rounds(k))
    {
      var r := rounds(turns);
      turns := turns + 1;
      if r.visible {
        break;
      }
      if r.barrier {
        continue;
      }
      var clicked;
      clicked, url := TryClickStart(r.buttons, url, urlBefore);
      if clicked {
        continue;
      }
      break;
    }
    ok := true;
  }

  // ---------------------------------------------------------------------
  // _prepare_page: waiting for the content
  // ---------------------------------------------------------------------

  /** The selectors whose elements show that the content has loaded. */
  const LoadSelectors: seq<string> :=
    ["div#TUNNELVISIONWRAPPER_CONTENT_ID", "div.rc-FormPartsQuestion", "div.rc-CMLOrHTML",
     ".rc-AssignmentPart", ".rc-PracticeAssignment", "div[data-testid^='part-Submission']"]

  const SearchBar := "rc-InCourseSearchBar"

  /** What one poll of the wait sees: the URL, and the `innerHTML` of every
      element each selector finds (None when the attribute is missing). */
  datatype Snapshot = Snapshot(url: string, found: string -> seq<Option<string>>)

  function Inner(html: Option<string>): string
  {
    if html.Some? then html.value else ""
  }

  /** `els and any("rc-InCourseSearchBar" not in inner for e in els)`. */
  predicate SelectorLoaded(els: seq<Option<string>>)
  {
    exists e | 0 <= e < |els| :: !Contains(Inner(els[e]), SearchBar)
  }

  /** The `loaded` condition of the wait. */
  predicate Loaded(s: Snapshot)
  {
    Contains(s.url, AttemptMark) || exists i | 0 <= i < |LoadSelectors| :: SelectorLoaded(s.found(LoadSelectors[i]))
  }

  /** `loaded`: an attempt URL, or the first selector with a real element. */
  method IsLoaded(s: Snapshot) returns (r: bool)
    ensures r <==> Loaded(s)
  {
    if Contains(s.url, AttemptMark) {
      return true;
    }
    for i := 0 to |LoadSelectors|
      invariant forall j | 0 <= j < i :: !SelectorLoaded(s.found(LoadSelectors[j]))
    {
      if SelectorLoaded(s.found(LoadSelectors[i])) {
        return true;
      }
    }
    return false;
  }

  /** `WebDriverWait(driver, 45).until(loaded)`, with `polls` what the
      browser shows at each poll within the 45 seconds: it succeeds iff
      one of them is loaded. */
  method WaitLoaded(polls: seq<Snapshot>) returns (ok: bool)
    ensures ok <==> exists k | 0 <= k < |polls| :: Loaded(polls[k])
  {
    for k := 0 to |polls|
      invariant forall j | 0 <= j < k :: !Loaded(polls[j])
    {
      ok := IsLoaded(polls[k]);
      if ok {
        return;
      }
    }
    return false;
  }

  /** `_prepare_page`: the start loop runs (turns > 0) exactly when
      `ClicksStart` says so, and the page is ready iff a poll sees it
      loaded. */
  method PreparePage(url: string, rounds: nat -> Round, polls: seq<Snapshot>) returns (ok: bool, turns: nat)
    ensures turns > 0 <==> ClicksStart(url)
    ensures turns <= 3
    ensures ok <==> exists k | 0 <= k < |polls| :: Loaded(polls[k])
  {
    turns := 0;
    if ClicksStart(url) {
      var started;
      started, turns := ClickStartButton(rounds, url);
    }
    ok := WaitLoaded(polls);
  }

  // ---------------------------------------------------------------------
  // _extract_metadata
  // ---------------------------------------------------------------------

  const MetaSelectors: seq<string> := ["[data-testid='header-right']", ".rc-AssignmentHeader"]
  const MetaSep := " \U{2022} "

  /** The stripped, non-blank texts of the header elements, each on one
      line. */
  function MetaParts(texts: seq<string>): (r: seq<string>)
    ensures |r| <= |texts|
    ensures forall i | 0 <= i < |r| :: r[i] != [] && '\n' !in r[i]
  {
    if texts == [] then []
    else
      var t := Strip(Last(texts));
      ReplaceCharIsMapChar(t, '\n', ' ');
      MetaParts(texts[..|texts| - 1]) + (if t != [] then [ReplaceAll(t, "\n", " ")] else [])
  }

  /** The header line made of the texts of the elements one selector
      finds: a single line. */
  function Header(texts: seq<string>): (r: string)
    ensures '\n' !in r
    ensures (forall i | 0 <= i < |texts| :: Strip(texts[i]) == []) ==> r == []
  {
    var parts := MetaParts(texts);
    JoinWithout(parts, MetaSep, '\n');
    MetaBlank(texts);
    JoinWith(parts, MetaSep)
  }

  lemma {:induction false} MetaBlank(texts: seq<string>)
    ensures (forall i | 0 <= i < |texts| :: Strip(texts[i]) == []) ==> MetaParts(texts) == []
  {
    if texts != [] {
      MetaBlank(texts[..|texts| - 1]);
    }
  }

  /** `meta` is the header of the first metadata selector that finds any
      element, or "" when neither does. */
  predicate HeaderChosen(find: string -> seq<string>, meta: string)
  {
    if find(MetaSelectors[0]) != [] then meta == Header(find(MetaSelectors[0]))
    else if find(MetaSelectors[1]) != [] then meta == Header(find(MetaSelectors[1]))
    else meta == []
  }

  /** `_extract_metadata`, with `find` the texts of the elements a
      selector finds: the header of the first selector that finds any
      element, even when all their texts are blank, else "". */
  method ExtractMetadata(find: string -> seq<string>) returns (meta: string)
    ensures find(MetaSelectors[0]) != [] ==> meta == Header(find(MetaSelectors[0]))
    ensures find(MetaSelectors[0]) == [] && find(MetaSelectors[1]) != [] ==> meta == Header(find(MetaSelectors[1]))
    ensures find(MetaSelectors[0]) == [] && find(MetaSelectors[1]) == [] ==> meta == []
    ensures '\n' !in meta
  {
    for i := 0 to |MetaSelectors|
      invariant forall j | 0 <= j < i :: find(MetaSelectors[j]) == []
    {
      var els := find(MetaSelectors[i]);
      if els != [] {
        return Header(els);
      }
    }
    return [];
  }

  // ---------------------------------------------------------------------
  // _extract_assignment_content
  // ---------------------------------------------------------------------

  /** An element one of the content selectors finds: its `innerHTML`, the
      sources of its images, and its `outerHTML` (None when missing) once
      those sources are set to the given ones. */
  datatype QuizElement = QuizElement(innerHtml: Option<string>, srcs: seq<string>, outer: seq<string> -> Option<string>)

  const Break := "\n<br>\n"

  /** A search-bar fragment, which the aggregation skips. */
  predicate SearchStub(e: QuizElement)
  {
    var inner := Inner(e.innerHtml);
    Contains(inner, SearchBar) && |inner| < 2000
  }

  /** An `outerHTML` long enough to be kept. */
  predicate Substantial(html: Option<string>)
  {
    html.Some? && |html.value| > 100
  }

  function Piece(html: Option<string>): string
  {
    if Substantial(html) then html.value + Break else []
  }

  /** What the aggregation appends for each element, given the image
      sources each element ended up with. */
  function Aggregate(els: seq<QuizElement>, rendered: seq<seq<string>>): string
    requires |rendered| == |els|
  {
    if els == [] then []
    else
      Aggregate(els[..|els| - 1], rendered[..|els| - 1])
      + (if SearchStub(Last(els)) then [] else Piece(Last(els).outer(Last(rendered))))
  }

  /** The element contributes to the content. */
  predicate Kept(e: QuizElement, srcs: seq<string>)
  {
    !SearchStub(e) && Substantial(e.outer(srcs))
  }

  /** No element contributes to the content. */
  predicate NoneKept(els: seq<QuizElement>, rendered: seq<seq<string>>)
    requires |rendered| == |els|
  {
    forall i | 0 <= i < |els| :: !Kept(els[i], rendered[i])
  }

  lemma NoneKeptSnoc(els: seq<QuizElement>, rendered: seq<seq<string>>)
    requires |rendered| == |els| > 0
    ensures NoneKept(els, rendered) <==>
              NoneKept(els[..|els| - 1], rendered[..|els| - 1]) && !Kept(Last(els), Last(rendered))
  {
    var n := |els| - 1;
    assert forall i | 0 <= i < n :: els[..n][i] == els[i] && rendered[..n][i] == rendered[i];
  }

  /** The content is empty exactly when no element is kept. */
  lemma {:induction false} AggregateEmpty(els: seq<QuizElement>, rendered: seq<seq<string>>)
    requires |rendered| == |els|
    ensures Aggregate(els, rendered) == [] <==> NoneKept(els, rendered)
  {
    if els != [] {
      var n := |els| - 1;
      AggregateEmpty(els[..n], rendered[..n]);
      NoneKeptSnoc(els, rendered);
      var piece := if SearchStub(els[n]) then [] else Piece(els[n].outer(rendered[n]));
      assert piece == [] <==> !Kept(els[n], rendered[n]);
    }
  }

  /** Non-empty content ends with the break that follows every kept
      element. */
  lemma {:induction false} AggregateEndsWithBreak(els: seq<QuizElement>, rendered: seq<seq<string>>)
    requires |rendered| == |els|
    ensures Aggregate(els, rendered) != [] ==> EndsWith(Aggregate(els, rendered), Break)
  {
    if els != [] {
      var n := |els| - 1;
      var before := Aggregate(els[..n], rendered[..n]);
      AggregateEndsWithBreak(els[..n], rendered[..n]);
      var piece := if SearchStub(Last(els)) then [] else Piece(Last(els).outer(Last(rendered)));
      assert Aggregate(els, rendered) == before + piece;
      if piece != [] {
        var x := before + Last(els).outer(Last(rendered)).value;
        assert before + piece == x + Break;
        assert (x + Break)[|x|..] == Break;
      }
    }
  }

  /** The number of image sources of the elements that are not search-bar
      fragments: a bound on the images localised. */
  function KeptSources(els: seq<QuizElement>): nat
  {
    if els == [] then 0
    else KeptSources(els[..|els| - 1]) + (if SearchStub(Last(els)) then 0 else |Last(els).srcs|)
  }

  /** One element of `_extract_assignment_content`: a search-bar fragment
      is skipped; any other has its images localised and contributes its
      piece. */
  method ContentTurn(am: AssetManager, e: QuizElement, itemDir: Path, fs: FileSystem, fetch: string -> Option<nat>)
    returns (piece: string, count: nat, srcs: seq<string>, fs': FileSystem)
    requires am.Valid() && WellFormed(fs) && NoFileOnPath(fs, am.ImagesDir())
    modifies am
    ensures am.Valid() && WellFormed(fs') && NoFileOnPath(fs', am.ImagesDir()) && ConfinedTo(fs, fs', am.ImagesDir())
    ensures |srcs| == |e.srcs|
    ensures SearchStub(e) ==> piece == [] && count == 0 && srcs == e.srcs && fs' == fs
    ensures !SearchStub(e) ==> piece == Piece(e.outer(srcs)) && count <= |e.srcs|
  {
    if SearchStub(e) {
      return [], 0, e.srcs, fs;
    }
    var localized;
    srcs, localized, count, fs' := am.LocalizeImages(e.srcs, itemDir, fs, fetch);
    CountTrueAtMost(localized);
    piece := Piece(e.outer(srcs));
  }

  /** What the aggregation has produced after its first `i` elements. */
  predicate ContentSoFar(els: seq<QuizElement>, i: nat, content: string, downloaded: nat, rendered: seq<seq<string>>)
  {
    i <= |els| && |rendered| == i && content == Aggregate(els[..i], rendered) && downloaded <= KeptSources(els[..i])
    && forall j | 0 <= j < i :: |rendered[j]| == |els[j].srcs| && (SearchStub(els[j]) ==> rendered[j] == els[j].srcs)
  }

  lemma ContentStep(els: seq<QuizElement>, i: nat, content: string, downloaded: nat, rendered: seq<seq<string>>,
                    piece: string, count: nat, srcs: seq<string>)
    requires i < |els| && ContentSoFar(els, i, content, downloaded, rendered)
    requires |srcs| == |els[i].srcs|
    requires SearchStub(els[i]) ==> piece == [] && count == 0 && srcs == els[i].srcs
    requires !SearchStub(els[i]) ==> piece == Piece(els[i].outer(srcs)) && count <= |els[i].srcs|
    ensures ContentSoFar(els, i + 1, content + piece, downloaded + count, rendered + [srcs])
  {
    assert els[..i + 1][..i] == els[..i] && (rendered + [srcs])[..i] == rendered;
  }

  /** `_extract_assignment_content` over the elements the three content
      selectors find, in selector order: the content is the aggregation
      of the pieces, and the count is the number of images localised. */
  method ExtractAssignmentContent(am: AssetManager, els: seq<QuizElement>, itemDir: Path, fs: FileSystem,
                                  fetch: string -> Option<nat>)
    returns (content: string, downloaded: nat, rendered: seq<seq<string>>, fs': FileSystem)
    requires Laid(am, fs, itemDir) && Apart(itemDir, am.sharedAssetsDir)
    modifies am
    ensures Laid(am, fs', itemDir)
    ensures |rendered| == |els| && content == Aggregate(els, rendered) && downloaded <= KeptSources(els)
    ensures forall j | 0 <= j < |els| :: |rendered[j]| == |els[j].srcs| && (SearchStub(els[j]) ==> rendered[j] == els[j].srcs)
  {
    content, downloaded, rendered, fs' := [], 0, [], fs;
    for i := 0 to |els|
      invariant am.Valid() && WellFormed(fs') && NoFileOnPath(fs', am.ImagesDir()) && ConfinedTo(fs, fs', am.ImagesDir())
      invariant ContentSoFar(els, i, content, downloaded, rendered)
    {
      ghost var prev := fs';
      var piece, count, srcs;
      piece, count, srcs, fs' := ContentTurn(am, els[i], itemDir, fs', fetch);
      ConfinedTrans(fs, prev, fs', am.ImagesDir());
      ContentStep(els, i, content, downloaded, rendered, piece, count, srcs);
      content, downloaded, rendered := content + piece, downloaded + count, rendered + [srcs];
    }
    assert els[..|els|] == els;
    ApartChild(itemDir, am.sharedAssetsDir, "images");
    Siblings(am.sharedAssetsDir, "images", "css");
    assert Outside(am.ImagesDir(), itemDir) && Outside(am.ImagesDir(), am.CssDir());
  }

  // ---------------------------------------------------------------------
  // process and _save_quiz_html
  // ---------------------------------------------------------------------

  /** Everything the extractor reads from the browser: the URL, the turns
      of the start loop, the polls of the wait, the texts each header
      selector finds, the elements the content selectors find (in selector
      order), and the (rel, href) of each `<link>`. */
  datatype QuizPage = QuizPage(url: string, rounds: nat -> Round, polls: seq<Snapshot>,
                               headers: string -> seq<string>, elements: seq<QuizElement>,
                               stylesheets: seq<(string, string)>)

  /** `f"{item_counter:03d}_{title}_{item_type}.html"`. */
  function QuizFileName(counter: nat, title: string, itemType: string): Name
  {
    Pad3(counter) + "_" + title + "_" + itemType + ".html"
  }

  /** Below 1000 the page is named like every item, so the next run finds it
      under any prefix of its title (the glob `[0-9][0-9][0-9]_<slug>*`). */
  lemma QuizFileFound(counter: nat, title: string, itemType: string, slug: string)
    requires counter < 1000 && StartsWith(title, slug)
    ensures SlugNamed(QuizFileName(counter, title, itemType), slug) && RenumberGuard(QuizFileName(counter, title, itemType))
  {
    var n := QuizFileName(counter, title, itemType);
    assert n[..4] == Pad3(counter) + "_";
    assert n[4..4 + |title|] == title;
  }

  const TypeOpen := "<span><strong>Type:</strong> "
  const InfoOpen := " | <span><strong>Info:</strong> "
  const SpanClose := "</span>"

  /** The meta line of the saved page: the type, then the header
      information when there is any. */
  function MetaHtml(itemType: string, meta: string): (r: string)
    ensures StartsWith(r, TypeOpen + Title(itemType) + SpanClose)
    ensures r == TypeOpen + Title(itemType) + SpanClose <==> meta == []
  {
    var typeSpan := TypeOpen + Title(itemType) + SpanClose;
    if meta != [] then typeSpan + InfoOpen + meta + SpanClose else typeSpan
  }

  function QuizPath(moduleDir: Path, counter: nat, title: string, itemType: string): Path
  {
    moduleDir + [QuizFileName(counter, title, itemType)]
  }

  /** `process` of a quiz or assignment item in `moduleDir`, whose shared
      asset store lies apart from it.  A page that does not load gives
      (False, 0) and changes nothing; a page without content gives
      (False, 0); otherwise the page is saved, which raises when its name
      is taken by a directory, and the result is (True, images + 1). */
  method Process(am: AssetManager, fs: FileSystem, courseDir: Path, moduleDir: Path, counter: nat, title: string,
                 itemType: string, page: QuizPage, fetch: string -> Option<nat>,
                 wrap: (string, string, string, string) -> string, broken: set<Path>)
    returns (ok: bool, count: nat, fs': FileSystem, raised: bool, content: string, meta: string, html: string,
             images: nat, ghost rendered: seq<seq<string>>)
    requires Laid(am, fs, moduleDir) && |moduleDir| >= 1 && Apart(moduleDir, am.sharedAssetsDir)
    modifies am
    ensures Laid(am, fs', moduleDir)
    ensures (forall k | 0 <= k < |page.polls| :: !Loaded(page.polls[k])) ==> !ok && count == 0 && !raised && fs' == fs
    ensures ok <==> (exists k | 0 <= k < |page.polls| :: Loaded(page.polls[k])) && content != [] && !raised
    ensures (exists k | 0 <= k < |page.polls| :: Loaded(page.polls[k])) ==>
              HeaderChosen(page.headers, meta)
              && |rendered| == |page.elements| && content == Aggregate(page.elements, rendered)
              && images <= KeptSources(page.elements)
              && forall j | 0 <= j < |page.elements| ::
                   |rendered[j]| == |page.elements[j].srcs| && (SearchStub(page.elements[j]) ==> rendered[j] == page.elements[j].srcs)
    ensures content == [] ==> !raised
    ensures !ok ==> count == 0
    ensures ok ==> count == images + 1
                   && QuizPath(moduleDir, counter, title, itemType) in fs'
                   && fs'[QuizPath(moduleDir, counter, title, itemType)] == File(|html|)
    ensures content != [] ==>
              html == wrap(Titled(title), content,
                           JoinWith(CssTags(page.stylesheets, moduleDir, am.sharedAssetsDir, am.md5), "\n"),
                           MetaHtml(itemType, meta))
  {
    ok, count, fs', raised, content, meta, html, images, rendered := false, 0, fs, false, [], [], [], 0, [];
    var ready, turns := PreparePage(page.url, page.rounds, page.polls);
    if !ready {
      return;
    }
    meta := ExtractMetadata(page.headers);
    var rendered';
    content, images, rendered', fs' := ExtractAssignmentContent(am, page.elements, moduleDir, fs, fetch);
    rendered := rendered';
    if content != [] {
      var css;
      raised, html, css, fs' := SaveQuiz(am, fs', courseDir, moduleDir, counter, title, itemType, content, meta,
                                         page.stylesheets, fetch, wrap, broken);
      if !raised {
        ok, count := true, images + 1;
      }
    }
  }

  /** The saving half of `process`: the course stylesheets are stored, the
      page is placed in the module as `QuizFileName`, and the wrapped page
      is written there; the write raises when that name is taken by a
      directory. */
  method SaveQuiz(am: AssetManager, fs: FileSystem, courseDir: Path, moduleDir: Path, counter: nat, title: string,
                  itemType: string, content: string, meta: string, stylesheets: seq<(string, string)>,
                  fetch: string -> Option<nat>, wrap: (string, string, string, string) -> string, broken: set<Path>)
    returns (raised: bool, html: string, css: string, fs': FileSystem)
    requires Laid(am, fs, moduleDir) && |moduleDir| >= 1 && Apart(moduleDir, am.sharedAssetsDir)
    ensures Laid(am, fs', moduleDir)
    ensures raised <==> IsDir(fs', QuizPath(moduleDir, counter, title, itemType))
    ensures !raised ==> QuizPath(moduleDir, counter, title, itemType) in fs'
                        && fs'[QuizPath(moduleDir, counter, title, itemType)] == File(|html|)
    ensures css == JoinWith(CssTags(stylesheets, moduleDir, am.sharedAssetsDir, am.md5), "\n")
    ensures html == wrap(Titled(title), content, css, MetaHtml(itemType, meta))
  {
    css, fs' := am.DownloadCourseCss(stylesheets, moduleDir, fs, fetch);
    ApartChild(moduleDir, am.sharedAssetsDir, "css");
    Siblings(am.sharedAssetsDir, "css", "images");
    assert Outside(am.CssDir(), moduleDir) && Outside(am.CssDir(), am.ImagesDir());
    var name := QuizFileName(counter, title, itemType);
    var qFile;
    qFile, fs' := PlaceHtml(am, fs', courseDir, moduleDir, name, broken);
    html := wrap(Titled(title), content, css, MetaHtml(itemType, meta));
    raised := IsDir(fs', qFile);
    if !raised {
      fs' := WritePage(fs', moduleDir, name, |html|, am.ImagesDir(), am.CssDir());
    }
  }
}
