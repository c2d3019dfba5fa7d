// Reading summaries (summarize_readings.py): choosing the reading pages,
// pulling their text, parsing what the language model answers, and putting
// the summary box at the top of the page. An HTML page is a tree of
// `Node`s; the model's answer is an input (`None` when the request fails).

module Summaries {
  import opened Base
  import opened Listing
  import opened Walk

  // ---------------------------------------------------------------------
  // `get_html_files` and `is_video`
  // ---------------------------------------------------------------------

  /** Words in a lower-cased file name that mark a page as no reading. */
  const SkipKeywords: seq<string> := ["quiz", "assignment", "submit", "peer_review", "exam"]

  /** An `.html` file whose lower-cased name holds none of the skip words. */
  predicate IsReading(name: string)
  {
    EndsWith(name, ".html") && forall k | 0 <= k < |SkipKeywords| :: !Contains(Lower(name), SkipKeywords[k])
  }

  /** `get_html_files`: every reading page of the walk, sorted. */
  method GetHtmlFiles(walk: seq<WalkStep>) returns (files: seq<string>)
    ensures files == SortStrings(Found(walk, IsReading))
  {
    files := FindFiles(walk, IsReading);
  }

  /** The pages listed are exactly the reading pages of the walk: each ends
      in `.html`, comes from a name without a skip word, and the list is
      sorted. */
  lemma HtmlFilesExactly(walk: seq<WalkStep>)
    ensures var r := SortStrings(Found(walk, IsReading));
      (forall p | p in r :: EndsWith(p, ".html") && Origin(walk, IsReading, p))
      && (forall i, f | 0 <= i < |walk| && f in walk[i].files && IsReading(f) :: Join(walk[i].root, f) in r)
      && (forall i, j | 0 <= i < j < |r| :: LexLe(r[i], r[j]))
  {
    var r := SortStrings(Found(walk, IsReading));
    FoundExactly(walk, IsReading);
    forall p | p in r ensures EndsWith(p, ".html") {
      var i, f :| 0 <= i < |walk| && f in walk[i].files && IsReading(f) && p == Join(walk[i].root, f);
      JoinKeepsSuffix(walk[i].root, f, ".html");
    }
  }

  /** The video a page would accompany: `.html` replaced by `.mp4`. */
  function VideoPath(page: string): string
  {
    ReplaceAll(page, ".html", ".mp4")
  }

  /** `is_video`: the page's video exists (`existing` are the paths on
      disk). */
  predicate IsVideo(page: string, existing: set<string>)
  {
    VideoPath(page) in existing
  }

  /** For a page named `base.html` the companion video is `base.mp4`. */
  lemma VideoPathOf(base: string)
    requires forall i | 0 <= i < |base| :: !OccursAt(base + ".html", ".html", i)
    ensures VideoPath(base + ".html") == base + ".mp4"
  {
    assert base + ".html" + [] == base + ".html";
    ReplaceFirst(base, ".html", ".mp4", []);
  }

  // ---------------------------------------------------------------------
  // Parsing the answer in `generate_content_updates`
  // ---------------------------------------------------------------------

  /** Texts shorter than this are not sent. */
  const MinText := 100
  const Separator := "|||SEPARATOR|||"
  const SummaryStart := "[HEBREW_HTML_START]"
  const SummaryEnd := "[HEBREW_HTML_END]"
  const HtmlFence := "```html"
  const Fence := "```"

  /** `sub in s` exactly when a search for `sub` stops inside `s`. */
  lemma FindContains(s: string, sub: string)
    requires |sub| > 0
    ensures Contains(s, sub) <==> Find(s, sub, 0) < |s|
  {
    var k := Find(s, sub, 0);
    if Contains(s, sub) {
      var i :| 0 <= i <= |s| - |sub| && OccursAt(s, sub, i);
    }
    if k < |s| {
      assert OccursAt(s, sub, k);
    }
  }

  /** `s.split(m)[0]`: the text before the first `m`, all of `s` when there
      is none. */
  function Before(s: string, m: string): (r: string)
    requires |m| > 0
    ensures StartsWith(s, r)
    ensures forall i | 0 <= i < |r| :: !OccursAt(s, m, i)
    ensures r == s || OccursAt(s, m, |r|)
  {
    var k := Find(s, m, 0);
    assert s[..k][..k] == s[..k];
    s[..k]
  }

  /** `s.split(m)[1]`: the text after the first `m`, up to the next `m`. */
  function Second(s: string, m: string): (r: string)
    requires |m| > 0 && Contains(s, m)
  {
    FindContains(s, m);
    Before(s[Find(s, m, 0) + |m|..], m)
  }

  /** The text before an `m` in which no `m` starts is what `split` keeps
      first. */
  lemma BeforeAt(a: string, m: string, b: string)
    requires |m| > 0
    requires forall i | 0 <= i < |a| :: !OccursAt(a + m + b, m, i)
    ensures Before(a + m + b, m) == a
  {
    var s := a + m + b;
    assert s[|a|..|a| + |m|] == m;
    assert OccursAt(s, m, |a|);
    assert s[..|a|] == a;
  }

  /** With no `m` in it, `split` keeps the whole text. */
  lemma BeforeNone(s: string, m: string)
    requires |m| > 0
    requires forall i | 0 <= i < |s| :: !OccursAt(s, m, i)
    ensures Before(s, m) == s
  {
  }

  /** The text after a leading `m` up to the next one. */
  lemma SecondAt(m: string, b: string)
    requires |m| > 0
    requires forall i | 0 <= i < |b| :: !OccursAt(b, m, i)
    ensures Contains(m + b, m) && Second(m + b, m) == b
  {
    var s := m + b;
    assert s[..|m|] == m;
    assert OccursAt(s, m, 0);
    assert s[|m|..] == b;
    BeforeNone(b, m);
  }

  /** The summary part of an answer: cut to the marked block, the code
      fences dropped and the ends stripped. */
  function SummaryOf(raw: string): (r: string)
    ensures Stripped(r)
  {
    var a := if Contains(raw, SummaryStart) then Second(raw, SummaryStart) else raw;
    var b := if Contains(a, SummaryEnd) then Before(a, SummaryEnd) else a;
    var r := Strip(ReplaceAll(ReplaceAll(b, HtmlFence, ""), Fence, ""));
    assert r != [] ==> !IsSpace(r[0]) && !IsSpace(r[|r| - 1]);
    r
  }

  /** A summary and the context for the next file. */
  datatype Update = Update(summary: string, context: string)

  /** `generate_content_updates`: `response` is the answer text (`None`
      when the request or its JSON fails; a missing field is the empty
      text). Every failure keeps the context and gives no summary. */
  function ContentUpdates(context: string, newText: string, response: Option<string>): (r: Update)
    ensures |newText| < MinText || response.None? || !Contains(response.value, Separator) ==>
              r == Update("", context)
    ensures Stripped(r.summary)
  {
    if |newText| < MinText || response.None? || !Contains(response.value, Separator) then
      Update("", context)
    else
      var text := response.value;
      Update(SummaryOf(Strip(Before(text, Separator))), Strip(Second(text, Separator)))
  }

  /** No occurrence of `m` starts in the stretch `a` when `a` lacks the
      first character of `m`. */
  lemma HeadAbsent(a: string, m: string, b: string)
    requires |m| > 0 && m[0] !in a
    ensures forall i | 0 <= i < |a| :: !OccursAt(a + m + b, m, i)
    ensures forall i | 0 <= i < |a| :: !OccursAt(a, m, i)
    ensures !Contains(a, m)
  {
    forall i | 0 <= i < |a| ensures !OccursAt(a + m + b, m, i) && !OccursAt(a, m, i) {
      assert (a + m + b)[i] == a[i];
    }
  }

  /** Stripping a trailing space off a stripped text. */
  lemma StripSpaceAfter(x: string)
    requires x != [] && Stripped(x)
    ensures Strip(x + " ") == x
  {
    assert StripLeft(x + " ") == x + " ";
    assert (x + " ")[..|x|] == x;
    assert StripRight(x) == x;
  }

  /** Stripping a leading space off a stripped text. */
  lemma StripSpaceBefore(x: string)
    requires Stripped(x)
    ensures Strip(" " + x) == x
  {
    assert (" " + x)[1..] == x;
    assert StripLeft(x) == x;
    assert StripRight(x) == x;
  }

  /** The answer layout the prompt asks for: the summary between the
      markers, then the separator, then the new context. */
  function Answer(summary: string, context: string): string
  {
    SummaryStart + summary + SummaryEnd + " " + Separator + " " + context
  }

  /** `SummaryOf` on a text holding both markers, one step at a time. */
  lemma SummaryOfSteps(raw: string, a: string, b: string)
    requires Contains(raw, SummaryStart) && Second(raw, SummaryStart) == a
    requires Contains(a, SummaryEnd) && Before(a, SummaryEnd) == b
    ensures SummaryOf(raw) == Strip(ReplaceAll(ReplaceAll(b, HtmlFence, ""), Fence, ""))
  {
  }

  /** The marked block of an answer is its summary. */
  lemma SummaryOfMarked(summary: string)
    requires Stripped(summary)
    requires '[' !in summary && '`' !in summary
    ensures SummaryOf(SummaryStart + summary + SummaryEnd) == summary
  {
    var b := summary + SummaryEnd;
    forall i | 0 <= i < |b| ensures !OccursAt(b, SummaryStart, i) {
      if i < |summary| {
        assert b[i] == summary[i];
      }
    }
    SecondAt(SummaryStart, b);
    HeadAbsent(summary, SummaryEnd, []);
    assert b == summary + SummaryEnd + [];
    ContainsInside(summary, SummaryEnd, []);
    BeforeAt(summary, SummaryEnd, []);
    assert SummaryStart + summary + SummaryEnd == SummaryStart + b;
    SummaryOfSteps(SummaryStart + b, b, summary);
    HeadAbsent(summary, HtmlFence, []);
    ReplaceAbsent(summary, HtmlFence, "");
    HeadAbsent(summary, Fence, []);
    ReplaceAbsent(summary, Fence, "");
    StripFixed(summary);
  }

  /** An answer in the requested layout parses back into the summary and
      the context it was made from. */
  lemma AnswerRoundTrip(context: string, newText: string, summary: string, next: string)
    requires |newText| >= MinText
    requires Stripped(summary) && '[' !in summary && '|' !in summary && '`' !in summary
    requires Stripped(next) && '|' !in next
    ensures ContentUpdates(context, newText, Some(Answer(summary, next))) == Update(summary, next)
  {
    var x := SummaryStart + summary + SummaryEnd;
    var a := x + " ";
    var b := " " + next;
    var text := Answer(summary, next);
    assert text == a + Separator + b;
    assert '|' !in SummaryStart && '|' !in SummaryEnd;
    assert '|' !in a;
    HeadAbsent(a, Separator, b);
    ContainsInside(a, Separator, b);
    BeforeAt(a, Separator, b);
    assert text[|a| + |Separator|..] == b;
    HeadAbsent(b, Separator, []);
    BeforeNone(b, Separator);
    assert Second(text, Separator) == b;
    StripSpaceBefore(next);
    assert Stripped(x);
    StripSpaceAfter(x);
    SummaryOfMarked(summary);
  }

  // ---------------------------------------------------------------------
  // Pages
  // ---------------------------------------------------------------------

  /** A node of a parsed page: an element with its tag, class list, `type`
      attribute ("" when absent) and children; a text string; or an
      inserted summary fragment, kept as its markup. */
  datatype Node =
    | Element(tag: string, classes: seq<string>, kind: string, kids: seq<Node>)
    | Text(text: string)
    | Fragment(html: string)

  /** The searches `soup.find` makes on the pages. */
  datatype Query =
    | TagWithClass(tag: string, cls: string)
    | TagOnly(tag: string)
    | InputOfType(kind: string)
    | ClassLike(part: string)

  predicate Matches(n: Node, q: Query)
  {
    n.Element? &&
    match q
    case TagWithClass(t, c) => n.tag == t && c in n.classes
    case TagOnly(t) => n.tag == t
    case InputOfType(k) => n.tag == "input" && n.kind == k
    case ClassLike(part) => exists i | 0 <= i < |n.classes| :: Contains(n.classes[i], part)
  }

  /** `find`: the first node in document order (a node before its
      children, children before later siblings) that the query matches. */
  function FindIn(ns: seq<Node>, q: Query): (r: Option<Node>)
    ensures r.Some? ==> Matches(r.value, q)
    decreases ns
  {
    if ns == [] then None
    else if Matches(ns[0], q) then Some(ns[0])
    else
      var inner := if ns[0].Element? then FindIn(ns[0].kids, q) else None;
      if inner.Some? then inner else FindIn(ns[1..], q)
  }

  const BoxQuery := TagWithClass("div", "ai-summary-box")
  const WrapperQuery := TagWithClass("div", "content-wrapper")
  const BodyQuery := TagOnly("body")

  /** `has_summary` on a page that was read. */
  predicate HasSummary(doc: seq<Node>)
  {
    FindIn(doc, BoxQuery).Some?
  }

  /** A quiz page: a radio button, a check box, a text area, or a class
      naming a form question or option. */
  predicate Interactive(doc: seq<Node>)
  {
    FindIn(doc, InputOfType("radio")).Some? || FindIn(doc, InputOfType("checkbox")).Some?
    || FindIn(doc, TagOnly("textarea")).Some?
    || FindIn(doc, ClassLike("rc-FormPartsQuestion")).Some? || FindIn(doc, ClassLike("rc-Option")).Some?
  }

  /** Where text is taken from and the summary goes: the content wrapper,
      else the body. */
  function TargetQuery(doc: seq<Node>): (r: Option<Query>)
    ensures r.Some? ==> FindIn(doc, r.value).Some?
    ensures r == None <==> FindIn(doc, WrapperQuery).None? && FindIn(doc, BodyQuery).None?
  {
    if FindIn(doc, WrapperQuery).Some? then Some(WrapperQuery)
    else if FindIn(doc, BodyQuery).Some? then Some(BodyQuery)
    else None
  }

  // ---------------------------------------------------------------------
  // `inject_summary_into_file`
  // ---------------------------------------------------------------------

  /** The summary box around the parsed summary. */
  function Box(html: string): (r: Node)
    ensures Matches(r, BoxQuery)
  {
    Element("div", ["ai-summary-box"], "", [Fragment(html)])
  }

  /** `box` put in front of the children of the first node `q` matches. */
  function InsertIn(ns: seq<Node>, q: Query, box: Node): seq<Node>
    decreases ns
  {
    if ns == [] then []
    else if Matches(ns[0], q) then [ns[0].(kids := [box] + ns[0].kids)] + ns[1..]
    else if ns[0].Element? && FindIn(ns[0].kids, q).Some? then [ns[0].(kids := InsertIn(ns[0].kids, q, box))] + ns[1..]
    else [ns[0]] + InsertIn(ns[1..], q, box)
  }

  /** The first child of the first node `q` matches taken out: what undoes
      `InsertIn`. */
  function DeleteIn(ns: seq<Node>, q: Query): seq<Node>
    decreases ns
  {
    if ns == [] then []
    else if Matches(ns[0], q) then
      [ns[0].(kids := if ns[0].kids == [] then [] else ns[0].kids[1..])] + ns[1..]
    else if ns[0].Element? && FindIn(ns[0].kids, q).Some? then [ns[0].(kids := DeleteIn(ns[0].kids, q))] + ns[1..]
    else [ns[0]] + DeleteIn(ns[1..], q)
  }

  /** After the insertion, the first match is the old one with `box` as its
      first child. */
  lemma {:induction false} InsertFinds(ns: seq<Node>, q: Query, box: Node)
    requires FindIn(ns, q).Some?
    ensures var t := FindIn(ns, q).value;
      FindIn(InsertIn(ns, q, box), q) == Some(t.(kids := [box] + t.kids))
    decreases ns
  {
    if !Matches(ns[0], q) {
      if ns[0].Element? && FindIn(ns[0].kids, q).Some? {
        InsertFinds(ns[0].kids, q, box);
      } else {
        InsertFinds(ns[1..], q, box);
      }
    }
  }

  /** Whatever matches `box` can be found once it is inserted. */
  lemma {:induction false} InsertAdds(ns: seq<Node>, q: Query, box: Node, q2: Query)
    requires FindIn(ns, q).Some? && Matches(box, q2)
    ensures FindIn(InsertIn(ns, q, box), q2).Some?
    decreases ns
  {
    var r := InsertIn(ns, q, box);
    if Matches(ns[0], q) {
      assert r[0].kids[0] == box;
    } else if ns[0].Element? && FindIn(ns[0].kids, q).Some? {
      InsertAdds(ns[0].kids, q, box, q2);
    } else {
      InsertAdds(ns[1..], q, box, q2);
      assert r[1..] == InsertIn(ns[1..], q, box);
    }
  }

  /** Taking the box out again gives back the page as it was. */
  lemma {:induction false} DeleteInsert(ns: seq<Node>, q: Query, box: Node)
    ensures DeleteIn(InsertIn(ns, q, box), q) == ns
    decreases ns
  {
    if ns != [] {
      var r := InsertIn(ns, q, box);
      if Matches(ns[0], q) {
        assert r[0].kids[1..] == ns[0].kids;
        assert r[1..] == ns[1..];
      } else if ns[0].Element? && FindIn(ns[0].kids, q).Some? {
        DeleteInsert(ns[0].kids, q, box);
        InsertFinds(ns[0].kids, q, box);
        assert r[1..] == ns[1..];
      } else {
        DeleteInsert(ns[1..], q, box);
        if ns[0].Element? {
          assert FindIn(r[0].kids, q).None?;
        }
        assert r[1..] == InsertIn(ns[1..], q, box);
      }
    }
  }

  /** `inject_summary_into_file` on a page that was read: the new page, or
      `None` when nothing is written (a box is there already, or there is
      no wrapper and no body). */
  function Inject(doc: seq<Node>, html: string): (r: Option<seq<Node>>)
    ensures HasSummary(doc) ==> r.None?
    ensures r.None? <==> HasSummary(doc) || TargetQuery(doc).None?
  {
    if HasSummary(doc) then None
    else match TargetQuery(doc)
      case None => None
      case Some(q) => Some(InsertIn(doc, q, Box(html)))
  }

  /** A written page holds the box as the first child of the wrapper (else
      of the body), and removing it gives back the page read. */
  lemma InjectPlacesBox(doc: seq<Node>, html: string)
    requires Inject(doc, html).Some?
    ensures var q := TargetQuery(doc).value;
      var t := FindIn(doc, q).value;
      var page := Inject(doc, html).value;
      FindIn(page, q) == Some(t.(kids := [Box(html)] + t.kids))
      && DeleteIn(page, q) == doc
  {
    var q := TargetQuery(doc).value;
    InsertFinds(doc, q, Box(html));
    DeleteInsert(doc, q, Box(html));
  }

  /** Injecting twice writes once: the page written has a box, so a second
      injection leaves it alone. */
  lemma InjectIdempotent(doc: seq<Node>, html: string, html2: string)
    requires Inject(doc, html).Some?
    ensures HasSummary(Inject(doc, html).value)
    ensures Inject(Inject(doc, html).value, html2).None?
  {
    InsertAdds(doc, TargetQuery(doc).value, Box(html), BoxQuery);
  }

  // ---------------------------------------------------------------------
  // `extract_text_from_html`
  // ---------------------------------------------------------------------

  /** The text strings under `ns` in document order, each stripped, the
      empty ones dropped: what `get_text(strip=True)` joins. */
  function Pieces(ns: seq<Node>): (r: seq<string>)
    ensures forall k | 0 <= k < |r| :: r[k] != [] && Stripped(r[k])
    decreases ns
  {
    if ns == [] then []
    else
      var head :=
        if ns[0].Text? then (if Strip(ns[0].text) == [] then [] else [Strip(ns[0].text)])
        else if ns[0].Element? then Pieces(ns[0].kids)
        else [];
      head + Pieces(ns[1..])
  }

  /** No three newlines in a row. */
  predicate NoTripleNewline(s: string)
  {
    forall i | 0 <= i < |s| - 2 :: !(s[i] == '\n' && s[i + 1] == '\n' && s[i + 2] == '\n')
  }

  /** The number of newlines `s` starts with. */
  function NewlineRun(s: string): (k: nat)
    ensures k <= |s| && (k < |s| ==> s[k] != '\n')
    ensures forall i | 0 <= i < k :: s[i] == '\n'
  {
    if s != [] && s[0] == '\n' then 1 + NewlineRun(s[1..]) else 0
  }

  /** A non-newline in front keeps a text free of triple newlines. */
  lemma NoTripleAfter(c: char, q: string)
    requires c != '\n' && NoTripleNewline(q)
    ensures NoTripleNewline([c] + q)
  {
    var r := [c] + q;
    forall i | 0 <= i < |r| - 2 ensures !(r[i] == '\n' && r[i + 1] == '\n' && r[i + 2] == '\n') {
      if i > 0 {
        assert r[i] == q[i - 1] && r[i + 1] == q[i] && r[i + 2] == q[i + 1];
      }
    }
  }

  /** At most two newlines in front of a text that starts otherwise. */
  lemma NoTripleRun(run: string, q: string)
    requires |run| <= 2 && NoTripleNewline(q) && (q == [] || q[0] != '\n')
    ensures NoTripleNewline(run + q)
  {
    var r := run + q;
    forall i | 0 <= i < |r| - 2 ensures !(r[i] == '\n' && r[i + 1] == '\n' && r[i + 2] == '\n') {
      if i >= |run| {
        assert r[i] == q[i - |run|] && r[i + 1] == q[i - |run| + 1] && r[i + 2] == q[i - |run| + 2];
      } else {
        assert r[|run|] == q[0];
      }
    }
  }

  /** A suffix of a text free of triple newlines is free of them too. */
  lemma NoTripleSuffix(s: string, k: nat)
    requires k <= |s| && NoTripleNewline(s)
    ensures NoTripleNewline(s[k..])
  {
    var t := s[k..];
    forall i | 0 <= i < |t| - 2 ensures !(t[i] == '\n' && t[i + 1] == '\n' && t[i + 2] == '\n') {
      assert t[i] == s[i + k] && t[i + 1] == s[i + k + 1] && t[i + 2] == s[i + k + 2];
    }
  }

  /** `re.sub(r"\n{3,}", "\n\n", s)`: every run of three or more newlines
      becomes two. */
  function Collapse(s: string): (r: string)
    ensures NoTripleNewline(r)
    ensures r == [] <==> s == []
    ensures s != [] ==> (r[0] == '\n' <==> s[0] == '\n')
    decreases |s|
  {
    if s == [] then []
    else if s[0] != '\n' then
      var rest := Collapse(s[1..]);
      NoTripleAfter(s[0], rest);
      [s[0]] + rest
    else
      var k := NewlineRun(s);
      var run := if k >= 3 then "\n\n" else s[..k];
      var rest := Collapse(s[k..]);
      NoTripleRun(run, rest);
      run + rest
  }

  /** A text without three newlines in a row is left as it is. */
  lemma {:induction false} CollapseKeeps(s: string)
    requires NoTripleNewline(s)
    ensures Collapse(s) == s
    decreases |s|
  {
    if s != [] {
      if s[0] != '\n' {
        NoTripleSuffix(s, 1);
        CollapseKeeps(s[1..]);
        assert s == [s[0]] + s[1..];
      } else {
        var k := NewlineRun(s);
        assert |s| < 3 || !(s[0] == '\n' && s[1] == '\n' && s[2] == '\n');
        assert k < 3;
        NoTripleSuffix(s, k);
        CollapseKeeps(s[k..]);
        assert s == s[..k] + s[k..];
      }
    }
  }

  /** Collapsing twice collapses nothing more. */
  lemma CollapseIdempotent(s: string)
    ensures Collapse(Collapse(s)) == Collapse(s)
  {
    CollapseKeeps(Collapse(s));
  }

  /** `extract_text_from_html` on what reading the page gave (`None` when
      reading fails, which yields the empty text): `None` for a quiz page,
      the empty text when there is no wrapper and no body, else the
      target's text pieces joined by blank lines with longer newline runs
      shortened. */
  function ExtractText(doc: Option<seq<Node>>): (r: Option<string>)
    ensures doc.None? ==> r == Some("")
    ensures r.None? <==> doc.Some? && Interactive(doc.value)
    ensures r.Some? ==> NoTripleNewline(r.value)
    ensures doc.Some? && !Interactive(doc.value) && TargetQuery(doc.value).None? ==> r == Some("")
  {
    if doc.None? then Some("")
    else if Interactive(doc.value) then None
    else match TargetQuery(doc.value)
      case None => Some("")
      case Some(q) => Some(Collapse(JoinWith(Pieces(FindIn(doc.value, q).value.kids), "\n\n")))
  }

  // ---------------------------------------------------------------------
  // `summarize_file` and `process_course`
  // ---------------------------------------------------------------------

  /** What summarizing one file gives: success, the context for the next
      file, and the page written (`None` when nothing is written). */
  datatype FileRun = FileRun(ok: bool, context: string, written: Option<seq<Node>>)

  /** `summarize_file`: `present` says whether the file is there, `doc` is
      what reading it gives and `response` the model's answer. */
  function SummarizeFile(present: bool, doc: Option<seq<Node>>, context: string, response: Option<string>): (r: FileRun)
    ensures !present || (doc.Some? && HasSummary(doc.value)) ==> r == FileRun(true, context, None)
    ensures present && (doc.None? || (Interactive(doc.value) && !HasSummary(doc.value))) ==> r == FileRun(false, context, None)
    ensures !r.ok ==> r.context == context && r.written.None?
    ensures r.written.Some? ==>
              doc.Some? && !HasSummary(doc.value) && HasSummary(r.written.value)
              && exists html :: r.written == Inject(doc.value, html)
  {
    if !present || (doc.Some? && HasSummary(doc.value)) then FileRun(true, context, None)
    else
      var text := ExtractText(doc);
      if text.None? || text.value == [] then FileRun(false, context, None)
      else
        var u := ContentUpdates(context, text.value, response);
        if u.summary == [] then FileRun(false, context, None)
        else
          var written := Inject(doc.value, u.summary);
          assert written.Some? ==> HasSummary(written.value) by {
            if written.Some? {
              InjectIdempotent(doc.value, u.summary, u.summary);
            }
          }
          FileRun(true, u.context, written)
  }

  /** A file once summarized is skipped the next time, and its context is
      passed on unchanged. */
  lemma SummarizeTwice(doc: seq<Node>, context: string, response: Option<string>, context2: string, response2: Option<string>)
    requires SummarizeFile(true, Some(doc), context, response).written.Some?
    ensures var page := SummarizeFile(true, Some(doc), context, response).written;
      SummarizeFile(true, page, context2, response2) == FileRun(true, context2, None)
  {
  }

  /** A page written in place of `doc` was a readable page, not a quiz,
      had no box, and has one now. */
  predicate Rewrote(doc: Option<seq<Node>>, page: Option<seq<Node>>)
  {
    page.Some? ==> doc.Some? && !Interactive(doc.value) && !HasSummary(doc.value) && HasSummary(page.value)
  }

  /** One file in `process_course`: the page is not checked for a box
      first, and the context returned is taken even when the summary is
      empty. */
  function CourseFile(context: string, doc: Option<seq<Node>>, respond: (string, string) -> Option<string>): (r: FileRun)
    ensures Rewrote(doc, r.written)
    ensures doc.None? || Interactive(doc.value) ==> r == FileRun(false, context, None)
  {
    var text := ExtractText(doc);
    if text.None? || text.value == [] then FileRun(false, context, None)
    else
      var u := ContentUpdates(context, text.value, respond(context, text.value));
      if u.summary == [] then FileRun(false, u.context, None)
      else
        var written := Inject(doc.value, u.summary);
        assert written.Some? ==> HasSummary(written.value) by {
          if written.Some? {
            InjectIdempotent(doc.value, u.summary, u.summary);
          }
        }
        FileRun(true, u.context, written)
  }

  /** The context after a course's files and the page written for each
      (`None` when nothing is written). */
  datatype Course = Course(context: string, written: seq<Option<seq<Node>>>)

  /** `process_course` on the pages read (`docs`), with `respond(context,
      text)` the model's answer to each request. */
  function CourseRun(docs: seq<Option<seq<Node>>>, respond: (string, string) -> Option<string>): (r: Course)
    ensures |r.written| == |docs|
  {
    if docs == [] then Course("", [])
    else
      var n := |docs| - 1;
      var prev := CourseRun(docs[..n], respond);
      var f := CourseFile(prev.context, docs[n], respond);
      Course(f.context, prev.written + [f.written])
  }

  /** `process_course`'s loop over the files of one course. */
  method ProcessCourse(docs: seq<Option<seq<Node>>>, respond: (string, string) -> Option<string>)
    returns (context: string, written: seq<Option<seq<Node>>>)
    ensures Course(context, written) == CourseRun(docs, respond)
  {
    context, written := "", [];
    for i := 0 to |docs|
      invariant Course(context, written) == CourseRun(docs[..i], respond)
    {
      assert docs[..i + 1][..i] == docs[..i];
      var text := ExtractText(docs[i]);
      var page: Option<seq<Node>> := None;
      if text.Some? && text.value != [] {
        var u := ContentUpdates(context, text.value, respond(context, text.value));
        context := u.context;
        if u.summary != [] {
          page := Inject(docs[i].value, u.summary);
        }
      }
      written := written + [page];
    }
    assert docs[..|docs|] == docs;
  }

  /** Only readable, non-quiz pages without a box are written, and each
      page written has one. */
  lemma {:induction false} CourseWrites(docs: seq<Option<seq<Node>>>, respond: (string, string) -> Option<string>)
    ensures var w := CourseRun(docs, respond).written;
      forall i | 0 <= i < |docs| :: Rewrote(docs[i], w[i])
  {
    if docs != [] {
      var n := |docs| - 1;
      var init := docs[..n];
      CourseWrites(init, respond);
      var prev := CourseRun(init, respond);
      var f := CourseFile(prev.context, docs[n], respond);
      var w := prev.written + [f.written];
      assert CourseRun(docs, respond).written == w;
      forall i | 0 <= i < |docs| ensures Rewrote(docs[i], w[i]) {
        if i < n {
          assert w[i] == prev.written[i] && docs[i] == init[i];
        }
      }
    }
  }
}
