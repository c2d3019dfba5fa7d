/** Pointing the download links of saved reading pages at the attachments
    saved next to them: every absolute link of a page whose folder holds
    `_attachment_` files is matched to one of those files, by the link's
    `data-name` or by the file name in its URL. */
module FixLinks {
  import opened Base
  import opened Listing
  import Utils

  // ---------------------------------------------------------------------
  // Searching the attachments
  // ---------------------------------------------------------------------

  /** The files of a page's folder whose name contains `_attachment_`, in
      listing order. */
  function Attachments(siblings: seq<Node>): (r: seq<string>)
    ensures forall k | 0 <= k < |r| :: Contains(r[k], "_attachment_") && File(r[k]) in siblings
    ensures forall k | 0 <= k < |siblings| && siblings[k].File? && Contains(siblings[k].name, "_attachment_") ::
              siblings[k].name in r
  {
    if siblings == [] then []
    else
      var n := |siblings| - 1;
      var init := Attachments(siblings[..n]);
      assert forall k | 0 <= k < n :: siblings[..n][k] == siblings[k];
      if siblings[n].File? && Contains(siblings[n].name, "_attachment_") then init + [siblings[n].name] else init
  }

  /** Where the first file satisfying `p` is, or `|files|`. */
  function FirstWhereAt(files: seq<string>, p: string -> bool): (k: nat)
    ensures k <= |files| && (k < |files| ==> p(files[k]))
    ensures forall j | 0 <= j < k :: !p(files[j])
  {
    if files == [] || p(files[0]) then 0
    else
      var k := FirstWhereAt(files[1..], p);
      assert forall j | 1 <= j < k + 1 :: files[j] == files[1..][j - 1];
      k + 1
  }

  /** The first file satisfying `p`, as the `for ... break` loops find it. */
  function FirstWhere(files: seq<string>, p: string -> bool): (r: Option<string>)
    ensures r.None? <==> forall k | 0 <= k < |files| :: !p(files[k])
    ensures r.Some? ==> r.value in files && p(r.value)
  {
    var k := FirstWhereAt(files, p);
    if k < |files| then Some(files[k]) else None
  }

  /** A search loop over the attachments, stopping at the first hit. */
  method FindFirst(files: seq<string>, p: string -> bool) returns (found: Option<string>)
    ensures found == FirstWhere(files, p)
  {
    var i := 0;
    while i < |files|
      invariant 0 <= i <= |files|
      invariant forall j | 0 <= j < i :: !p(files[j])
    {
      if p(files[i]) {
        assert FirstWhereAt(files, p) == i;
        return Some(files[i]);
      }
      i := i + 1;
    }
    return None;
  }

  // ---------------------------------------------------------------------
  // The file name in a URL
  // ---------------------------------------------------------------------

  /** `href.startswith(('http://', 'https://'))`. */
  predicate IsWebLink(href: string)
  {
    StartsWith(href, "http://") || StartsWith(href, "https://")
  }

  /** The first index of `s` holding a character of `stop`, or `|s|`. */
  function Until(s: string, stop: char -> bool): (k: nat)
    ensures k <= |s| && (k < |s| ==> stop(s[k]))
    ensures forall m | 0 <= m < k :: !stop(s[m])
  {
    if s == [] || stop(s[0]) then 0
    else
      var k := Until(s[1..], stop);
      assert forall m | 1 <= m < k + 1 :: s[m] == s[1..][m - 1];
      k + 1
  }

  /** The tab, carriage return and newline characters `urlsplit` deletes
      from a URL before splitting it. */
  predicate Unsafe(c: char) { c == '\t' || c == '\r' || c == '\n' }

  function Safe(s: string): (r: string)
    ensures forall m | 0 <= m < |r| :: !Unsafe(r[m])
    ensures forall c | c in s && !Unsafe(c) :: c in r
  {
    if s == [] then []
    else
      var rest := Safe(s[1..]);
      assert forall c | c in s[1..] :: c in s;
      assert forall c | c in s :: c == s[0] || c in s[1..];
      if Unsafe(s[0]) then rest else [s[0]] + rest
  }

  predicate EndsNetloc(c: char) { c == '/' || c == '?' || c == '#' }

  predicate EndsPath(c: char) { c == '?' || c == '#' }

  /** The path of `urlparse(href)` for a web link, or `None` where
      `urlsplit` raises `ValueError` on an unbalanced IPv6 bracket in the
      host. */
  function UrlPath(href: string): (r: Option<string>)
    requires IsWebLink(href)
    ensures r.Some? ==> forall m | 0 <= m < |r.value| :: !EndsPath(r.value[m]) && !Unsafe(r.value[m])
    ensures r.Some? && r.value != [] ==> r.value[0] == '/'
  {
    var start := if StartsWith(href, "https://") then 8 else 7;
    var rest := Safe(href[start..]);
    var e := Until(rest, EndsNetloc);
    var netloc := rest[..e];
    if ('[' in netloc) != (']' in netloc) then None
    else
      var tail := rest[e..];
      var path := tail[..Until(tail, EndsPath)];
      assert forall m | 0 <= m < |path| :: path[m] == rest[e + m];
      Some(path)
  }

  /** `os.path.basename` of that path, after `urlparse` has split the
      `;params` off its last segment. */
  function UrlFileName(path: string): (r: string)
    ensures '/' !in r && ';' !in r
  {
    var segment := path[LastIndex(path, '/') + 1..];
    AfterLastFree(path, '/');
    var name := BeforeFirst(segment, ';');
    PrefixFree(segment, name, '/');
    name
  }

  predicate IsHexDigit(c: char) { IsDigit(c) || 'a' <= c <= 'f' || 'A' <= c <= 'F' }

  function HexValue(c: char): (v: nat)
    requires IsHexDigit(c)
    ensures v < 16
  {
    if IsDigit(c) then c as int - '0' as int
    else if 'a' <= c <= 'f' then c as int - 'a' as int + 10
    else c as int - 'A' as int + 10
  }

  /** `urllib.parse.unquote` for escapes of ASCII characters: `%XX` with
      two hex digits and a value below 128 becomes that character;
      everything else is kept. */
  function Unquote(s: string): (r: string)
    ensures |r| <= |s|
    ensures '%' !in s ==> r == s
  {
    if s == [] then []
    else if |s| >= 3 && s[0] == '%' && IsHexDigit(s[1]) && IsHexDigit(s[2])
            && HexValue(s[1]) * 16 + HexValue(s[2]) < 128
    then [(HexValue(s[1]) * 16 + HexValue(s[2])) as char] + Unquote(s[3..])
    else
      assert '%' !in s ==> '%' !in s[1..];
      [s[0]] + Unquote(s[1..])
  }

  function HexDigit(v: nat): (c: char)
    requires v < 16
    ensures IsHexDigit(c) && HexValue(c) == v
  {
    if v < 10 then ('0' as int + v) as char else ('A' as int + v - 10) as char
  }

  /** `%XX`-quoting every character of an ASCII string. */
  function Quote(s: string): (r: string)
    requires forall m | 0 <= m < |s| :: s[m] as int < 128
    ensures |r| == 3 * |s|
  {
    if s == [] then []
    else "%" + [HexDigit(s[0] as int / 16), HexDigit(s[0] as int % 16)] + Quote(s[1..])
  }

  /** Unquoting gives back every quoted ASCII string. */
  lemma {:induction false} UnquoteQuote(s: string)
    requires forall m | 0 <= m < |s| :: s[m] as int < 128
    ensures Unquote(Quote(s)) == s
  {
    if s != [] {
      var q := Quote(s);
      var v := s[0] as int;
      assert HexValue(q[1]) * 16 + HexValue(q[2]) == v;
      assert q[3..] == Quote(s[1..]);
      UnquoteQuote(s[1..]);
    }
  }

  // ---------------------------------------------------------------------
  // Matching one link
  // ---------------------------------------------------------------------

  /** A link as the page holds it: its attributes, and the `data-name`
      values of its descendants that carry one, in document order. */
  datatype Anchor = Anchor(attrs: map<string, string>, descendantNames: seq<string>)

  /** The `data-name` of the link itself when it is non-empty, else that of
      its first descendant that has one; empty when there is none. */
  function DataName(a: Anchor): (r: string)
    ensures "data-name" in a.attrs && a.attrs["data-name"] != [] ==> r == a.attrs["data-name"]
    ensures !("data-name" in a.attrs && a.attrs["data-name"] != []) && a.descendantNames != [] ==> r == a.descendantNames[0]
  {
    if "data-name" in a.attrs && a.attrs["data-name"] != [] then a.attrs["data-name"]
    else if a.descendantNames != [] then a.descendantNames[0]
    else []
  }

  /** The data-name strategy: the first attachment containing
      `_attachment_` followed by the sanitised name. */
  function NamedIn(dataName: string): string -> bool
  {
    (f: string) => Contains(f, "_attachment_" + Utils.SanitizeFilename(dataName))
  }

  /** The URL strategy for a sanitised URL file name `clean`: a file whose
      name contains it, or whose suffix is the same and whose stem contains
      its stem. */
  function UrlNameIn(clean: string): string -> bool
  {
    (f: string) => Contains(f, clean) || (Contains(Stem(f), Stem(clean)) && Suffix(f) == Suffix(clean))
  }

  /** The sanitised, unquoted file name of a web link's URL, or `None`
      when there is none or the URL cannot be parsed. */
  function UrlName(href: string): (r: Option<string>)
    requires IsWebLink(href)
  {
    match UrlPath(href)
    case None => None
    case Some(path) =>
      var name := UrlFileName(path);
      if name == [] then None else Some(Utils.SanitizeFilename(Unquote(name)))
  }

  /** The attachment a link is redirected to, if any. */
  function LinkTarget(a: Anchor, files: seq<string>): (r: Option<string>)
  {
    if "href" !in a.attrs || !IsWebLink(a.attrs["href"]) then None
    else
      var byName := if DataName(a) != [] then FirstWhere(files, NamedIn(DataName(a))) else None;
      if byName.Some? then byName
      else
        match UrlName(a.attrs["href"])
        case None => None
        case Some(clean) => FirstWhere(files, UrlNameIn(clean))
  }

  /** Only absolute web links are ever redirected, and always to one of
      the attachments. */
  lemma TargetIsWebLinkAttachment(a: Anchor, files: seq<string>)
    ensures LinkTarget(a, files).Some? ==>
              "href" in a.attrs && IsWebLink(a.attrs["href"]) && LinkTarget(a, files).value in files
  {
  }

  /** A data name that names an attachment decides the target, whatever
      the URL says. */
  lemma DataNameFirst(a: Anchor, files: seq<string>, k: nat)
    requires "href" in a.attrs && IsWebLink(a.attrs["href"]) && DataName(a) != []
    requires k < |files| && NamedIn(DataName(a))(files[k])
    ensures LinkTarget(a, files).Some?
    ensures LinkTarget(a, files) == Some(files[FirstWhereAt(files, NamedIn(DataName(a)))])
    ensures FirstWhereAt(files, NamedIn(DataName(a))) <= k
  {
  }

  /** The attributes of a redirected link: `href` is the attachment,
      `target` is `_self`, and `rel` is gone. */
  function Redirected(attrs: map<string, string>, name: string): (r: map<string, string>)
    ensures r.Keys == attrs.Keys + {"href", "target"} - {"rel"}
    ensures r["href"] == name && r["target"] == "_self"
    ensures forall key | key in attrs && key !in {"href", "target", "rel"} :: r[key] == attrs[key]
  {
    attrs["href" := name]["target" := "_self"] - {"rel"}
  }

  /** The link after the loop has looked at it, given its target. */
  function FixAnchor(a: Anchor, target: Option<string>): Anchor
  {
    match target
    case Some(name) => a.(attrs := Redirected(a.attrs, name))
    case None => a
  }

  /** The target of each link for a page with attachments `files`. */
  function Targets(files: seq<string>): Anchor -> Option<string>
  {
    (a: Anchor) => LinkTarget(a, files)
  }

  /** The links of a page after the loop, and how many were redirected. */
  datatype Fixes = Fixes(anchors: seq<Anchor>, count: nat)

  function FixedAnchors(anchors: seq<Anchor>, targetOf: Anchor -> Option<string>): (r: Fixes)
    ensures |r.anchors| == |anchors| && r.count <= |anchors|
    ensures forall k | 0 <= k < |anchors| :: r.anchors[k] == FixAnchor(anchors[k], targetOf(anchors[k]))
    ensures r.count == 0 <==> forall k | 0 <= k < |anchors| :: targetOf(anchors[k]).None?
  {
    if anchors == [] then Fixes([], 0)
    else
      var n := |anchors| - 1;
      var init := FixedAnchors(anchors[..n], targetOf);
      assert forall k | 0 <= k < n :: anchors[..n][k] == anchors[k];
      var target := targetOf(anchors[n]);
      Fixes(init.anchors + [FixAnchor(anchors[n], target)], init.count + if target.Some? then 1 else 0)
  }

  lemma FixedSnoc(anchors: seq<Anchor>, a: Anchor, targetOf: Anchor -> Option<string>)
    ensures var init := FixedAnchors(anchors, targetOf);
      FixedAnchors(anchors + [a], targetOf)
      == Fixes(init.anchors + [FixAnchor(a, targetOf(a))], init.count + if targetOf(a).Some? then 1 else 0)
  {
    assert (anchors + [a])[..|anchors|] == anchors;
  }

  lemma SnocSlice<T>(s: seq<T>, k: nat)
    requires k < |s|
    ensures s[..k + 1] == s[..k] + [s[k]]
  {
  }

  lemma WholeSlice<T>(s: seq<T>)
    ensures s[..|s|] == s
  {
  }

  /** Links that are not absolute web links come out untouched. */
  lemma LocalLinksKept(anchors: seq<Anchor>, files: seq<string>, k: nat)
    requires k < |anchors| && !("href" in anchors[k].attrs && IsWebLink(anchors[k].attrs["href"]))
    ensures FixedAnchors(anchors, Targets(files)).anchors[k] == anchors[k]
  {
  }

  /** A page without attachments has nothing redirected. */
  lemma NoAttachmentsNoFixes(anchors: seq<Anchor>)
    ensures FixedAnchors(anchors, Targets([])) == Fixes(anchors, 0)
  {
    var r := FixedAnchors(anchors, Targets([]));
    forall k | 0 <= k < |anchors| ensures LinkTarget(anchors[k], []).None? {
    }
    assert r.anchors == anchors;
  }

  // ---------------------------------------------------------------------
  // One page and all pages
  // ---------------------------------------------------------------------

  /** The parsed page, whose links the loop edits in place. */
  class Soup {
    var anchors: seq<Anchor>

    constructor (anchors: seq<Anchor>)
      ensures this.anchors == anchors
    {
      this.anchors := anchors;
    }

    /** The search for one link's attachment, data name first. */
    static method FindTarget(a: Anchor, files: seq<string>) returns (target: Option<string>)
      ensures target == LinkTarget(a, files)
    {
      if "href" !in a.attrs || !IsWebLink(a.attrs["href"]) {
        return None;
      }
      target := None;
      var dataName := DataName(a);
      if dataName != [] {
        target := FindFirst(files, NamedIn(dataName));
      }
      if target.None? {
        var clean := UrlName(a.attrs["href"]);
        if clean.Some? {
          target := FindFirst(files, UrlNameIn(clean.value));
        }
      }
    }

    /** The loop over the links of the page; the answer is how many were
        redirected (the page is modified when it is not zero). */
    method FixLinks(files: seq<string>) returns (fixed: nat)
      modifies this
      ensures Fixes(anchors, fixed) == FixedAnchors(old(anchors), Targets(files))
    {
      ghost var before := anchors;
      fixed := 0;
      for k := 0 to |anchors|
        invariant |anchors| == |before| && forall j | k <= j < |anchors| :: anchors[j] == before[j]
        invariant Fixes(anchors[..k], fixed) == FixedAnchors(before[..k], Targets(files))
      {
        var a := anchors[k];
        var target := FindTarget(a, files);
        FixedSnoc(before[..k], a, Targets(files));
        assert a == before[k];
        SnocSlice(before, k);
        ghost var prefix := anchors[..k];
        if target.Some? {
          anchors := anchors[k := a.(attrs := Redirected(a.attrs, target.value))];
          fixed := fixed + 1;
        }
        SnocSlice(anchors, k);
      }
      WholeSlice(anchors);
      WholeSlice(before);
    }
  }

  /** An HTML file found by `rglob("*.html")`: the listing of its folder,
      and its parsed content (`None` when it cannot be read). */
  datatype HtmlFile = HtmlFile(siblings: seq<Node>, soup: Option<Soup>)

  function Soups(pages: seq<HtmlFile>): set<Soup>
  {
    set k | 0 <= k < |pages| && pages[k].soup.Some? :: pages[k].soup.value
  }

  /** No two files share a parsed page. */
  predicate DistinctSoups(pages: seq<HtmlFile>)
  {
    forall i, j | 0 <= i < j < |pages| && pages[i].soup.Some? && pages[j].soup.Some? ::
      pages[i].soup.value != pages[j].soup.value
  }

  /** Whether a page is worked on: it has attachments and could be read. */
  predicate Processed(page: HtmlFile)
  {
    Attachments(page.siblings) != [] && page.soup.Some?
  }

  /** The links of every page, `[]` for pages that could not be read. */
  function AnchorsOf(pages: seq<HtmlFile>): (r: seq<seq<Anchor>>)
    reads Soups(pages)
    ensures |r| == |pages|
    ensures forall k | 0 <= k < |pages| && pages[k].soup.Some? :: r[k] == pages[k].soup.value.anchors
  {
    if pages == [] then []
    else
      var n := |pages| - 1;
      assert Soups(pages[..n]) <= Soups(pages) by {
        forall s | s in Soups(pages[..n]) ensures s in Soups(pages) {
          var k :| 0 <= k < n && pages[..n][k].soup.Some? && pages[..n][k].soup.value == s;
          assert pages[k] == pages[..n][k];
        }
      }
      var init := AnchorsOf(pages[..n]);
      assert forall k | 0 <= k < n :: pages[..n][k] == pages[k];
      init + [if pages[n].soup.Some? then pages[n].soup.value.anchors else []]
  }

  /** What the loop does to one page with links `anchors`: nothing unless
      it has attachments and could be read. */
  function PageFixes(page: HtmlFile, anchors: seq<Anchor>): Fixes
  {
    if Processed(page) then FixedAnchors(anchors, Targets(Attachments(page.siblings))) else Fixes(anchors, 0)
  }

  /** What the loop does to each page, given the links each had before. */
  function PagesFixed(pages: seq<HtmlFile>, anchors: seq<seq<Anchor>>): (r: seq<Fixes>)
    requires |anchors| == |pages|
    ensures |r| == |pages|
  {
    seq(|pages|, k requires 0 <= k < |pages| => PageFixes(pages[k], anchors[k]))
  }

  /** The links fixed over all pages. */
  function TotalFixed(rs: seq<Fixes>): nat
  {
    if rs == [] then 0 else TotalFixed(rs[..|rs| - 1]) + rs[|rs| - 1].count
  }

  /** The indices of the pages written back, in order. */
  function WrittenPages(rs: seq<Fixes>): seq<int>
  {
    if rs == [] then []
    else
      var n := |rs| - 1;
      WrittenPages(rs[..n]) + if rs[n].count > 0 then [n] else []
  }

  /** A page is written back exactly when at least one of its links was
      fixed, and pages are written back in order. */
  lemma {:induction false} WrittenPagesIff(rs: seq<Fixes>)
    ensures forall k :: k in WrittenPages(rs) <==> 0 <= k < |rs| && rs[k].count > 0
    ensures forall j, l | 0 <= j < l < |WrittenPages(rs)| :: WrittenPages(rs)[j] < WrittenPages(rs)[l]
  {
    if rs != [] {
      var n := |rs| - 1;
      WrittenPagesIff(rs[..n]);
      assert forall k | 0 <= k < n :: rs[..n][k] == rs[k];
      var w := WrittenPages(rs[..n]);
      assert forall j | 0 <= j < |w| :: w[j] in w && w[j] < n;
    }
  }

  /** Nothing is counted on pages with nothing written. */
  lemma {:induction false} NothingWrittenNothingFixed(rs: seq<Fixes>)
    requires WrittenPages(rs) == []
    ensures TotalFixed(rs) == 0
  {
    if rs != [] {
      var n := |rs| - 1;
      assert WrittenPages(rs[..n]) == [] && rs[n].count == 0;
      NothingWrittenNothingFixed(rs[..n]);
    }
  }

  /** One iteration of `fix_attachment_links` on a page that could be read:
      its links are fixed when it has attachments, and it is skipped
      otherwise. */
  method FixPage(siblings: seq<Node>, soup: Soup) returns (fixed: nat)
    modifies soup
    ensures Fixes(soup.anchors, fixed) == PageFixes(HtmlFile(siblings, Some(soup)), old(soup.anchors))
  {
    fixed := 0;
    if Attachments(siblings) != [] {
      fixed := soup.FixLinks(Attachments(siblings));
    }
  }

  /** What one more page adds to the pages written and the links fixed. */
  lemma PrefixStep(rs: seq<Fixes>, i: nat)
    requires i < |rs|
    ensures WrittenPages(rs[..i + 1]) == WrittenPages(rs[..i]) + if rs[i].count > 0 then [i] else []
    ensures TotalFixed(rs[..i + 1]) == TotalFixed(rs[..i]) + rs[i].count
  {
    assert rs[..i + 1][..i] == rs[..i];
  }

  /** One page of the loop: its own links are fixed, as `PageFixes`
      says, and no other page's links change. */
  method PageTurn(pages: seq<HtmlFile>, i: nat, ghost anchors: seq<Anchor>) returns (fixed: nat)
    requires i < |pages| && DistinctSoups(pages)
    requires pages[i].soup.Some? ==> pages[i].soup.value.anchors == anchors
    modifies Soups(pages)
    ensures fixed == PageFixes(pages[i], anchors).count
    ensures pages[i].soup.Some? ==> pages[i].soup.value.anchors == PageFixes(pages[i], anchors).anchors
    ensures forall k | 0 <= k < |pages| && k != i && pages[k].soup.Some? ::
              pages[k].soup.value.anchors == old(pages[k].soup.value.anchors)
  {
    fixed := 0;
    if pages[i].soup.Some? {
      assert forall k | 0 <= k < |pages| && k != i && pages[k].soup.Some? :: pages[k].soup.value != pages[i].soup.value;
      fixed := FixPage(pages[i].siblings, pages[i].soup.value);
    }
  }

  /** `fix_attachment_links`: every readable page ends up as the loop over
      its links leaves it, the files written back are exactly the pages
      with at least one link fixed, and `linksFixed` counts the links
      fixed over all pages. */
  method FixAttachmentLinks(pages: seq<HtmlFile>) returns (linksFixed: nat, written: seq<int>)
    requires DistinctSoups(pages)
    modifies Soups(pages)
    ensures forall k | 0 <= k < |pages| && pages[k].soup.Some? ::
              pages[k].soup.value.anchors == PagesFixed(pages, old(AnchorsOf(pages)))[k].anchors
    ensures written == WrittenPages(PagesFixed(pages, old(AnchorsOf(pages))))
    ensures linksFixed == TotalFixed(PagesFixed(pages, old(AnchorsOf(pages))))
  {
    ghost var before := AnchorsOf(pages);
    ghost var rs := PagesFixed(pages, before);
    linksFixed, written := 0, [];
    for i := 0 to |pages|
      invariant forall k | 0 <= k < i && pages[k].soup.Some? :: pages[k].soup.value.anchors == rs[k].anchors
      invariant forall k | i <= k < |pages| && pages[k].soup.Some? :: pages[k].soup.value.anchors == before[k]
      invariant written == WrittenPages(rs[..i])
      invariant linksFixed == TotalFixed(rs[..i])
    {
      var fixed := PageTurn(pages, i, before[i]);
      PrefixStep(rs, i);
      if fixed > 0 {
        written := written + [i];
      }
      linksFixed := linksFixed + fixed;
    }
    assert rs[..|pages|] == rs;
  }
}
