/** The name normalisers of coursera/utils.py: `sanitize_filename`, which
    turns any title or URL segment into `[a-z0-9_]` words with at most one
    short alphanumeric extension, and `extract_slug`, which picks the
    identifying segment of an item URL. */
module Utils {
  import opened Base

  // ---------------------------------------------------------------------
  // Shape of a sanitised name
  // ---------------------------------------------------------------------

  predicate IsNameChar(c: char) { IsLowerAlnum(c) || c == '_' }

  predicate NameChars(s: string) { forall i :: 0 <= i < |s| ==> IsNameChar(s[i]) }

  /** No two adjacent underscores. */
  predicate NoDoubleUnderscore(s: string)
  {
    forall i :: 0 <= i < |s| - 1 ==> !(s[i] == '_' && s[i + 1] == '_')
  }

  /** A cleaned name part: non-empty, `[a-z0-9_]` only, no `__`, and no
      underscore at either end. */
  predicate CleanName(s: string)
  {
    |s| > 0 && NameChars(s) && NoDoubleUnderscore(s) && s[0] != '_' && s[|s| - 1] != '_'
  }

  /** A kept extension: one to five characters of `[a-z0-9]`. */
  predicate CleanExt(e: string) { 1 <= |e| <= 5 && AllLowerAlnum(e) }

  /** What `sanitize_filename` can return: a clean name, optionally followed
      by one dot and a clean extension. */
  predicate IsSanitized(r: string)
  {
    var k := LastIndex(r, '.');
    if k < 0 then CleanName(r) else CleanName(r[..k]) && CleanExt(r[k + 1..])
  }

  // ---------------------------------------------------------------------
  // The three regular-expression steps, one function each
  // ---------------------------------------------------------------------

  /** Drop the leading characters outside `[a-z0-9]`. */
  function SkipNonAlnum(s: string): (r: string)
    ensures |r| <= |s| && EndsWith(s, r)
    ensures r != [] ==> IsLowerAlnum(r[0])
  {
    if s != [] && !IsLowerAlnum(s[0]) then SkipNonAlnum(s[1..]) else s
  }

  /** `re.sub(r"[^a-z0-9]+", "_", s)`: every maximal run of characters
      outside `[a-z0-9]` becomes one underscore. */
  function SubNonAlnumRuns(s: string): (r: string)
    ensures NameChars(r) && NoDoubleUnderscore(r)
    ensures s != [] && IsLowerAlnum(s[0]) ==> r != [] && r[0] == s[0]
    ensures s == [] <==> r == []
    decreases |s|
  {
    if s == [] then []
    else if IsLowerAlnum(s[0]) then [s[0]] + SubNonAlnumRuns(s[1..])
    else ['_'] + SubNonAlnumRuns(SkipNonAlnum(s[1..]))
  }

  /** Drop leading underscores. */
  function SkipUnderscores(s: string): (r: string)
    ensures |r| <= |s|
    ensures r != [] ==> r[0] != '_'
  {
    if s != [] && s[0] == '_' then SkipUnderscores(s[1..]) else s
  }

  /** `re.sub(r"_+", "_", s)`. */
  function CollapseUnderscores(s: string): (r: string)
    decreases |s|
  {
    if s == [] then []
    else if s[0] != '_' then [s[0]] + CollapseUnderscores(s[1..])
    else ['_'] + CollapseUnderscores(SkipUnderscores(s[1..]))
  }

  /** The collapse step never changes what the run substitution produced. */
  lemma {:induction false} CollapseNoDouble(s: string)
    requires NoDoubleUnderscore(s)
    ensures CollapseUnderscores(s) == s
    decreases |s|
  {
    if s != [] {
      assert NoDoubleUnderscore(s[1..]);
      if s[0] == '_' && |s| > 1 {
        assert s[1] != '_';
      }
      CollapseNoDouble(s[1..]);
      assert s == [s[0]] + s[1..];
    }
  }

  function StripLeadingUnderscores(s: string): (r: string)
    ensures NameChars(s) ==> NameChars(r)
    ensures NoDoubleUnderscore(s) ==> NoDoubleUnderscore(r)
    ensures r != [] ==> r[0] != '_'
    ensures |r| <= |s|
  {
    if s != [] && s[0] == '_' then StripLeadingUnderscores(s[1..]) else s
  }

  function StripTrailingUnderscores(s: string): (r: string)
    ensures NameChars(s) ==> NameChars(r)
    ensures NoDoubleUnderscore(s) ==> NoDoubleUnderscore(r)
    ensures r != [] ==> r[|r| - 1] != '_'
    ensures r != [] && s != [] ==> r[0] == s[0]
  {
    if s != [] && s[|s| - 1] == '_' then StripTrailingUnderscores(s[..|s| - 1]) else s
  }

  /** `s.strip("_")`. */
  function StripUnderscores(s: string): (r: string)
    ensures NameChars(s) && NoDoubleUnderscore(s) ==> r == [] || CleanName(r)
  {
    StripTrailingUnderscores(StripLeadingUnderscores(s))
  }

  /** `re.sub(r"[^a-z0-9]+", "", s)`: keep only `[a-z0-9]`. */
  function KeepAlnum(s: string): (r: string)
    ensures AllLowerAlnum(r) && |r| <= |s|
  {
    if s == [] then []
    else if IsLowerAlnum(s[0]) then [s[0]] + KeepAlnum(s[1..])
    else KeepAlnum(s[1..])
  }

  /** A character that `lower()` turns into one of `[a-z0-9]`. */
  predicate IsAsciiAlnum(c: char) { IsAlpha(c) || IsDigit(c) }

  predicate AllAsciiAlnum(t: string) { forall i :: 0 <= i < |t| ==> IsAsciiAlnum(t[i]) }

  /** `re.match(r"^[a-z0-9]+$", ext.lower())`, stated on `ext` itself:
      one or more letters or digits, where `$` also matches just before a
      final newline. */
  predicate MatchesAlnumLine(t: string)
  {
    (|t| >= 1 && AllAsciiAlnum(t))
    || (|t| >= 2 && t[|t| - 1] == '\n' && AllAsciiAlnum(t[..|t| - 1]))
  }

  /** The test that keeps the text after the last dot as an extension. */
  predicate ExtensionAccepted(ext: string)
  {
    |ext| <= 5 && MatchesAlnumLine(ext)
  }

  /** The cleaning pipeline applied to the name part. */
  function CleanNamePart(name: string): (r: string)
    ensures CleanName(r)
  {
    var n := StripUnderscores(CollapseUnderscores(SubNonAlnumRuns(Lower(name))));
    CollapseNoDouble(SubNonAlnumRuns(Lower(name)));
    if n == [] then "untitled" else n
  }

  /** Index of the dot that separates a kept extension, or -1 when the text
      after the last dot is missing or rejected. */
  function ExtensionDot(filename: string): (k: int)
    ensures -1 <= k < |filename|
    ensures k >= 0 ==> k == LastIndex(filename, '.') && ExtensionAccepted(filename[k + 1..])
    ensures k < 0 ==> LastIndex(filename, '.') < 0 || !ExtensionAccepted(filename[LastIndex(filename, '.') + 1..])
  {
    var k := LastIndex(filename, '.');
    if k >= 0 && ExtensionAccepted(filename[k + 1..]) then k else -1
  }

  /** The cleaning applied to a kept extension. */
  function CleanExtPart(ext: string): (r: string)
    ensures AllLowerAlnum(r)
  {
    KeepAlnum(Lower(ext))
  }

  /** `sanitize_filename`. */
  function SanitizeFilename(filename: string): (r: string)
    ensures filename == [] ==> r == "untitled"
    ensures |r| > 0
  {
    if filename == [] then "untitled"
    else
      var k := ExtensionDot(filename);
      if k >= 0 then CleanNamePart(filename[..k]) + ['.'] + CleanExtPart(filename[k + 1..])
      else CleanNamePart(filename)
  }

  // ---------------------------------------------------------------------
  // Properties of sanitize_filename
  // ---------------------------------------------------------------------

  lemma CleanNameHasNoDot(s: string)
    requires CleanName(s)
    ensures '.' !in s && LastIndex(s, '.') == -1
  {
    assert forall i :: 0 <= i < |s| ==> IsNameChar(s[i]);
    LastIndexNone(s, '.');
  }

  lemma {:induction false} KeepAlnumOfAccepted(ext: string)
    requires ExtensionAccepted(ext)
    ensures CleanExt(CleanExtPart(ext))
  {
    var t := Lower(ext);
    if |ext| >= 1 && AllAsciiAlnum(ext) {
      assert AllLowerAlnum(t);
      KeepAlnumFixed(t);
    } else {
      var u := t[..|t| - 1];
      assert t == u + ['\n'];
      assert AllLowerAlnum(u) by {
        assert forall i :: 0 <= i < |u| ==> u[i] == LowerChar(ext[..|ext| - 1][i]);
      }
      KeepAlnumFixed(u);
      KeepAlnumAppend(u, ['\n']);
    }
  }

  lemma {:induction false} KeepAlnumFixed(t: string)
    requires AllLowerAlnum(t)
    ensures KeepAlnum(t) == t
  {
    if t != [] {
      assert AllLowerAlnum(t[1..]);
      KeepAlnumFixed(t[1..]);
    }
  }

  lemma {:induction false} KeepAlnumAppend(a: string, b: string)
    ensures KeepAlnum(a + b) == KeepAlnum(a) + KeepAlnum(b)
  {
    if a != [] {
      assert (a + b)[1..] == a[1..] + b;
      KeepAlnumAppend(a[1..], b);
    } else {
      assert a + b == b;
    }
  }

  lemma AllLowerAlnumNoDot(e: string)
    requires AllLowerAlnum(e)
    ensures '.' !in e
  {
    assert forall i :: 0 <= i < |e| ==> IsLowerAlnum(e[i]);
  }

  /** The result when an extension is kept: the cleaned name, one dot and
      the cleaned extension, which is the last dot of the result. */
  lemma SanitizeKeepingExtension(filename: string)
    requires ExtensionDot(filename) >= 0
    ensures var k := ExtensionDot(filename);
            var n := CleanNamePart(filename[..k]);
            var e := CleanExtPart(filename[k + 1..]);
            var r := SanitizeFilename(filename);
            r == n + ['.'] + e && CleanExt(e) && LastIndex(r, '.') == |n|
            && EndsWith(r, ['.'] + e)
  {
    var k := ExtensionDot(filename);
    var n := CleanNamePart(filename[..k]);
    var e := CleanExtPart(filename[k + 1..]);
    KeepAlnumOfAccepted(filename[k + 1..]);
    AllLowerAlnumNoDot(e);
    DotJoined(n, e);
  }

  /** In `n.e` with no dot in `e`, the joining dot is the last one. */
  lemma DotJoined(n: string, e: string)
    requires '.' !in e
    ensures LastIndex(n + ['.'] + e, '.') == |n| && EndsWith(n + ['.'] + e, ['.'] + e)
  {
    LastIndexAt(n, '.', e);
    EndsWithTail(n, ['.'], e);
  }

  /** Every result has the sanitised shape: `[a-z0-9_]` words with no `__`,
      no leading or trailing underscore, and at most one dot followed by a
      one-to-five character `[a-z0-9]` extension. */
  lemma SanitizedShape(filename: string)
    ensures IsSanitized(SanitizeFilename(filename))
  {
    if filename != [] && ExtensionDot(filename) >= 0 {
      ShapeWithExtension(filename);
    } else {
      CleanNameHasNoDot(SanitizeFilename(filename));
    }
  }

  lemma ShapeWithExtension(filename: string)
    requires filename != [] && ExtensionDot(filename) >= 0
    ensures IsSanitized(SanitizeFilename(filename))
  {
    var r := SanitizeFilename(filename);
    SanitizeKeepingExtension(filename);
    var n := CleanNamePart(filename[..ExtensionDot(filename)]);
    assert r[..|n|] == n;
    assert r[|n| + 1..] == CleanExtPart(filename[ExtensionDot(filename) + 1..]);
  }

  lemma ExtensionDotIff(filename: string)
    ensures var k := LastIndex(filename, '.');
            ExtensionDot(filename) >= 0 <==> k >= 0 && ExtensionAccepted(filename[k + 1..])
  {
  }

  lemma DotInSanitized(filename: string)
    ensures '.' in SanitizeFilename(filename) <==> ExtensionDot(filename) >= 0
  {
    var r := SanitizeFilename(filename);
    if ExtensionDot(filename) >= 0 {
      SanitizeKeepingExtension(filename);
      var n := CleanNamePart(filename[..ExtensionDot(filename)]);
      assert r[|n|] == '.';
    } else if filename == [] {
      UntitledHasNoDot();
    } else {
      assert r == CleanNamePart(filename);
      CleanNameHasNoDot(r);
    }
  }

  lemma UntitledHasNoDot()
    ensures '.' !in "untitled"
  {
    var u := "untitled";
    assert forall i | 0 <= i < |u| :: u[i] != '.';
  }

  /** The extension rule: the result carries an extension exactly when the
      input has a dot and the text after its last dot is at most five
      characters that, lower-cased, are `[a-z0-9]` (optionally followed by
      a newline); the kept extension is that text lower-cased and stripped
      to `[a-z0-9]`. */
  lemma ExtensionKeptIff(filename: string)
    ensures var k := LastIndex(filename, '.');
            var kept := k >= 0 && ExtensionAccepted(filename[k + 1..]);
            ('.' in SanitizeFilename(filename) <==> kept)
            && (kept ==> EndsWith(SanitizeFilename(filename), ['.'] + CleanExtPart(filename[k + 1..])))
  {
    ExtensionDotIff(filename);
    DotInSanitized(filename);
    if ExtensionDot(filename) >= 0 {
      SanitizeKeepingExtension(filename);
    }
  }

  lemma {:induction false} SubNonAlnumRunsFixed(s: string)
    requires NameChars(s) && NoDoubleUnderscore(s)
    requires s != [] ==> s[0] != '_'
    ensures SubNonAlnumRuns(s) == s
    decreases |s|
  {
    if s != [] {
      AlnumHead(s);
      var t := s[1..];
      if t != [] && t[0] == '_' {
        UnderscoreHead(t);
        SubNonAlnumRunsFixed(t[1..]);
        assert t == ['_'] + t[1..];
      } else {
        SubNonAlnumRunsFixed(t);
      }
      assert s == [s[0]] + t;
    }
  }

  /** A name starting with a letter or digit keeps it and goes on. */
  lemma AlnumHead(s: string)
    requires NameChars(s) && NoDoubleUnderscore(s) && s != [] && s[0] != '_'
    ensures SubNonAlnumRuns(s) == [s[0]] + SubNonAlnumRuns(s[1..])
    ensures NameChars(s[1..]) && NoDoubleUnderscore(s[1..])
  {
  }

  /** A single underscore is a run of its own: it stays, and the rest
      starts with a letter or digit. */
  lemma UnderscoreHead(t: string)
    requires NameChars(t) && NoDoubleUnderscore(t) && t != [] && t[0] == '_'
    ensures SubNonAlnumRuns(t) == ['_'] + SubNonAlnumRuns(t[1..])
    ensures NameChars(t[1..]) && NoDoubleUnderscore(t[1..]) && (t[1..] != [] ==> t[1..][0] != '_')
  {
    if t[1..] != [] {
      assert t[1] != '_';
    }
    assert SkipNonAlnum(t[1..]) == t[1..];
  }

  lemma {:induction false} LowerOfNameChars(s: string)
    requires NameChars(s)
    ensures Lower(s) == s
  {
    assert forall i :: 0 <= i < |s| ==> LowerChar(s[i]) == s[i];
  }

  lemma CleanNamePartFixed(n: string)
    requires CleanName(n)
    ensures CleanNamePart(n) == n
  {
    LowerOfNameChars(n);
    SubNonAlnumRunsFixed(n);
    CollapseNoDouble(n);
  }

  /** Sanitising is idempotent: any sanitised name is a fixed point, so
      sanitising twice gives the same name as sanitising once. */
  lemma SanitizeIdempotent(filename: string)
    ensures SanitizeFilename(SanitizeFilename(filename)) == SanitizeFilename(filename)
  {
    SanitizedShape(filename);
    SanitizedFixed(SanitizeFilename(filename));
  }

  lemma SanitizedFixed(r: string)
    requires IsSanitized(r)
    ensures SanitizeFilename(r) == r
  {
    var k := LastIndex(r, '.');
    if k < 0 {
      CleanNamePartFixed(r);
    } else {
      var e := r[k + 1..];
      LowerOfNameChars(e);
      assert ExtensionAccepted(e);
      KeepAlnumFixed(e);
      CleanNamePartFixed(r[..k]);
      Around(r, k);
    }
  }

  /** A string is what lies before index `k`, the character there, and
      what follows. */
  lemma Around(s: string, k: nat)
    requires k < |s|
    ensures s == s[..k] + [s[k]] + s[k + 1..]
  {
  }

  // ---------------------------------------------------------------------
  // extract_slug
  // ---------------------------------------------------------------------

  /** Last path segments that name a sub-page rather than the item itself. */
  predicate IsSubPage(segment: string)
  {
    Lower(segment) in {"attempt", "submission", "view", "instructions", "gradedlab", "ungradedlab"}
  }

  /** The non-empty `/`-separated segments of a URL with its query removed. */
  function UrlSegments(url: string): seq<string>
  {
    NonEmpty(Split(BeforeFirst(url, '?'), '/'))
  }

  /** The segment `extract_slug` keeps: the last one, or the one before it
      when the last names a sub-page. */
  function SlugSegment(parts: seq<string>): (r: string)
    requires parts != []
    ensures r in parts
  {
    if IsSubPage(Last(parts)) && |parts| >= 2 then parts[|parts| - 2] else Last(parts)
  }

  /** `extract_slug`: empty exactly when the URL has no segment, otherwise a
      sanitised name. */
  function ExtractSlug(itemUrl: string): (r: string)
    ensures r == [] <==> itemUrl == [] || UrlSegments(itemUrl) == []
    ensures r != [] ==> IsSanitized(r)
  {
    if itemUrl == [] then []
    else
      var parts := UrlSegments(itemUrl);
      if parts == [] then []
      else
        SanitizedShape(SlugSegment(parts));
        SanitizeFilename(SlugSegment(parts))
  }

  /** Segments of a query-free URL joined by a slash. */
  lemma UrlSegmentsJoin(a: string, b: string)
    requires '?' !in a + "/" + b
    ensures UrlSegments(a + "/" + b) == UrlSegments(a) + UrlSegments(b)
  {
    NoQueryParts(a, b);
    SplitConcat(a, '/', b);
    NonEmptyConcat(Split(a, '/'), Split(b, '/'));
  }

  /** A single non-empty segment without slash or query. */
  lemma UrlSegmentsSingle(s: string)
    requires s != [] && '?' !in s && '/' !in s
    ensures UrlSegments(s) == [s]
  {
    SplitNone(s, '/');
  }

  /** The query string never influences the slug. */
  lemma SlugIgnoresQuery(base: string, query: string)
    requires '?' !in base && base != []
    ensures ExtractSlug(base + "?" + query) == ExtractSlug(base)
  {
    var u := base + "?" + query;
    FirstIndexAt(base, '?', query);
    assert u[..|base|] == base;
    assert BeforeFirst(u, '?') == base;
    assert UrlSegments(u) == UrlSegments(base);
  }

  /** An item URL ending in an ordinary segment yields that segment. */
  lemma SlugOfLastSegment(prefix: string, item: string)
    requires '?' !in prefix + "/" + item
    requires item != [] && '/' !in item && !IsSubPage(item)
    ensures ExtractSlug(prefix + "/" + item) == SanitizeFilename(item)
  {
    var u := prefix + "/" + item;
    UrlSegmentsJoin(prefix, item);
    NoQueryParts(prefix, item);
    UrlSegmentsSingle(item);
    var parts := UrlSegments(u);
    assert parts == UrlSegments(prefix) + [item];
    assert Last(parts) == item;
    assert SlugSegment(parts) == item;
  }

  lemma NoQueryParts(a: string, b: string)
    requires '?' !in a + "/" + b
    ensures '?' !in a && '?' !in b
  {
    assert forall i :: 0 <= i < |a| ==> (a + "/" + b)[i] == a[i];
    assert forall i :: 0 <= i < |b| ==> (a + "/" + b)[|a| + 1 + i] == b[i];
  }

  /** A trailing sub-page segment (`/attempt`, `/view`, ...) is skipped in
      favour of the segment before it. */
  lemma SlugSkipsSubPage(prefix: string, item: string, sub: string)
    requires '?' !in prefix && '?' !in item && '?' !in sub
    requires item != [] && '/' !in item && sub != [] && '/' !in sub && IsSubPage(sub)
    ensures ExtractSlug(prefix + "/" + item + "/" + sub) == SanitizeFilename(item)
  {
    var left := prefix + "/" + item;
    var u := left + "/" + sub;
    NoQueryJoin(prefix, item);
    NoQueryJoin(left, sub);
    UrlSegmentsJoin(left, sub);
    UrlSegmentsJoin(prefix, item);
    UrlSegmentsSingle(item);
    UrlSegmentsSingle(sub);
    var parts := UrlSegments(u);
    assert parts == UrlSegments(prefix) + [item] + [sub];
    assert Last(parts) == sub && parts[|parts| - 2] == item;
    assert SlugSegment(parts) == item;
  }

  lemma NoQueryJoin(a: string, b: string)
    requires '?' !in a && '?' !in b
    ensures '?' !in a + "/" + b
  {
  }

  /** A URL whose only segment is a sub-page word keeps that word. */
  lemma SlugOfLoneSubPage(sub: string)
    requires sub != [] && '?' !in sub && '/' !in sub && IsSubPage(sub)
    ensures ExtractSlug(sub) == SanitizeFilename(sub)
  {
    UrlSegmentsSingle(sub);
  }
}
