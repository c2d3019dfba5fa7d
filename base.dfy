/** Shared vocabulary: an Option type and the ASCII string primitives that
    the Python code gets from `str` (lower, title, strip, split, replace,
    startswith, `in`) and from `f"{n:03d}"`.  Every primitive is modelled
    for ASCII only; non-ASCII characters pass through unchanged. */
module Base {

  datatype Option<T> = None | Some(value: T)

  // ---------------------------------------------------------------------
  // Character classes (ASCII)
  // ---------------------------------------------------------------------

  predicate IsDigit(c: char) { '0' <= c <= '9' }
  predicate IsUpper(c: char) { 'A' <= c <= 'Z' }
  predicate IsLowerLetter(c: char) { 'a' <= c <= 'z' }
  predicate IsAlpha(c: char) { IsUpper(c) || IsLowerLetter(c) }
  /** Membership in the regex class `[a-z0-9]`. */
  predicate IsLowerAlnum(c: char) { IsLowerLetter(c) || IsDigit(c) }
  /** Python's `str.isspace` restricted to ASCII. */
  predicate IsSpace(c: char)
  {
    c == ' ' || c == '\t' || c == '\n' || c == '\r' || c == '\U{B}' || c == '\U{C}'
    || ('\U{1C}' <= c <= '\U{1F}')
  }

  function LowerChar(c: char): (r: char)
    ensures !IsUpper(r)
    ensures IsLowerAlnum(r) <==> IsAlpha(c) || IsDigit(c)
    ensures !IsUpper(c) ==> r == c
  {
    if IsUpper(c) then (c as int + 32) as char else c
  }

  function UpperChar(c: char): (r: char)
    ensures !IsLowerLetter(r)
    ensures !IsLowerLetter(c) ==> r == c
  {
    if IsLowerLetter(c) then (c as int - 32) as char else c
  }

  /** `str.lower()` on ASCII. */
  function Lower(s: string): (r: string)
    ensures |r| == |s|
    ensures forall i :: 0 <= i < |s| ==> r[i] == LowerChar(s[i])
  {
    if s == [] then [] else [LowerChar(s[0])] + Lower(s[1..])
  }

  lemma {:induction false} LowerIdempotent(s: string)
    ensures Lower(Lower(s)) == Lower(s)
  {
    var l := Lower(s);
    assert forall i :: 0 <= i < |l| ==> LowerChar(l[i]) == l[i];
  }

  predicate AllLowerAlnum(s: string) { forall i :: 0 <= i < |s| ==> IsLowerAlnum(s[i]) }

  /** `str.isdigit()` on ASCII: non-empty and all digits. */
  predicate IsAllDigits(s: string) { |s| > 0 && forall i :: 0 <= i < |s| ==> IsDigit(s[i]) }

  predicate HasDigit(s: string) { exists i :: 0 <= i < |s| && IsDigit(s[i]) }
  predicate HasAlpha(s: string) { exists i :: 0 <= i < |s| && IsAlpha(s[i]) }

  // ---------------------------------------------------------------------
  // Substrings
  // ---------------------------------------------------------------------

  predicate StartsWith(s: string, p: string) { |p| <= |s| && s[..|p|] == p }
  predicate EndsWith(s: string, p: string) { |p| <= |s| && s[|s| - |p|..] == p }

  lemma EndsWithTail(a: string, x: string, b: string)
    ensures EndsWith(a + x + b, x + b)
  {
    var r := a + x + b;
    assert r[|a|..] == x + b;
  }

  /** `sub` occurs in `s` starting at index `i`. */
  predicate OccursAt(s: string, sub: string, i: int)
  {
    0 <= i <= |s| - |sub| && s[i..i + |sub|] == sub
  }

  /** Python's `sub in s`. */
  predicate Contains(s: string, sub: string)
  {
    exists i | 0 <= i <= |s| - |sub| :: OccursAt(s, sub, i)
  }

  lemma ContainsPrefix(s: string, p: string)
    requires StartsWith(s, p)
    ensures Contains(s, p)
  {
    assert OccursAt(s, p, 0);
  }

  lemma ContainsInside(a: string, sub: string, b: string)
    ensures Contains(a + sub + b, sub)
  {
    var s := a + sub + b;
    assert s[|a|..|a| + |sub|] == sub;
    assert OccursAt(s, sub, |a|);
  }

  lemma ContainsInLonger(s: string, t: string, sub: string)
    requires Contains(s, sub)
    ensures Contains(s + t, sub) && Contains(t + s, sub)
  {
    var i :| 0 <= i <= |s| - |sub| && OccursAt(s, sub, i);
    assert (s + t)[i..i + |sub|] == sub;
    assert OccursAt(s + t, sub, i);
    assert (t + s)[|t| + i..|t| + i + |sub|] == sub;
    assert OccursAt(t + s, sub, |t| + i);
  }

  /** A string without `sub` neither starts with it nor has it after its
      first character. */
  lemma AbsentParts(s: string, sub: string)
    requires |s| >= 1 && !Contains(s, sub)
    ensures !StartsWith(s, sub) && !Contains(s[1..], sub)
  {
    assert |sub| <= |s| ==> !OccursAt(s, sub, 0) && s[0..|sub|] == s[..|sub|];
    var t := s[1..];
    forall i | 0 <= i <= |t| - |sub|
      ensures !OccursAt(t, sub, i)
    {
      assert !OccursAt(s, sub, i + 1);
      assert t[i..i + |sub|] == s[i + 1..i + 1 + |sub|];
    }
  }

  /** An occurrence in a suffix is an occurrence in the whole string. */
  lemma ContainsSuffix(s: string, k: nat, sub: string)
    requires k <= |s| && Contains(s[k..], sub)
    ensures Contains(s, sub)
  {
    var i :| 0 <= i <= |s[k..]| - |sub| && OccursAt(s[k..], sub, i);
    assert s[k + i..k + i + |sub|] == s[k..][i..i + |sub|];
    assert OccursAt(s, sub, k + i);
  }

  // ---------------------------------------------------------------------
  // Searching for one character
  // ---------------------------------------------------------------------

  /** Index of the first `c` in `s`, or |s| when there is none. */
  function FirstIndex(s: string, c: char): (k: nat)
    ensures k <= |s|
    ensures forall i :: 0 <= i < k ==> s[i] != c
    ensures k < |s| ==> s[k] == c
  {
    if s == [] then 0 else if s[0] == c then 0 else 1 + FirstIndex(s[1..], c)
  }

  /** `s.split(c)[0]`: the text before the first `c`. */
  function BeforeFirst(s: string, c: char): (r: string)
    ensures c !in r
    ensures StartsWith(s, r)
    ensures c !in s ==> r == s
  {
    s[..FirstIndex(s, c)]
  }

  /** Index of the last `c` in `s`, or -1 when there is none. */
  function LastIndex(s: string, c: char): (k: int)
    ensures -1 <= k < |s|
    ensures k >= 0 ==> s[k] == c
    ensures forall i :: k < i < |s| ==> s[i] != c
  {
    if s == [] then -1
    else if s[|s| - 1] == c then |s| - 1
    else LastIndex(s[..|s| - 1], c)
  }

  /** The text after the last `c` holds no `c`. */
  lemma AfterLastFree(s: string, c: char)
    ensures c !in s[LastIndex(s, c) + 1..]
  {
    var k := LastIndex(s, c);
    var t := s[k + 1..];
    forall m | 0 <= m < |t| ensures t[m] != c {
      assert t[m] == s[k + 1 + m];
    }
  }

  /** A prefix of a text without `c` has no `c`. */
  lemma PrefixFree(s: string, p: string, c: char)
    requires StartsWith(s, p) && c !in s
    ensures c !in p
  {
    assert forall m | 0 <= m < |p| :: p[m] == s[m];
  }

  lemma LastIndexNone(s: string, c: char)
    ensures LastIndex(s, c) == -1 <==> c !in s
  {
    if LastIndex(s, c) == -1 {
      assert forall i :: 0 <= i < |s| ==> s[i] != c;
    }
  }

  /** The last `c` of `a + [c] + b` is the one after `a` when `b` has none. */
  lemma {:induction false} LastIndexAt(a: string, c: char, b: string)
    requires c !in b
    ensures LastIndex(a + [c] + b, c) == |a|
    decreases |b|
  {
    var s := a + [c] + b;
    if b != [] {
      assert s[|s| - 1] == b[|b| - 1];
      assert s[..|s| - 1] == a + [c] + b[..|b| - 1];
      LastIndexAt(a, c, b[..|b| - 1]);
    }
  }

  /** The first `c` of `a + [c] + b` is the one after `a` when `a` has none. */
  lemma {:induction false} FirstIndexAt(a: string, c: char, b: string)
    requires c !in a
    ensures FirstIndex(a + [c] + b, c) == |a|
    decreases |a|
  {
    var s := a + [c] + b;
    if a != [] {
      assert s[0] == a[0];
      assert s[1..] == a[1..] + [c] + b;
      FirstIndexAt(a[1..], c, b);
    }
  }

  /** `s.split(c)` for a one-character separator. */
  function Split(s: string, c: char): (r: seq<string>)
    ensures |r| >= 1
    ensures forall i :: 0 <= i < |r| ==> c !in r[i]
  {
    if s == [] then [""]
    else
      var rest := Split(s[1..], c);
      if s[0] == c then [""] + rest else [[s[0]] + rest[0]] + rest[1..]
  }

  /** The segments of `parts` that are not empty, in order (`[p for p in parts if p]`). */
  function NonEmpty(parts: seq<string>): (r: seq<string>)
    ensures |r| <= |parts|
    ensures forall i :: 0 <= i < |r| ==> r[i] != "" && r[i] in parts
  {
    if parts == [] then []
    else if parts[0] == "" then NonEmpty(parts[1..])
    else [parts[0]] + NonEmpty(parts[1..])
  }

  /** Splitting at a separator splits the two sides independently. */
  lemma {:induction false} SplitConcat(a: string, c: char, b: string)
    ensures Split(a + [c] + b, c) == Split(a, c) + Split(b, c)
    decreases |a|
  {
    if a == [] {
      assert a + [c] + b == [c] + b;
      assert ([c] + b)[1..] == b;
    } else {
      assert (a + [c] + b)[0] == a[0];
      assert (a + [c] + b)[1..] == a[1..] + [c] + b;
      SplitConcat(a[1..], c, b);
      if a[0] != c {
        HeadMerge([a[0]], Split(a[1..], c), Split(b, c));
      }
    }
  }

  /** Extending the first part of `p + q` extends the first part of `p`. */
  lemma HeadMerge(x: string, p: seq<string>, q: seq<string>)
    requires |p| >= 1
    ensures [x + (p + q)[0]] + (p + q)[1..] == [x + p[0]] + p[1..] + q
  {
    assert (p + q)[0] == p[0];
    assert (p + q)[1..] == p[1..] + q;
  }

  /** A string without the separator is a single part. */
  lemma {:induction false} SplitNone(s: string, c: char)
    requires c !in s
    ensures Split(s, c) == [s]
  {
    if s != [] {
      SplitNone(s[1..], c);
      assert s == [s[0]] + s[1..];
    }
  }

  lemma {:induction false} NonEmptyConcat(x: seq<string>, y: seq<string>)
    ensures NonEmpty(x + y) == NonEmpty(x) + NonEmpty(y)
  {
    if x == [] {
      assert x + y == y;
    } else {
      assert (x + y)[0] == x[0];
      assert (x + y)[1..] == x[1..] + y;
      NonEmptyConcat(x[1..], y);
    }
  }

  function Last<T>(s: seq<T>): T
    requires |s| > 0
  {
    s[|s| - 1]
  }

  /** Python's `str.replace(old, new)`: left to right, non-overlapping. */
  function ReplaceAll(s: string, pat: string, rep: string): (r: string)
    requires |pat| > 0
    decreases |s|
  {
    if |s| < |pat| then s
    else if s[..|pat|] == pat then rep + ReplaceAll(s[|pat|..], pat, rep)
    else [s[0]] + ReplaceAll(s[1..], pat, rep)
  }

  lemma {:induction false} ReplaceAbsent(s: string, pat: string, rep: string)
    requires |pat| > 0 && !Contains(s, pat)
    ensures ReplaceAll(s, pat, rep) == s
    decreases |s|
  {
    if |s| >= |pat| {
      if s[..|pat|] == pat {
        assert OccursAt(s, pat, 0);
      }
      if Contains(s[1..], pat) { ContainsSuffix(s, 1, pat); }
      ReplaceAbsent(s[1..], pat, rep);
      assert s == [s[0]] + s[1..];
    }
  }

  /** The first occurrence of `pat`, after a stretch `a` in which none
      starts, is replaced and the scan resumes right after it. */
  lemma {:induction false} ReplaceFirst(a: string, pat: string, rep: string, b: string)
    requires |pat| > 0
    requires forall i | 0 <= i < |a| :: !OccursAt(a + pat + b, pat, i)
    ensures ReplaceAll(a + pat + b, pat, rep) == a + rep + ReplaceAll(b, pat, rep)
    decreases |a|
  {
    var s := a + pat + b;
    if a == [] {
      assert s == pat + b;
      assert s[..|pat|] == pat && s[|pat|..] == b;
    } else {
      assert !OccursAt(s, pat, 0);
      NoOccurrenceShift(a, pat, b);
      ReplaceFirst(a[1..], pat, rep, b);
      assert ReplaceAll(s, pat, rep) == [a[0]] + ReplaceAll(a[1..] + pat + b, pat, rep);
      assert [a[0]] + a[1..] == a;
    }
  }

  lemma NoOccurrenceShift(a: string, pat: string, b: string)
    requires a != [] && forall i | 0 <= i < |a| :: !OccursAt(a + pat + b, pat, i)
    ensures (a + pat + b)[1..] == a[1..] + pat + b
    ensures forall i | 0 <= i < |a| - 1 :: !OccursAt(a[1..] + pat + b, pat, i)
  {
    var s := a + pat + b;
    var t := a[1..] + pat + b;
    assert s[1..] == t;
    forall i | 0 <= i < |a| - 1
      ensures !OccursAt(t, pat, i)
    {
      assert !OccursAt(s, pat, i + 1);
      if i + |pat| <= |t| {
        assert t[i..i + |pat|] == s[i + 1..i + 1 + |pat|];
      }
    }
  }

  // ---------------------------------------------------------------------
  // Whitespace and character stripping
  // ---------------------------------------------------------------------

  function StripLeft(s: string): (r: string)
    ensures |r| <= |s| && EndsWith(s, r)
    ensures r != [] ==> !IsSpace(r[0])
  {
    if s != [] && IsSpace(s[0]) then StripLeft(s[1..]) else s
  }

  function StripRight(s: string): (r: string)
    ensures |r| <= |s| && StartsWith(s, r)
    ensures r != [] ==> !IsSpace(r[|r| - 1])
  {
    if s != [] && IsSpace(s[|s| - 1]) then StripRight(s[..|s| - 1]) else s
  }

  /** `str.strip()` on ASCII whitespace. */
  function Strip(s: string): (r: string)
    ensures |r| <= |s|
    ensures r != [] ==> !IsSpace(r[0]) && !IsSpace(r[|r| - 1])
  {
    StripRight(StripLeft(s))
  }

  /** No whitespace at either end. */
  predicate Stripped(s: string)
  {
    s == [] || (!IsSpace(s[0]) && !IsSpace(s[|s| - 1]))
  }

  /** A text with no whitespace at either end is its own strip. */
  lemma StripFixed(s: string)
    requires Stripped(s)
    ensures Strip(s) == s
  {
    assert StripLeft(s) == s;
    assert StripRight(s) == s;
  }

  /** Stripping twice strips nothing more. */
  lemma StripIdempotent(s: string)
    ensures Strip(Strip(s)) == Strip(s)
  {
    var r := Strip(s);
    assert StripLeft(r) == r;
    assert StripRight(r) == r;
  }

  /** Every character of `s[a..b]` is whitespace. */
  predicate SpacesIn(s: string, a: int, b: int)
    requires 0 <= a <= b <= |s|
  {
    forall m | a <= m < b :: IsSpace(s[m])
  }

  /** Where a greedy `\s*` starting at `j` stops. */
  function SkipSpace(s: string, j: nat): (k: nat)
    requires j <= |s|
    ensures j <= k <= |s| && (k < |s| ==> !IsSpace(s[k]))
    ensures SpacesIn(s, j, k)
    decreases |s| - j
  {
    if j < |s| && IsSpace(s[j]) then SkipSpace(s, j + 1) else j
  }

  /** The first index at or after `j` where `sub` occurs, or `|s|` when
      there is none. */
  function Find(s: string, sub: string, j: nat): (k: nat)
    requires j <= |s|
    ensures j <= k <= |s|
    ensures k < |s| ==> OccursAt(s, sub, k)
    ensures forall m | j <= m < k :: !OccursAt(s, sub, m)
    decreases |s| - j
  {
    if j + |sub| > |s| then |s|
    else if OccursAt(s, sub, j) then j
    else Find(s, sub, j + 1)
  }

  // ---------------------------------------------------------------------
  // Numbers
  // ---------------------------------------------------------------------

  function DigitChar(d: nat): (c: char)
    requires d < 10
    ensures IsDigit(c)
  {
    ('0' as int + d) as char
  }

  /** Decimal representation of a natural number (Python `str(n)`). */
  function Decimal(n: nat): (r: string)
    ensures |r| >= 1 && IsAllDigits(r)
    ensures (n < 10 <==> |r| == 1) && (n < 100 <==> |r| <= 2) && (n < 1000 <==> |r| <= 3)
    decreases n
  {
    if n < 10 then [DigitChar(n)] else Decimal(n / 10) + [DigitChar(n % 10)]
  }

  /** `f"{n:03d}"`: zero-padded to at least three digits. */
  function Pad3(n: nat): (r: string)
    ensures IsAllDigits(r)
    ensures n < 1000 ==> |r| == 3
    ensures n >= 1000 ==> |r| >= 4
  {
    var d := Decimal(n);
    if |d| < 3 then seq(3 - |d|, _ => '0') + d else d
  }

  function DigitValue(c: char): nat
    requires IsDigit(c)
  {
    c as int - '0' as int
  }

  /** `int(s)` for a string of ASCII digits. */
  function ParseNat(s: string): nat
    requires IsAllDigits(s)
  {
    if |s| == 1 then DigitValue(s[0])
    else ParseNat(s[..|s| - 1]) * 10 + DigitValue(s[|s| - 1])
  }

  lemma {:induction false} ParseDecimal(n: nat)
    ensures ParseNat(Decimal(n)) == n
    decreases n
  {
    if n >= 10 {
      var d := Decimal(n);
      assert d[..|d| - 1] == Decimal(n / 10);
      ParseDecimal(n / 10);
    }
  }

  // ---------------------------------------------------------------------
  // str.title() and "replace('_', ' ')"
  // ---------------------------------------------------------------------

  /** `str.title()` on ASCII: a letter is upper-cased when the previous
      character is not a letter and lower-cased otherwise. */
  function TitleFrom(s: string, afterLetter: bool): (r: string)
    ensures |r| == |s|
  {
    if s == [] then []
    else
      var c := if !IsAlpha(s[0]) then s[0] else if afterLetter then LowerChar(s[0]) else UpperChar(s[0]);
      [c] + TitleFrom(s[1..], IsAlpha(s[0]))
  }

  function Title(s: string): (r: string)
    ensures |r| == |s|
  {
    TitleFrom(s, false)
  }

  /** Replace every occurrence of one character by another. */
  function MapChar(s: string, from: char, to: char): (r: string)
    ensures |r| == |s|
    ensures forall i :: 0 <= i < |s| ==> r[i] == (if s[i] == from then to else s[i])
  {
    if s == [] then [] else [if s[0] == from then to else s[0]] + MapChar(s[1..], from, to)
  }

  /** Replacing a one-character pattern is replacing that character. */
  lemma {:induction false} ReplaceCharIsMapChar(s: string, from: char, to: char)
    ensures ReplaceAll(s, [from], [to]) == MapChar(s, from, to)
    decreases |s|
  {
    if s != [] {
      ReplaceCharIsMapChar(s[1..], from, to);
      if s[0] == from {
        assert s[..1] == [from];
      } else {
        assert s[..1] != [from];
      }
    }
  }

  /** Title-casing changes letters only, and keeps them letters. */
  lemma {:induction false} TitleKeepsNonLetters(s: string, afterLetter: bool)
    ensures forall i | 0 <= i < |s| ::
              (IsAlpha(TitleFrom(s, afterLetter)[i]) <==> IsAlpha(s[i]))
              && (!IsAlpha(s[i]) ==> TitleFrom(s, afterLetter)[i] == s[i])
  {
    if s != [] {
      TitleKeepsNonLetters(s[1..], IsAlpha(s[0]));
      var r := TitleFrom(s, afterLetter);
      assert r[1..] == TitleFrom(s[1..], IsAlpha(s[0]));
      forall i | 1 <= i < |s|
        ensures (IsAlpha(r[i]) <==> IsAlpha(s[i])) && (!IsAlpha(s[i]) ==> r[i] == s[i])
      {
        assert r[i] == r[1..][i - 1] && s[i] == s[1..][i - 1];
      }
    }
  }

  /** `s.replace("_", " ").title()`: the title shown for a file stem. */
  function Titled(s: string): (r: string)
    ensures |r| == |s| && '_' !in r
    ensures forall i | 0 <= i < |s| && !IsAlpha(s[i]) :: r[i] == if s[i] == '_' then ' ' else s[i]
  {
    var spaced := MapChar(s, '_', ' ');
    TitleKeepsNonLetters(spaced, false);
    Title(spaced)
  }

  // ---------------------------------------------------------------------
  // pathlib on strings, slicing, repetition and joining
  // ---------------------------------------------------------------------

  /** `s[:n]`. */
  function Take(s: string, n: nat): (r: string)
    ensures |r| <= n && StartsWith(s, r)
    ensures |s| >= n ==> |r| == n
  {
    if |s| <= n then s else s[..n]
  }

  /** `s * n` for a count that may be negative. */
  function Repeat(s: string, n: int): (r: string)
    ensures n <= 0 ==> r == []
    ensures n > 0 ==> r == s + Repeat(s, n - 1)
    decreases n
  {
    if n <= 0 then [] else s + Repeat(s, n - 1)
  }

  /** `sep.join(parts)`. */
  function JoinWith(parts: seq<string>, sep: string): string
  {
    if parts == [] then []
    else if |parts| == 1 then parts[0]
    else parts[0] + sep + JoinWith(parts[1..], sep)
  }

  /** A character in neither the parts nor the separator is not in their
      join. */
  lemma {:induction false} JoinWithout(parts: seq<string>, sep: string, c: char)
    requires c !in sep && forall i | 0 <= i < |parts| :: c !in parts[i]
    ensures c !in JoinWith(parts, sep)
  {
    if |parts| > 1 {
      JoinWithout(parts[1..], sep, c);
    }
  }

  /** The components `PurePosixPath(s)` keeps: empty and "." segments
      disappear. */
  function PathParts(s: string): (r: seq<string>)
    ensures forall i | 0 <= i < |r| :: r[i] != [] && r[i] != "." && '/' !in r[i]
  {
    DropDots(Split(s, '/'))
  }

  function DropDots(parts: seq<string>): (r: seq<string>)
    requires forall i | 0 <= i < |parts| :: '/' !in parts[i]
    ensures forall i | 0 <= i < |r| :: r[i] != [] && r[i] != "." && '/' !in r[i]
  {
    if parts == [] then []
    else if parts[0] == [] || parts[0] == "." then DropDots(parts[1..])
    else [parts[0]] + DropDots(parts[1..])
  }

  /** `PurePosixPath(s).name`. */
  function PathName(s: string): (r: string)
    ensures '/' !in r
  {
    var parts := PathParts(s);
    if parts == [] then [] else parts[|parts| - 1]
  }

  /** `PurePath(name).suffix`: from the last dot, unless that dot is the
      first or the last character. */
  function Suffix(name: string): (r: string)
    ensures r == [] || (|r| >= 2 && r[0] == '.' && EndsWith(name, r) && '.' !in r[1..])
  {
    var i := LastIndex(name, '.');
    if 0 < i < |name| - 1 then name[i..] else []
  }

  /** The suffix of `<stem>.<e>`, `e` holding no dot, is ".<e>". */
  lemma SuffixAfterDot(stem: string, e: string)
    requires stem != [] && e != [] && '.' !in e
    ensures Suffix(stem + "." + e) == "." + e
  {
    var name := stem + "." + e;
    assert name == stem + ['.'] + e;
    LastIndexAt(stem, '.', e);
    assert name[|stem|..] == "." + e;
  }

  /** `PurePath(name).stem`: the name without its suffix. */
  function Stem(name: string): (r: string)
    ensures r + Suffix(name) == name
  {
    var i := LastIndex(name, '.');
    if 0 < i < |name| - 1 then name[..i] else name
  }

  /** A single ordinary segment is its own path. */
  lemma PathNameOfSegment(s: string)
    requires s != [] && s != "." && '/' !in s
    ensures PathParts(s) == [s] && PathName(s) == s
  {
    SplitNone(s, '/');
    assert DropDots([s]) == [s] + DropDots([]);
  }

  /** Joining relative paths with a slash concatenates their parts. */
  lemma PathPartsJoin(a: string, b: string)
    ensures PathParts(a + "/" + b) == PathParts(a) + PathParts(b)
  {
    assert a + "/" + b == a + ['/'] + b;
    SplitConcat(a, '/', b);
    DropDotsConcat(Split(a, '/'), Split(b, '/'));
  }

  lemma {:induction false} DropDotsConcat(x: seq<string>, y: seq<string>)
    requires forall i | 0 <= i < |x| :: '/' !in x[i]
    requires forall i | 0 <= i < |y| :: '/' !in y[i]
    ensures DropDots(x + y) == DropDots(x) + DropDots(y)
  {
    if x == [] {
      assert x + y == y;
    } else {
      assert (x + y)[0] == x[0];
      assert (x + y)[1..] == x[1..] + y;
      DropDotsConcat(x[1..], y);
    }
  }

  // ---------------------------------------------------------------------
  // Sets
  // ---------------------------------------------------------------------

  /** No element occurs twice. */
  predicate Distinct<T(==)>(s: seq<T>)
  {
    forall i, j | 0 <= i < j < |s| :: s[i] != s[j]
  }

  /** The position of the first occurrence of `x` in `s`. */
  function IndexOf<T(==)>(s: seq<T>, x: T): (r: nat)
    requires x in s
    ensures r < |s| && s[r] == x && x !in s[..r]
  {
    if s[0] == x then 0 else 1 + IndexOf(s[1..], x)
  }

  /** Appending leaves the first occurrences of what was there already. */
  lemma IndexOfSnoc<T>(s: seq<T>, y: T, x: T)
    requires x in s
    ensures x in s + [y] && IndexOf(s + [y], x) == IndexOf(s, x)
  {
    var i := IndexOf(s, x);
    assert (s + [y])[..i] == s[..i];
    IndexOfAt(s + [y], x, i);
  }

  /** An occurrence with no earlier one is the first. */
  lemma {:induction false} IndexOfAt<T>(s: seq<T>, x: T, i: nat)
    requires i < |s| && s[i] == x && x !in s[..i]
    ensures x in s && IndexOf(s, x) == i
  {
    if i > 0 {
      assert s[..i][0] == s[0];
      assert s[1..][..i - 1] == s[..i][1..];
      IndexOfAt(s[1..], x, i - 1);
    }
  }

  lemma CardAdd<T>(s: set<T>, x: T)
    ensures x in s ==> s + {x} == s
    ensures x !in s ==> |s + {x}| == |s| + 1
  {
    if x !in s {
      assert s + {x} - {x} == s;
    }
  }

  /** Appending keeps the first element and puts the new one last. */
  lemma SnocEnds<T>(s: seq<T>, x: T)
    requires |s| >= 1
    ensures (s + [x])[0] == s[0] && (s + [x])[|s|] == x
  {
  }

  /** `s.split(c)[0]` of `a + c + b` is `a` when `a` has no `c`. */
  lemma BeforeFirstAt(a: string, c: char, b: string)
    requires c !in a
    ensures BeforeFirst(a + [c] + b, c) == a
  {
    FirstIndexAt(a, c, b);
    assert (a + [c] + b)[..|a|] == a;
  }

  // ---------------------------------------------------------------------
  // Dictionaries from strings to strings
  // ---------------------------------------------------------------------

  /** A dict from strings to strings, as its items in insertion order. */
  type Assoc = seq<(string, string)>

  predicate HasKey(m: Assoc, k: string)
  {
    exists i | 0 <= i < |m| :: m[i].0 == k
  }

  predicate DistinctKeys(m: Assoc)
  {
    forall i, j | 0 <= i < j < |m| :: m[i].0 != m[j].0
  }

  /** `m[k] = v`: a key already present keeps its place and takes the new
      value, a new key goes last. */
  function Put(m: Assoc, k: string, v: string): (r: Assoc)
    requires DistinctKeys(m)
    ensures DistinctKeys(r) && HasKey(r, k)
    ensures |r| == if HasKey(m, k) then |m| else |m| + 1
    ensures forall i | 0 <= i < |m| :: r[i].0 == m[i].0
    ensures forall i | 0 <= i < |m| :: r[i] == if m[i].0 == k then (k, v) else m[i]
    ensures !HasKey(m, k) ==> r[|m|] == (k, v)
  {
    if HasKey(m, k) then
      var r := seq(|m|, i requires 0 <= i < |m| => if m[i].0 == k then (k, v) else m[i]);
      assert forall i | 0 <= i < |m| :: r[i].0 == m[i].0;
      r
    else
      var r := m + [(k, v)];
      assert r[|m|].0 == k;
      r
  }

  lemma KeptKey(m: Assoc, m': Assoc, key: string)
    requires HasKey(m, key) && |m| <= |m'| && forall j | 0 <= j < |m| :: m'[j].0 == m[j].0
    ensures HasKey(m', key)
  {
    var j :| 0 <= j < |m| && m[j].0 == key;
    assert m'[j].0 == key;
  }

  predicate KeysNonEmpty(m: Assoc)
  {
    forall i | 0 <= i < |m| :: m[i].0 != []
  }

  /** `m.get(k)`: the value stored under `k`, if any. */
  function Get(m: Assoc, k: string): (r: Option<string>)
    ensures r.Some? <==> HasKey(m, k)
    ensures DistinctKeys(m) ==> forall i | 0 <= i < |m| && m[i].0 == k :: r == Some(m[i].1)
  {
    if m == [] then None
    else if m[0].0 == k then Some(m[0].1)
    else
      var r := Get(m[1..], k);
      assert forall i | 1 <= i < |m| :: m[1..][i - 1] == m[i];
      r
  }

  /** After `m[k] = v`, looking up `k` gives `v` and every other key is as
      before. */
  lemma PutGet(m: Assoc, k: string, v: string, key: string)
    requires DistinctKeys(m)
    ensures Get(Put(m, k, v), key) == if key == k then Some(v) else Get(m, key)
  {
    var r := Put(m, k, v);
    if key == k {
      var i :| 0 <= i < |r| && r[i].0 == k;
      assert i < |m| ==> r[i] == (k, v);
    } else if HasKey(m, key) {
      var i :| 0 <= i < |m| && m[i].0 == key;
      assert r[i] == m[i];
    } else {
      forall i | 0 <= i < |r| ensures r[i].0 != key {
        if i < |m| { assert r[i].0 == m[i].0; }
      }
    }
  }

}
