/** Directory listings as the offline scripts read them: a tree of names in
    `iterdir` order, Python's ordering of strings and `sorted`, and the
    `^\d+_` item prefix the scripts group files by. */
module Listing {
  import opened Base

  // ---------------------------------------------------------------------
  // Directory trees
  // ---------------------------------------------------------------------

  /** A directory entry; a folder lists its entries in `iterdir` order. */
  datatype Node = File(name: string) | Folder(name: string, entries: seq<Node>)

  function NameOf(n: Node): string { n.name }

  /** `[x for x in s if p(x)]`. */
  function Filter<T>(s: seq<T>, p: T -> bool): (r: seq<T>)
    ensures |r| <= |s|
    ensures forall i | 0 <= i < |r| :: p(r[i]) && r[i] in s
    ensures forall i | 0 <= i < |s| && p(s[i]) :: s[i] in r
  {
    if s == [] then []
    else
      var rest := Filter(s[1..], p);
      assert forall i | 1 <= i < |s| :: s[i] == s[1..][i - 1];
      if p(s[0]) then [s[0]] + rest else rest
  }

  /** The sub-directories of a listing, in listing order. */
  function Folders(entries: seq<Node>): (r: seq<Node>)
    ensures forall i | 0 <= i < |r| :: r[i].Folder? && r[i] in entries
  {
    Filter(entries, (n: Node) => n.Folder?)
  }

  /** The names of the plain files of a listing, in listing order. */
  function FileNames(entries: seq<Node>): (r: seq<string>)
    ensures |r| <= |entries|
    ensures forall i | 0 <= i < |r| :: File(r[i]) in entries
  {
    var files := Filter(entries, (n: Node) => n.File?);
    seq(|files|, i requires 0 <= i < |files| => files[i].name)
  }

  /** The elements of `s` in order of first appearance, as the keys of a
      dict filled from `s`. */
  function Dedup<T(==,!new)>(s: seq<T>): (r: seq<T>)
    ensures forall x :: x in r <==> x in s
    ensures Distinct(r)
  {
    if s == [] then []
    else
      var r := Dedup(s[..|s| - 1]);
      assert s == s[..|s| - 1] + [s[|s| - 1]];
      if s[|s| - 1] in r then r else r + [s[|s| - 1]]
  }

  /** The dedupe is no longer than `s`, and keeps the order of first
      occurrences in `s`. */
  lemma {:induction false} DedupOrder<T(!new)>(s: seq<T>)
    ensures |Dedup(s)| <= |s|
    ensures forall a, b | 0 <= a < b < |Dedup(s)| ::
              Dedup(s)[a] in s && Dedup(s)[b] in s
              && IndexOf(s, Dedup(s)[a]) < IndexOf(s, Dedup(s)[b])
  {
    if s != [] {
      var init, x := s[..|s| - 1], s[|s| - 1];
      assert s == init + [x];
      DedupOrder(init);
      var f := Dedup(init);
      if x !in init {
        var g := f + [x];
        assert Dedup(s) == g;
        forall a, b | 0 <= a < b < |g|
          ensures g[a] in s && g[b] in s && IndexOf(s, g[a]) < IndexOf(s, g[b])
        {
          assert g[a] == f[a] && g[a] in init;
          IndexOfSnoc(init, x, g[a]);
          if b < |f| {
            assert g[b] == f[b];
            IndexOfSnoc(init, x, g[b]);
          } else {
            assert IndexOf(s, x) == |init| by {
              assert s[..|init|] == init;
            }
          }
        }
      } else {
        forall a, b | 0 <= a < b < |f|
          ensures f[a] in s && f[b] in s && IndexOf(s, f[a]) < IndexOf(s, f[b])
        {
          IndexOfSnoc(init, x, f[a]);
          IndexOfSnoc(init, x, f[b]);
        }
      }
    }
  }

  /** A sequence without repeats is its own dedupe: the second
      `dict.fromkeys` of an already deduplicated list changes nothing. */
  lemma {:induction false} DedupOfDistinct<T(!new)>(s: seq<T>)
    requires Distinct(s)
    ensures Dedup(s) == s
  {
    if s != [] {
      var n := |s| - 1;
      DedupOfDistinct(s[..n]);
      assert s[n] !in s[..n];
      assert s == s[..n] + [s[n]];
    }
  }

  /** One more element: kept at the end when new, dropped otherwise. */
  lemma DedupSnoc<T(!new)>(s: seq<T>, x: T)
    ensures Dedup(s + [x]) == if x in Dedup(s) then Dedup(s) else Dedup(s) + [x]
  {
    assert (s + [x])[..|s|] == s;
  }

  /** First appearance decides the order: the dedupe of a prefix is a
      prefix of the dedupe. */
  lemma {:induction false} DedupPrefix<T(!new)>(s: seq<T>, k: nat)
    requires k <= |s|
    ensures Dedup(s[..k]) <= Dedup(s)
    decreases |s|
  {
    if k < |s| {
      var n := |s| - 1;
      assert s[..n][..k] == s[..k];
      DedupPrefix(s[..n], k);
    } else {
      assert s[..k] == s;
    }
  }

  /** A sequence is distinct exactly when no element counts twice in its
      multiset, so any permutation of a distinct sequence is distinct. */
  lemma {:induction false} DistinctCounts<T>(s: seq<T>)
    requires Distinct(s)
    ensures forall x :: multiset(s)[x] <= 1
  {
    if s != [] {
      var n := |s| - 1;
      assert s == s[..n] + [s[n]];
      DistinctCounts(s[..n]);
      assert s[n] !in s[..n];
    }
  }

  lemma DistinctPermutation<T>(s: seq<T>, r: seq<T>)
    requires Distinct(s) && multiset(r) == multiset(s)
    ensures Distinct(r)
  {
    DistinctCounts(s);
    forall i, j | 0 <= i < j < |r| ensures r[i] != r[j] {
      assert r == r[..j] + [r[j]] + r[j + 1..];
      assert multiset(r)[r[j]] == multiset(r[..j])[r[j]] + 1 + multiset(r[j + 1..])[r[j]];
      assert r[..j][i] == r[i];
    }
  }

  lemma PermutedMember<T>(s: seq<T>, r: seq<T>, i: int)
    requires multiset(r) == multiset(s) && 0 <= i < |r|
    ensures r[i] in s
  {
    assert r[i] in multiset(r);
  }

  // ---------------------------------------------------------------------
  // Python's order on strings and `sorted`
  // ---------------------------------------------------------------------

  /** `a <= b` on Python strings: by code point, a prefix first. */
  predicate LexLe(a: string, b: string)
    decreases |a|
  {
    a == [] || (b != [] && (a[0] < b[0] || (a[0] == b[0] && LexLe(a[1..], b[1..]))))
  }

  lemma {:induction false} LexTotal(a: string, b: string)
    ensures LexLe(a, b) || LexLe(b, a)
    decreases |a|
  {
    if a != [] && b != [] && a[0] == b[0] {
      LexTotal(a[1..], b[1..]);
    }
  }

  lemma {:induction false} LexTrans(a: string, b: string, c: string)
    requires LexLe(a, b) && LexLe(b, c)
    ensures LexLe(a, c)
    decreases |a|
  {
    if a != [] && a[0] == b[0] && b[0] == c[0] {
      LexTrans(a[1..], b[1..], c[1..]);
    }
  }

  predicate SortedBy<T>(s: seq<T>, key: T -> string)
  {
    forall i, j | 0 <= i < j < |s| :: LexLe(key(s[i]), key(s[j]))
  }

  /** An element no greater than every element of a sorted sequence can go
      in front of it. */
  lemma SortedCons<T>(y: T, s: seq<T>, key: T -> string)
    requires SortedBy(s, key)
    requires forall i | 0 <= i < |s| :: LexLe(key(y), key(s[i]))
    ensures SortedBy([y] + s, key)
  {
    var r := [y] + s;
    forall i, j | 0 <= i < j < |r| ensures LexLe(key(r[i]), key(r[j])) {
      assert r[j] == s[j - 1];
      if i > 0 {
        assert r[i] == s[i - 1];
      }
    }
  }

  /** A bound on `x` and on the elements of `s` bounds every element of a
      sequence made of them. */
  lemma BelowAll<T>(y: T, x: T, s: seq<T>, r: seq<T>, key: T -> string)
    requires multiset(r) == multiset(s) + multiset{x}
    requires LexLe(key(y), key(x)) && forall i | 0 <= i < |s| :: LexLe(key(y), key(s[i]))
    ensures forall i | 0 <= i < |r| :: LexLe(key(y), key(r[i]))
  {
    forall i | 0 <= i < |r| ensures LexLe(key(y), key(r[i])) {
      assert r[i] in multiset(r);
      if r[i] != x {
        assert r[i] in multiset(s);
      }
    }
  }

  /** Insert `x` into a sorted sequence, before the first element not
      below it. */
  function InsertBy<T(==)>(x: T, s: seq<T>, key: T -> string): (r: seq<T>)
    requires SortedBy(s, key)
    ensures SortedBy(r, key) && multiset(r) == multiset(s) + multiset{x}
    decreases |s|
  {
    if s == [] then [x]
    else if LexLe(key(x), key(s[0])) then
      assert forall i | 0 <= i < |s| :: LexLe(key(x), key(s[i])) by {
        forall i | 0 <= i < |s| ensures LexLe(key(x), key(s[i])) {
          if i > 0 { LexTrans(key(x), key(s[0]), key(s[i])); }
        }
      }
      SortedCons(x, s, key);
      [x] + s
    else
      var rest := InsertBy(x, s[1..], key);
      assert s == [s[0]] + s[1..];
      LexTotal(key(x), key(s[0]));
      BelowAll(s[0], x, s[1..], rest, key);
      SortedCons(s[0], rest, key);
      [s[0]] + rest
  }

  /** `sorted(s, key=key)`: a sorted permutation of `s`. */
  function SortBy<T(==)>(s: seq<T>, key: T -> string): (r: seq<T>)
    ensures SortedBy(r, key) && multiset(r) == multiset(s)
  {
    if s == [] then []
    else
      assert s == [s[0]] + s[1..];
      InsertBy(s[0], SortBy(s[1..], key), key)
  }

  /** `sorted` on strings. */
  function SortStrings(s: seq<string>): (r: seq<string>)
    ensures multiset(r) == multiset(s)
    ensures forall i, j | 0 <= i < j < |r| :: LexLe(r[i], r[j])
  {
    SortBy(s, (x: string) => x)
  }

  /** `sorted` on directory entries of one parent, that is by name. */
  function SortNodes(s: seq<Node>): (r: seq<Node>)
    ensures multiset(r) == multiset(s)
    ensures forall i, j | 0 <= i < j < |r| :: LexLe(r[i].name, r[j].name)
  {
    SortBy(s, NameOf)
  }

  // ---------------------------------------------------------------------
  // The `^\d+_` item prefix
  // ---------------------------------------------------------------------

  /** The longest run of ASCII digits at the start of `s`. */
  function LeadingDigits(s: string): (r: string)
    ensures StartsWith(s, r)
    ensures forall i | 0 <= i < |r| :: IsDigit(r[i])
    ensures |r| < |s| ==> !IsDigit(s[|r|])
  {
    if s != [] && IsDigit(s[0]) then [s[0]] + LeadingDigits(s[1..]) else []
  }

  /** `re.match(r"(\d+)_", name)`: group 1 when the match succeeds. */
  function NumberPrefix(name: string): (r: Option<string>)
    ensures r.Some? ==> IsAllDigits(r.value) && |r.value| < |name|
                        && name[..|r.value|] == r.value && name[|r.value|] == '_'
  {
    var d := LeadingDigits(name);
    if |d| >= 1 && |d| < |name| && name[|d|] == '_' then Some(d) else None
  }

  /** The match succeeds exactly when some non-empty run of digits starts
      the name and is followed by `_`, and the group is that run. */
  lemma NumberPrefixMatches(name: string, k: int)
    requires 1 <= k < |name| && (forall i | 0 <= i < k :: IsDigit(name[i])) && name[k] == '_'
    ensures NumberPrefix(name) == Some(name[..k])
  {
    var d := LeadingDigits(name);
    assert d == name[..k];
  }

  /** `re.sub(r"^\d+_", "", s)`. */
  function DropNumber(s: string): (r: string)
    ensures NumberPrefix(s).None? ==> r == s
    ensures NumberPrefix(s).Some? ==> s == NumberPrefix(s).value + "_" + r
  {
    match NumberPrefix(s)
    case None => s
    case Some(d) =>
      assert s == s[..|d|] + "_" + s[|d| + 1..];
      s[|d| + 1..]
  }
}
