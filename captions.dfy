// Caption translation (translate_captions.py): finding the English VTT
// files, classifying their lines, cleaning what the translation model
// answers and merging the answers back line by line. The HTTP calls to the
// model are a parameter `translate`, and the file system is a set of
// existing paths and the text read.

module Captions {
  import opened Base
  import opened Listing
  import opened Walk

  // ---------------------------------------------------------------------
  // `get_vtt_files`
  // ---------------------------------------------------------------------

  predicate IsEnglish(name: string) { EndsWith(name, "_en.vtt") }

  /** `get_vtt_files`: every `_en.vtt` file of the walk, sorted. */
  method GetVttFiles(walk: seq<WalkStep>) returns (files: seq<string>)
    ensures files == SortStrings(Found(walk, IsEnglish))
  {
    files := FindFiles(walk, IsEnglish);
  }

  /** The files found are exactly the English captions of the walk, each
      path itself ending in `_en.vtt`, in sorted order. */
  lemma VttFilesExactly(walk: seq<WalkStep>)
    ensures var r := SortStrings(Found(walk, IsEnglish));
      (forall p | p in r :: IsEnglish(p) && Origin(walk, IsEnglish, p))
      && (forall i, f | 0 <= i < |walk| && f in walk[i].files && IsEnglish(f) :: Join(walk[i].root, f) in r)
      && (forall i, j | 0 <= i < j < |r| :: LexLe(r[i], r[j]))
  {
    var r := SortStrings(Found(walk, IsEnglish));
    FoundExactly(walk, IsEnglish);
    forall p | p in r ensures IsEnglish(p) {
      var i, f :| 0 <= i < |walk| && f in walk[i].files && IsEnglish(f) && p == Join(walk[i].root, f);
      JoinKeepsSuffix(walk[i].root, f, "_en.vtt");
    }
  }

  // ---------------------------------------------------------------------
  // Line classification
  // ---------------------------------------------------------------------

  /** `is_timestamp`: the line holds an arrow and a digit. */
  predicate IsTimestamp(line: string)
  {
    Contains(line, "-->") && HasDigit(line)
  }

  /** `is_metadata`: after stripping, the header, a note, or a cue number. */
  predicate IsMetadata(line: string)
  {
    var s := Strip(line);
    s != [] && (s == "WEBVTT" || StartsWith(s, "NOTE") || IsAllDigits(s))
  }

  /** A line that is sent for translation: not blank, metadata or a
      timestamp once stripped, and holding a letter. */
  predicate Translatable(line: string)
  {
    var s := Strip(line);
    !(s == [] || IsMetadata(s) || IsTimestamp(s)) && HasAlpha(s)
  }

  /** Cue timings, cue numbers and the header are never translated, whatever
      whitespace surrounds them. */
  lemma StructureNotTranslatable(line: string)
    requires IsTimestamp(Strip(line)) || IsAllDigits(Strip(line)) || Strip(line) == "WEBVTT"
    ensures !Translatable(line)
  {
    StripIdempotent(line);
  }

  /** The indices of the elements that pass `keep`, in order. */
  function Selected<T>(xs: seq<T>, keep: T -> bool): seq<nat>
  {
    if xs == [] then []
    else
      var n := |xs| - 1;
      Selected(xs[..n], keep) + if keep(xs[n]) then [n] else []
  }

  /** `f` of the elements that pass `keep`, in order. */
  function SelectedMap<T, U>(xs: seq<T>, keep: T -> bool, f: T -> U): seq<U>
  {
    if xs == [] then []
    else
      var n := |xs| - 1;
      SelectedMap(xs[..n], keep, f) + if keep(xs[n]) then [f(xs[n])] else []
  }

  /** The selected indices are exactly those of the elements that pass,
      increasing, and the mapped values are those of the elements there. */
  lemma {:induction false} SelectedSpec<T, U>(xs: seq<T>, keep: T -> bool, f: T -> U)
    ensures var indices, ys := Selected(xs, keep), SelectedMap(xs, keep, f);
      |indices| == |ys|
      && (forall k | 0 <= k < |indices| :: indices[k] < |xs| && keep(xs[indices[k]]) && ys[k] == f(xs[indices[k]]))
      && (forall k, l | 0 <= k < l < |indices| :: indices[k] < indices[l])
      && (forall i | 0 <= i < |xs| && keep(xs[i]) :: i in indices)
  {
    if xs != [] {
      var n := |xs| - 1;
      SelectedSpec(xs[..n], keep, f);
      assert forall i | 0 <= i < n :: xs[..n][i] == xs[i];
    }
  }

  /** `_extract_translatable_lines`: the indices of the translatable lines in
      increasing order, and their stripped texts. */
  method ExtractTranslatableLines(lines: seq<string>) returns (indices: seq<nat>, texts: seq<string>)
    ensures indices == Selected(lines, Translatable) && texts == SelectedMap(lines, Translatable, Strip)
  {
    indices, texts := [], [];
    for i := 0 to |lines|
      invariant indices == Selected(lines[..i], Translatable) && texts == SelectedMap(lines[..i], Translatable, Strip)
    {
      assert lines[..i + 1][..i] == lines[..i];
      var stripped := Strip(lines[i]);
      if stripped == [] || IsMetadata(stripped) || IsTimestamp(stripped) {
        continue;
      }
      if HasAlpha(stripped) {
        indices := indices + [i];
        texts := texts + [stripped];
      }
    }
    assert lines[..|lines|] == lines;
  }

  // ---------------------------------------------------------------------
  // `clean_translation`
  // ---------------------------------------------------------------------

  const Fence := "```"

  /** A code block matched by `` ```(?:json|html|text)?\s*(.*?)\s*``` ``: the
      captured text is `t[content..close]` and the match ends at `end`. */
  datatype Block = Block(content: nat, close: nat, end: nat)

  /** Past the optional language tag of an opening fence. */
  function LangEnd(t: string, j: nat): (k: nat)
    requires j <= |t|
    ensures j <= k <= |t|
  {
    if StartsWith(t[j..], "json") || StartsWith(t[j..], "html") || StartsWith(t[j..], "text") then j + 4 else j
  }

  /** A language tag is skipped. */
  lemma LangEndTag(t: string, j: nat)
    requires j + 4 <= |t| && (t[j..j + 4] == "json" || t[j..j + 4] == "html" || t[j..j + 4] == "text")
    ensures LangEnd(t, j) == j + 4
  {
    assert t[j..][..4] == t[j..j + 4];
  }

  /** Where the whitespace run that ends at `q` starts, not before `p`. */
  function BackSpace(t: string, p: nat, q: nat): (r: nat)
    requires p <= q <= |t|
    ensures p <= r <= q && SpacesIn(t, r, q)
    ensures r > p ==> !IsSpace(t[r - 1])
    decreases q - p
  {
    if q > p && IsSpace(t[q - 1]) then BackSpace(t, p, q - 1) else q
  }

  /** The code block starting at `i`, if any. The lazy group ends at the
      first closing fence, less the whitespace before it; the language tag
      and the whitespace after the opening fence are never captured. */
  function BlockAt(t: string, i: nat): (r: Option<Block>)
    requires i <= |t|
    ensures r.Some? ==> OccursAt(t, Fence, i) && i + 3 <= r.value.content <= r.value.close
                        && r.value.close + 3 <= r.value.end <= |t| && OccursAt(t, Fence, r.value.end - 3)
  {
    if !OccursAt(t, Fence, i) then None
    else
      var p := SkipSpace(t, LangEnd(t, i + 3));
      var q := Find(t, Fence, p);
      if q == |t| then None else Some(Block(p, BackSpace(t, p, q), q + 3))
  }

  /** The first `re.sub` of `clean_translation`: every code block, left to
      right, replaced by its captured text. */
  function Unfence(t: string, i: nat): (r: string)
    requires i <= |t|
    decreases |t| - i
  {
    if i == |t| then []
    else
      match BlockAt(t, i)
      case Some(b) => t[b.content..b.close] + Unfence(t, b.end)
      case None => [t[i]] + Unfence(t, i + 1)
  }

  /** Text without a fence is left as it is. */
  lemma {:induction false} UnfencePlain(t: string, i: nat)
    requires i <= |t|
    requires forall j | i <= j < |t| :: !OccursAt(t, Fence, j)
    ensures Unfence(t, i) == t[i..]
    decreases |t| - i
  {
    if i < |t| {
      UnfencePlain(t, i + 1);
      assert t[i..] == [t[i]] + t[i + 1..];
    }
  }

  /** The second `re.sub`: a whole text `["..."]`, optionally followed by one
      newline, becomes the text between the quotes. The group may not hold
      a newline. */
  function Unbracket(t: string): (r: string)
  {
    var e := if |t| >= 1 && t[|t| - 1] == ']' then |t| - 1
             else if |t| >= 2 && t[|t| - 1] == '\n' && t[|t| - 2] == ']' then |t| - 2
             else -1;
    if e < 1 || t[0] != '[' then t
    else
      var p := SkipSpace(t, 1);
      if t[p] != '"' then t
      else
        var r := BackSpace(t, p + 1, e);
        if r > p + 1 && t[r - 1] == '"' && (forall m | p + 1 <= m < r - 1 :: t[m] != '\n')
        then t[p + 1..r - 1] + t[e + 1..]
        else t
  }

  /** The outer quotes, when the text starts and ends with the same kind. */
  function DropQuotes(t: string): (r: string)
  {
    if |t| >= 1 && ((t[0] == '"' && t[|t| - 1] == '"') || (t[0] == '\'' && t[|t| - 1] == '\'')) then
      if |t| >= 2 then Strip(t[1..|t| - 1]) else []
    else t
  }

  /** `clean_translation`. */
  function CleanTranslation(text: string): (r: string)
    ensures Strip(r) == r
  {
    var t := Strip(text);
    var r := Strip(DropQuotes(Unbracket(Unfence(t, 0))));
    StripIdempotent(DropQuotes(Unbracket(Unfence(t, 0))));
    r
  }

  /** Neither opening bracket nor quote. */
  predicate PlainStart(x: string)
  {
    x == [] || (x[0] != '[' && x[0] != '"' && x[0] != '\'')
  }

  lemma UnbracketPlain(t: string)
    requires t == [] || t[0] != '['
    ensures Unbracket(t) == t
  {
  }

  lemma DropQuotesPlain(t: string)
    requires PlainStart(t)
    ensures DropQuotes(t) == t
  {
  }

  /** `clean_translation` in steps. */
  lemma CleanSteps(text: string, t: string, u: string, v: string)
    requires t == Strip(text) && u == Unfence(t, 0) && v == Unbracket(u)
    ensures CleanTranslation(text) == Strip(DropQuotes(v))
  {
  }

  /** A stripped plain answer is kept as it is. */
  lemma CleanPlain(text: string)
    requires !Contains(Strip(text), Fence) && PlainStart(Strip(text))
    ensures CleanTranslation(text) == Strip(text)
  {
    var t := Strip(text);
    UnfencePlain(t, 0);
    UnbracketPlain(t);
    DropQuotesPlain(t);
    CleanSteps(text, t, t, t);
    StripIdempotent(text);
  }

  /** A greedy `\s*` over a whitespace run stops where the run stops. */
  lemma SkipSpaceTo(t: string, j: nat, k: nat)
    requires j <= k <= |t| && SpacesIn(t, j, k) && (k < |t| ==> !IsSpace(t[k]))
    ensures SkipSpace(t, j) == k
    decreases k - j
  {
    if j < k { SkipSpaceTo(t, j + 1, k); }
  }

  /** Walking back over a whitespace run stops where the run starts. */
  lemma BackSpaceTo(t: string, p: nat, r: nat, q: nat)
    requires p <= r <= q <= |t| && SpacesIn(t, r, q) && (r > p ==> !IsSpace(t[r - 1]))
    ensures BackSpace(t, p, q) == r
    decreases q - r
  {
    if r < q { BackSpaceTo(t, p, r, q - 1); }
  }

  /** With no backtick in between, the next fence is the one at `q`. */
  lemma FindFenceAt(t: string, p: nat, q: nat)
    requires p <= q && OccursAt(t, Fence, q) && forall m | p <= m < q :: t[m] != '`'
    ensures Find(t, Fence, p) == q
    decreases q - p
  {
    if p < q {
      assert !OccursAt(t, Fence, p) by { assert t[p] != '`'; }
      FindFenceAt(t, p + 1, q);
    }
  }

  /** The block at `i`, from where its three scans stop. */
  lemma BlockFound(t: string, i: nat, p: nat, q: nat, r: nat)
    requires i <= |t| && OccursAt(t, Fence, i)
    requires p == SkipSpace(t, LangEnd(t, i + 3)) && q == Find(t, Fence, p) && q < |t| && r == BackSpace(t, p, q)
    ensures BlockAt(t, i) == Some(Block(p, r, q + 3))
  {
  }

  /** A text that is one code block becomes its captured text. */
  lemma UnfenceWhole(t: string, b: Block)
    requires BlockAt(t, 0) == Some(b) && b.end == |t|
    ensures Unfence(t, 0) == t[b.content..b.close]
  {
    assert |t| > 0;
    assert Unfence(t, b.end) == [];
  }

  /** The scans over a text that is one tagged code block, with the
      captured text at `t[a..z]`, find the whole of it. */
  lemma FencedBlock(t: string, a: nat, z: nat)
    requires 7 <= a < z <= |t| - 3
    requires OccursAt(t, Fence, 0) && OccursAt(t, Fence, |t| - 3)
    requires t[3..7] == "json" || t[3..7] == "html" || t[3..7] == "text"
    requires SpacesIn(t, 7, a) && SpacesIn(t, z, |t| - 3)
    requires forall m | a <= m < z :: t[m] != '`'
    requires !IsSpace(t[a]) && !IsSpace(t[z - 1])
    ensures BlockAt(t, 0) == Some(Block(a, z, |t|))
  {
    var q := |t| - 3;
    LangEndTag(t, 3);
    SkipSpaceTo(t, 7, a);
    assert t[q] == '`';
    FindFenceAt(t, a, q);
    BackSpaceTo(t, a, z, q);
  }

  /** Whitespace in a slice is whitespace in the whole. */
  lemma SpacesInSlice(t: string, a: nat, b: nat)
    requires a <= b <= |t| && SpacesIn(t[a..b], 0, b - a)
    ensures SpacesIn(t, a, b)
  {
    assert forall m | a <= m < b :: t[m] == t[a..b][m - a];
  }

  /** Where the parts of a tagged code block sit in its text. */
  lemma FencedLayout(lang: string, ws1: string, x: string, ws2: string)
    requires |lang| == 4
    ensures var t := Fence + lang + ws1 + x + ws2 + Fence;
      var a := 7 + |ws1|;
      var z := a + |x|;
      t[..3] == Fence && t[|t| - 3..] == Fence && t[3..7] == lang
      && t[7..a] == ws1 && t[a..z] == x && t[z..|t| - 3] == ws2
      && (forall m | a <= m < z :: t[m] == x[m - a])
  {
    var t := Fence + lang + ws1 + x + ws2 + Fence;
    var a := 7 + |ws1|;
    var z := a + |x|;
    assert t[7..a] == ws1;
    assert t[z..|t| - 3] == ws2;
    assert t[a..z] == x;
  }

  /** A text opening and closing with a backtick has no outer spaces. */
  lemma BacktickEnds(t: string)
    requires |t| > 0 && t[0] == '`' && t[|t| - 1] == '`'
    ensures Stripped(t)
  {
  }

  /** A text that is one tagged code block becomes the text inside. */
  lemma UnfenceFenced(lang: string, ws1: string, x: string, ws2: string)
    requires lang == "json" || lang == "html" || lang == "text"
    requires SpacesIn(ws1, 0, |ws1|) && SpacesIn(ws2, 0, |ws2|)
    requires x != [] && Stripped(x) && forall m | 0 <= m < |x| :: x[m] != '`'
    ensures var t := Fence + lang + ws1 + x + ws2 + Fence;
      Stripped(t) && Unfence(t, 0) == x
  {
    var t := Fence + lang + ws1 + x + ws2 + Fence;
    var a := 7 + |ws1|;
    var z := a + |x|;
    FencedLayout(lang, ws1, x, ws2);
    assert t[0] == '`' && t[|t| - 1] == '`';
    BacktickEnds(t);
    SpacesInSlice(t, 7, a);
    SpacesInSlice(t, z, |t| - 3);
    FencedBlock(t, a, z);
    UnfenceWhole(t, Block(a, z, |t|));
  }

  /** An answer wrapped in a tagged code block is unwrapped. */
  lemma CleanFenced(lang: string, ws1: string, x: string, ws2: string)
    requires lang == "json" || lang == "html" || lang == "text"
    requires SpacesIn(ws1, 0, |ws1|) && SpacesIn(ws2, 0, |ws2|)
    requires x != [] && Stripped(x) && PlainStart(x) && forall m | 0 <= m < |x| :: x[m] != '`'
    ensures CleanTranslation(Fence + lang + ws1 + x + ws2 + Fence) == x
  {
    var t := Fence + lang + ws1 + x + ws2 + Fence;
    UnfenceFenced(lang, ws1, x, ws2);
    StripFixed(t);
    StripFixed(x);
    UnbracketPlain(x);
    DropQuotesPlain(x);
    CleanSteps(t, t, x, x);
  }

  /** No backtick, no fence. */
  lemma NoFence(t: string)
    requires forall m | 0 <= m < |t| :: t[m] != '`'
    ensures forall j | 0 <= j < |t| :: !OccursAt(t, Fence, j)
  {
    forall j | 0 <= j < |t| ensures !OccursAt(t, Fence, j) {
      assert t[j] != '`';
    }
  }

  /** A one-element list of a plain one-line text is unwrapped by the
      second substitution. */
  lemma UnbracketOf(x: string)
    requires x == [] || !IsSpace(x[0])
    requires forall m | 0 <= m < |x| :: x[m] != '\n'
    ensures Unbracket("[\"" + x + "\"]") == x
  {
    var t := "[\"" + x + "\"]";
    assert t[0] == '[' && t[1] == '"' && t[|t| - 2] == '"' && t[|t| - 1] == ']';
    forall m | 2 <= m < |t| - 2 ensures t[m] != '\n' {
      assert t[m] == x[m - 2];
    }
    SkipSpaceTo(t, 1, 1);
    BackSpaceTo(t, 2, |t| - 1, |t| - 1);
    assert t[2..|t| - 2] == x;
    assert t[|t|..] == [];
  }

  /** An answer given as a one-element JSON list is unwrapped. */
  lemma CleanBracketed(x: string)
    requires Stripped(x) && PlainStart(x)
    requires forall m | 0 <= m < |x| :: x[m] != '`' && x[m] != '\n'
    ensures CleanTranslation("[\"" + x + "\"]") == x
  {
    var t := "[\"" + x + "\"]";
    assert forall m | 2 <= m < |t| - 2 :: t[m] == x[m - 2];
    StripFixed(t);
    NoFence(t);
    UnfencePlain(t, 0);
    UnbracketOf(x);
    DropQuotesPlain(x);
    StripFixed(x);
    CleanSteps(t, t, t, x);
  }

  /** Quotes around `x` are dropped with the whitespace inside them. */
  lemma DropQuotesOf(q: char, x: string)
    requires q == '"' || q == '\''
    ensures DropQuotes([q] + x + [q]) == Strip(x)
  {
    var t := [q] + x + [q];
    assert t[1..|t| - 1] == x;
  }

  /** An answer in matching quotes loses them and the whitespace inside. */
  lemma CleanQuoted(q: char, x: string)
    requires q == '"' || q == '\''
    requires forall m | 0 <= m < |x| :: x[m] != '`'
    ensures CleanTranslation([q] + x + [q]) == Strip(x)
  {
    var t := [q] + x + [q];
    assert forall m | 1 <= m < |t| - 1 :: t[m] == x[m - 1];
    StripFixed(t);
    NoFence(t);
    UnfencePlain(t, 0);
    UnbracketPlain(t);
    DropQuotesOf(q, x);
    CleanSteps(t, t, t, t);
    StripIdempotent(x);
  }

  // ---------------------------------------------------------------------
  // `process_vtt_file`
  // ---------------------------------------------------------------------

  /** Where the Hebrew captions of `path` go: every `_en.vtt` becomes `_heb.vtt`. */
  function OutputPath(path: string): string
  {
    ReplaceAll(path, "_en.vtt", "_heb.vtt")
  }

  /** For the usual name, the suffix is swapped. */
  lemma OutputPathOf(base: string)
    requires forall i | 0 <= i < |base| :: !OccursAt(base + "_en.vtt", "_en.vtt", i)
    ensures OutputPath(base + "_en.vtt") == base + "_heb.vtt"
  {
    assert base + "_en.vtt" + [] == base + "_en.vtt";
    ReplaceFirst(base, "_en.vtt", "_heb.vtt", []);
  }

  /** Every translatable line got an answer. */
  predicate AllTranslated(lines: seq<string>, translate: string -> Option<string>)
  {
    forall i | 0 <= i < |lines| && Translatable(lines[i]) :: translate(Strip(lines[i])).Some?
  }

  /** `out` is `lines` with each translatable line replaced by its answer and
      a newline, every other line kept. */
  predicate Merged(lines: seq<string>, translate: string -> Option<string>, out: seq<string>)
  {
    |out| == |lines|
    && forall i | 0 <= i < |lines| ::
         if Translatable(lines[i]) then
           translate(Strip(lines[i])).Some?
           && out[i] == translate(Strip(lines[i])).value + "\n"
         else out[i] == lines[i]
  }

  /** The merge of `process_vtt_file`: a copy of `lines` in which the line
      at `indices[k]` becomes the `k`-th answer and a newline. */
  method MergeAnswers(lines: seq<string>, indices: seq<nat>, texts: seq<string>,
                      translate: string -> Option<string>)
    returns (out: seq<string>)
    requires |indices| == |texts|
    requires forall k | 0 <= k < |indices| :: indices[k] < |lines| && translate(texts[k]).Some?
    requires forall k, l | 0 <= k < l < |indices| :: indices[k] < indices[l]
    ensures |out| == |lines|
    ensures forall k | 0 <= k < |indices| :: out[indices[k]] == translate(texts[k]).value + "\n"
    ensures forall i | 0 <= i < |lines| && i !in indices :: out[i] == lines[i]
  {
    out := lines;
    for k := 0 to |indices|
      invariant |out| == |lines|
      invariant forall j | 0 <= j < k :: out[indices[j]] == translate(texts[j]).value + "\n"
      invariant forall i | 0 <= i < |lines| && i !in indices[..k] :: out[i] == lines[i]
    {
      assert indices[..k + 1] == indices[..k] + [indices[k]];
      out := out[indices[k] := translate(texts[k]).value + "\n"];
    }
    assert indices[..|indices|] == indices;
  }

  /** Every line was answered exactly when every text sent was. */
  lemma AllTranslatedTexts(lines: seq<string>, translate: string -> Option<string>)
    ensures AllTranslated(lines, translate) <==>
            forall k | 0 <= k < |SelectedMap(lines, Translatable, Strip)| :: translate(SelectedMap(lines, Translatable, Strip)[k]).Some?
  {
    var indices, texts := Selected(lines, Translatable), SelectedMap(lines, Translatable, Strip);
    SelectedSpec(lines, Translatable, Strip);
    if AllTranslated(lines, translate) {
      forall k | 0 <= k < |texts| ensures translate(texts[k]).Some? {
        assert Translatable(lines[indices[k]]);
      }
    } else {
      var i :| 0 <= i < |lines| && Translatable(lines[i]) && translate(Strip(lines[i])).None?;
      var k :| 0 <= k < |indices| && indices[k] == i;
    }
  }

  /** Writing each answer over its line gives the merged output. */
  lemma MergedByIndex(lines: seq<string>, translate: string -> Option<string>, out: seq<string>)
    requires AllTranslated(lines, translate)
    requires var indices, texts := Selected(lines, Translatable), SelectedMap(lines, Translatable, Strip);
      |out| == |lines|
      && (forall k | 0 <= k < |indices| && k < |texts| && indices[k] < |out| && translate(texts[k]).Some? ::
            out[indices[k]] == translate(texts[k]).value + "\n")
      && (forall i | 0 <= i < |lines| && i !in indices :: out[i] == lines[i])
    ensures Merged(lines, translate, out)
  {
    var indices, texts := Selected(lines, Translatable), SelectedMap(lines, Translatable, Strip);
    SelectedSpec(lines, Translatable, Strip);
    forall i | 0 <= i < |lines| && Translatable(lines[i])
      ensures out[i] == translate(Strip(lines[i])).value + "\n"
    {
      var k :| 0 <= k < |indices| && indices[k] == i;
    }
    forall i | 0 <= i < |lines| && !Translatable(lines[i]) ensures out[i] == lines[i] {
      assert i !in indices;
    }
  }

  /** The lines of `process_vtt_file` once the file is read: `None` when some
      line got no answer, else the merged lines. */
  method TranslateLines(lines: seq<string>, translate: string -> Option<string>) returns (merged: Option<seq<string>>)
    ensures merged.Some? <==> AllTranslated(lines, translate)
    ensures merged.Some? ==> Merged(lines, translate, merged.value)
  {
    var indices, texts := ExtractTranslatableLines(lines);
    SelectedSpec(lines, Translatable, Strip);
    AllTranslatedTexts(lines, translate);
    // the answers gathered for `texts`, one request per line
    if exists k | 0 <= k < |texts| :: translate(texts[k]).None? {
      return None;
    }
    var newLines := MergeAnswers(lines, indices, texts, translate);
    MergedByIndex(lines, translate, newLines);
    return Some(newLines);
  }

  /** `process_vtt_file` on `filePath`: `existing` are the paths on disk,
      `read` the lines read (`None` when reading fails), `translate(text)`
      the cleaned answer for a line (`None` when every attempt failed) and
      `writeOk` whether writing succeeds. `written` is what is written to
      `OutputPath(filePath)`. */
  method ProcessVttFile(filePath: string, existing: set<string>, read: Option<seq<string>>,
                        translate: string -> Option<string>, writeOk: bool)
    returns (ok: bool, written: Option<seq<string>>)
    ensures OutputPath(filePath) in existing ==> ok && written.None?
    ensures OutputPath(filePath) !in existing && read.None? ==> !ok && written.None?
    ensures OutputPath(filePath) !in existing && read.Some? ==>
              if AllTranslated(read.value, translate) then ok == writeOk && (written.Some? <==> writeOk)
              else !ok && written.None?
    ensures written.Some? ==> read.Some? && Merged(read.value, translate, written.value)
  {
    if OutputPath(filePath) in existing {
      return true, None;
    }
    if read.None? {
      return false, None;
    }
    var merged := TranslateLines(read.value, translate);
    if merged.None? || !writeOk {
      return false, None;
    }
    return true, merged;
  }

  /** `run_translation`'s work list: the files whose output is missing, cut
      to `limit` when it is given and not zero (a negative limit drops that
      many from the end, as a Python slice does). */
  function Pending(all: seq<string>, existing: set<string>, limit: Option<int>): (r: seq<string>)
    ensures forall k | 0 <= k < |r| :: r[k] in all && OutputPath(r[k]) !in existing
    ensures limit.None? || limit.value == 0 ==> forall f | f in all && OutputPath(f) !in existing :: f in r
    ensures limit.Some? && limit.value > 0 ==> |r| <= limit.value
  {
    var todo := Filter(all, (f: string) => OutputPath(f) !in existing);
    if limit.None? || limit.value == 0 then todo
    else if limit.value > 0 then (if limit.value < |todo| then todo[..limit.value] else todo)
    else if -limit.value < |todo| then todo[..|todo| + limit.value]
    else []
  }
}
