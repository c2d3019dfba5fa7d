// The recursive file searches of the offline scripts: an `os.walk` of a
// directory tree, given as the sequence of directories it visits, filtered
// by a test on each file name and then sorted. The walk itself is an input.

module Walk {
  import opened Base
  import opened Listing

  /** One directory of an `os.walk`: its path and the names of its files. */
  datatype WalkStep = WalkStep(root: string, files: seq<string>)

  /** `os.path.join(root, name)` for a plain file name. */
  function Join(root: string, name: string): (r: string)
    ensures EndsWith(r, name)
  {
    var r := if root == [] || EndsWith(root, "/") then root + name else root + "/" + name;
    assert r[|r| - |name|..] == name;
    r
  }

  /** A name ending in `suffix` keeps it when a directory is put in front. */
  lemma JoinKeepsSuffix(root: string, name: string, suffix: string)
    requires EndsWith(name, suffix)
    ensures EndsWith(Join(root, name), suffix)
  {
    var r := Join(root, name);
    assert r[|r| - |suffix|..] == r[|r| - |name|..][|name| - |suffix|..];
  }

  /** The paths of the files of one directory that `keep` accepts, in
      listing order. */
  function StepFound(root: string, files: seq<string>, keep: string -> bool): seq<string>
  {
    if files == [] then []
    else
      var n := |files| - 1;
      StepFound(root, files[..n], keep) + if keep(files[n]) then [Join(root, files[n])] else []
  }

  /** The paths of the files of a whole walk that `keep` accepts, in walk
      order. */
  function Found(walk: seq<WalkStep>, keep: string -> bool): seq<string>
  {
    if walk == [] then []
    else
      var n := |walk| - 1;
      Found(walk[..n], keep) + StepFound(walk[n].root, walk[n].files, keep)
  }

  /** `p` is the path of an accepted file of the walk. */
  predicate Origin(walk: seq<WalkStep>, keep: string -> bool, p: string)
  {
    exists i, f | 0 <= i < |walk| && f in walk[i].files :: keep(f) && p == Join(walk[i].root, f)
  }

  /** One directory contributes exactly its accepted files. */
  lemma {:induction false} StepFoundSpec(root: string, files: seq<string>, keep: string -> bool)
    ensures forall p | p in StepFound(root, files, keep) :: exists f | f in files :: keep(f) && p == Join(root, f)
    ensures forall f | f in files && keep(f) :: Join(root, f) in StepFound(root, files, keep)
  {
    if files != [] {
      var n := |files| - 1;
      StepFoundSpec(root, files[..n], keep);
      assert forall f | f in files :: f in files[..n] || f == files[n];
      assert forall f | f in files[..n] :: f in files;
    }
  }

  /** Every path found is that of an accepted file of the walk. */
  lemma {:induction false} FoundSound(walk: seq<WalkStep>, keep: string -> bool)
    ensures forall p | p in Found(walk, keep) :: Origin(walk, keep, p)
  {
    if walk != [] {
      var n := |walk| - 1;
      var w := walk[..n];
      FoundSound(w, keep);
      StepFoundSpec(walk[n].root, walk[n].files, keep);
      assert Found(walk, keep) == Found(w, keep) + StepFound(walk[n].root, walk[n].files, keep);
      forall p | p in Found(walk, keep) ensures Origin(walk, keep, p) {
        if p in Found(w, keep) {
          var i, f :| 0 <= i < |w| && f in w[i].files && keep(f) && p == Join(w[i].root, f);
          assert walk[i] == w[i];
        } else {
          var f :| f in walk[n].files && keep(f) && p == Join(walk[n].root, f);
        }
      }
    }
  }

  /** Every accepted file of the walk is found. */
  lemma {:induction false} FoundComplete(walk: seq<WalkStep>, keep: string -> bool)
    ensures forall i, f | 0 <= i < |walk| && f in walk[i].files && keep(f) :: Join(walk[i].root, f) in Found(walk, keep)
  {
    if walk != [] {
      var n := |walk| - 1;
      var w := walk[..n];
      FoundComplete(w, keep);
      StepFoundSpec(walk[n].root, walk[n].files, keep);
      assert Found(walk, keep) == Found(w, keep) + StepFound(walk[n].root, walk[n].files, keep);
      forall i, f | 0 <= i < |walk| && f in walk[i].files && keep(f) ensures Join(walk[i].root, f) in Found(walk, keep) {
        if i < n {
          assert w[i] == walk[i];
        }
      }
    }
  }

  /** The loop shared by the searches: every file of the walk whose name
      `keep` accepts, joined to its directory, in walk order. */
  method CollectFiles(walk: seq<WalkStep>, keep: string -> bool) returns (found: seq<string>)
    ensures found == Found(walk, keep)
  {
    found := [];
    for i := 0 to |walk|
      invariant found == Found(walk[..i], keep)
    {
      assert walk[..i + 1][..i] == walk[..i];
      var step := walk[i];
      for j := 0 to |step.files|
        invariant found == Found(walk[..i], keep) + StepFound(step.root, step.files[..j], keep)
      {
        assert step.files[..j + 1][..j] == step.files[..j];
        if keep(step.files[j]) {
          found := found + [Join(step.root, step.files[j])];
        }
      }
      assert step.files[..|step.files|] == step.files;
    }
    assert walk[..|walk|] == walk;
  }

  /** `get_vtt_files` and `get_html_files`: the files collected, sorted. */
  method FindFiles(walk: seq<WalkStep>, keep: string -> bool) returns (files: seq<string>)
    ensures files == SortStrings(Found(walk, keep))
  {
    var found := CollectFiles(walk, keep);
    files := SortStrings(found);
  }

  /** The files found are exactly the accepted files of the walk, each
      joined to its directory, in sorted order. */
  lemma FoundExactly(walk: seq<WalkStep>, keep: string -> bool)
    ensures var r := SortStrings(Found(walk, keep));
      (forall p | p in r :: Origin(walk, keep, p))
      && (forall i, f | 0 <= i < |walk| && f in walk[i].files && keep(f) :: Join(walk[i].root, f) in r)
      && (forall i, j | 0 <= i < j < |r| :: LexLe(r[i], r[j]))
  {
    var e := Found(walk, keep);
    var r := SortStrings(e);
    FoundSound(walk, keep);
    FoundComplete(walk, keep);
    forall p | p in r ensures Origin(walk, keep, p) {
      assert p in multiset(r);
    }
    forall i, f | 0 <= i < |walk| && f in walk[i].files && keep(f) ensures Join(walk[i].root, f) in r {
      assert Join(walk[i].root, f) in multiset(e);
    }
  }
}
