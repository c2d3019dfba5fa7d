// Making the Hebrew captions the default (apply_subtitles.py): every
// `<base>_heb.vtt` is copied to `<base>.vtt` beside it, when a video or the
// English captions confirm the name, and never over an existing file. The
// disk is a `Disk` object mapping paths to contents; the walk is an input.

module Subtitles {
  import opened Base
  import opened Walk

  const Hebrew := "_heb.vtt"
  const English := "_en.vtt"
  const VideoExts: seq<string> := [".mp4", ".mkv", ".webm"]

  /** The files on disk, by path. */
  class Disk {
    var contents: map<string, string>

    constructor (contents: map<string, string>)
      ensures this.contents == contents
    {
      this.contents := contents;
    }
  }

  /** `file.replace("_heb.vtt", "")`: every occurrence is dropped, not only
      the last. */
  function BaseOf(file: string): string
  {
    ReplaceAll(file, Hebrew, "")
  }

  /** Where the copy of `file` goes. */
  function Target(root: string, file: string): (r: string)
    ensures EndsWith(r, ".vtt")
  {
    JoinKeepsSuffix(root, BaseOf(file) + ".vtt", ".vtt");
    Join(root, BaseOf(file) + ".vtt")
  }

  /** For `<base>_heb.vtt` the copy is `<base>.vtt` in the same directory. */
  lemma TargetOf(root: string, base: string)
    requires forall i | 0 <= i < |base| :: !OccursAt(base + Hebrew, Hebrew, i)
    ensures Target(root, base + Hebrew) == Join(root, base + ".vtt")
  {
    assert base + Hebrew + [] == base + Hebrew;
    ReplaceFirst(base, Hebrew, "", []);
  }

  /** A video named `base` with one of the three extensions is on disk. */
  predicate HasVideo(contents: map<string, string>, root: string, base: string)
  {
    exists k | 0 <= k < |VideoExts| :: Join(root, base + VideoExts[k]) in contents
  }

  /** The name is confirmed by a video, or failing that by the English
      captions. */
  predicate Confirmed(contents: map<string, string>, root: string, base: string)
  {
    HasVideo(contents, root, base) || Join(root, base + English) in contents
  }

  /** The disk and the number of copies made so far. */
  datatype Outcome = Outcome(contents: map<string, string>, count: nat)

  /** One file of the walk. `failing` are the targets whose copy raises. */
  function StepFile(o: Outcome, root: string, file: string, failing: set<string>): Outcome
  {
    if !EndsWith(file, Hebrew) || !Confirmed(o.contents, root, BaseOf(file)) then o
    else
      var source := Join(root, file);
      var target := Target(root, file);
      if target in o.contents || source !in o.contents || target in failing then o
      else Outcome(o.contents[target := o.contents[source]], o.count + 1)
  }

  /** The files of one directory, in listing order. */
  function StepDir(o: Outcome, root: string, files: seq<string>, failing: set<string>): Outcome
  {
    if files == [] then o
    else
      var n := |files| - 1;
      StepFile(StepDir(o, root, files[..n], failing), root, files[n], failing)
  }

  /** The whole walk, directory by directory. */
  function StepWalk(o: Outcome, walk: seq<WalkStep>, failing: set<string>): Outcome
  {
    if walk == [] then o
    else
      var n := |walk| - 1;
      StepDir(StepWalk(o, walk[..n], failing), walk[n].root, walk[n].files, failing)
  }

  /** The disk only gains files: none is changed or removed, every new one
      is a `.vtt` file, and the count is the number of files gained. */
  predicate Grows(o: Outcome, r: Outcome)
  {
    (forall p | p in o.contents :: p in r.contents && r.contents[p] == o.contents[p])
    && (forall p | p in r.contents && p !in o.contents :: EndsWith(p, ".vtt"))
    && r.count - o.count == |r.contents.Keys| - |o.contents.Keys|
  }

  lemma GrowsTrans(a: Outcome, b: Outcome, c: Outcome)
    requires Grows(a, b) && Grows(b, c)
    ensures Grows(a, c)
  {
  }

  lemma StepFileGrows(o: Outcome, root: string, file: string, failing: set<string>)
    ensures Grows(o, StepFile(o, root, file, failing))
  {
    var r := StepFile(o, root, file, failing);
    if r != o {
      var target := Target(root, file);
      assert r.contents.Keys == o.contents.Keys + {target};
      CardAdd(o.contents.Keys, target);
    }
  }

  lemma {:induction false} StepDirGrows(o: Outcome, root: string, files: seq<string>, failing: set<string>)
    ensures Grows(o, StepDir(o, root, files, failing))
  {
    if files != [] {
      var n := |files| - 1;
      var mid := StepDir(o, root, files[..n], failing);
      StepDirGrows(o, root, files[..n], failing);
      StepFileGrows(mid, root, files[n], failing);
      GrowsTrans(o, mid, StepFile(mid, root, files[n], failing));
    }
  }

  /** Over the whole walk no existing file is overwritten, and the count
      is the number of copies made. */
  lemma {:induction false} StepWalkGrows(o: Outcome, walk: seq<WalkStep>, failing: set<string>)
    ensures Grows(o, StepWalk(o, walk, failing))
  {
    if walk != [] {
      var n := |walk| - 1;
      var mid := StepWalk(o, walk[..n], failing);
      StepWalkGrows(o, walk[..n], failing);
      StepDirGrows(mid, walk[n].root, walk[n].files, failing);
      GrowsTrans(o, mid, StepDir(mid, walk[n].root, walk[n].files, failing));
    }
  }

  /** A confirmed Hebrew caption whose target is free is copied there, with
      its contents, unless the copy fails. */
  lemma StepFileCopies(o: Outcome, root: string, file: string, failing: set<string>)
    requires EndsWith(file, Hebrew) && Confirmed(o.contents, root, BaseOf(file))
    requires Join(root, file) in o.contents && Target(root, file) !in o.contents && Target(root, file) !in failing
    ensures var r := StepFile(o, root, file, failing);
      r.count == o.count + 1 && r.contents == o.contents[Target(root, file) := o.contents[Join(root, file)]]
  {
  }

  /** The loop over the three video extensions, stopping at the first one
      on disk. */
  method VideoExists(disk: Disk, root: string, base: string) returns (found: bool)
    ensures found == HasVideo(disk.contents, root, base)
  {
    found := false;
    var k := 0;
    while k < |VideoExts|
      invariant 0 <= k <= |VideoExts|
      invariant !found ==> forall m | 0 <= m < k :: Join(root, base + VideoExts[m]) !in disk.contents
      invariant found ==> HasVideo(disk.contents, root, base)
      decreases |VideoExts| - k, if found then 0 else 1
    {
      if Join(root, base + VideoExts[k]) in disk.contents {
        found := true;
        break;
      }
      k := k + 1;
    }
  }

  /** The body of the inner loop for one file name. */
  method ApplyFile(disk: Disk, root: string, file: string, failing: set<string>, count: nat) returns (count': nat)
    modifies disk
    ensures Outcome(disk.contents, count') == StepFile(Outcome(old(disk.contents), count), root, file, failing)
  {
    count' := count;
    ghost var o := Outcome(disk.contents, count);
    if EndsWith(file, Hebrew) {
      var source := Join(root, file);
      var base := BaseOf(file);
      var target := Target(root, file);
      var videoExists := VideoExists(disk, root, base);
      assert Confirmed(o.contents, root, base) <==> videoExists || Join(root, base + English) in disk.contents;
      if videoExists || Join(root, base + English) in disk.contents {
        if target !in disk.contents {
          // `shutil.copy2`: a missing source or a failing target raises
          if source in disk.contents && target !in failing {
            disk.contents := disk.contents[target := disk.contents[source]];
            count' := count + 1;
          }
        }
      }
    }
  }

  /** `apply_subtitles`: the copies made over the walk and their number. */
  method ApplySubtitles(disk: Disk, walk: seq<WalkStep>, failing: set<string>) returns (count: nat)
    modifies disk
    ensures Outcome(disk.contents, count) == StepWalk(Outcome(old(disk.contents), 0), walk, failing)
  {
    count := 0;
    ghost var start := Outcome(disk.contents, 0);
    for i := 0 to |walk|
      invariant Outcome(disk.contents, count) == StepWalk(start, walk[..i], failing)
    {
      assert walk[..i + 1][..i] == walk[..i];
      ghost var before := Outcome(disk.contents, count);
      var step := walk[i];
      for j := 0 to |step.files|
        invariant Outcome(disk.contents, count) == StepDir(before, step.root, step.files[..j], failing)
      {
        assert step.files[..j + 1][..j] == step.files[..j];
        count := ApplyFile(disk, step.root, step.files[j], failing, count);
      }
      assert step.files[..|step.files|] == step.files;
    }
    assert walk[..|walk|] == walk;
  }
}
