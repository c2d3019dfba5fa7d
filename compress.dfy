// Re-encoding the downloaded videos (compress_all_videos_gpu.py): each
// video is encoded to a temporary file beside it, which replaces the
// original only when it is smaller. The disk is a `Disk` object mapping
// paths to file sizes; what the encoder does is an input.

module Compress {
  import opened Base
  import opened Walk

  const TempPrefix := "temp_compressed_"

  /** The files on disk with their sizes. */
  class Disk {
    var sizes: map<string, nat>

    constructor (sizes: map<string, nat>)
      ensures this.sizes == sizes
    {
      this.sizes := sizes;
    }
  }

  /** `temp_compressed_<name>` in the directory of `path`. */
  function TempPath(path: string): (r: string)
    ensures |r| == |path| + |TempPrefix|
    ensures Contains(r, TempPrefix)
  {
    var k := LastIndex(path, '/');
    ContainsInside(path[..k + 1], TempPrefix, path[k + 1..]);
    path[..k + 1] + TempPrefix + path[k + 1..]
  }

  /** What one run of the encoder did: whether it raised, and the size of
      the temporary file it left (`None`: no file). */
  datatype Encode = Encode(raised: bool, output: Option<nat>)

  /** The disk after one call and the call's result. */
  datatype Result = Result(sizes: map<string, nat>, ok: bool)

  /** No file is added and none grows. */
  predicate Shrinks(before: map<string, nat>, after: map<string, nat>)
  {
    after.Keys <= before.Keys && forall p | p in after :: after[p] <= before[p]
  }

  /** `compress_video_gpu`: a path with the temporary prefix is skipped;
      otherwise the encoder writes the temporary file, the original is
      replaced by it when it is there, not empty and smaller, and the
      temporary file is removed on every other path. */
  function Compressed(sizes: map<string, nat>, input: string, enc: Encode): Result
  {
    if Contains(input, TempPrefix) then Result(sizes, false)
    else
      var temp := TempPath(input);
      var after := if enc.output.Some? then sizes[temp := enc.output.value] else sizes - {temp};
      if !enc.raised && enc.output.Some? && enc.output.value > 0 && input in after && enc.output.value < after[input] then
        Result((after - {temp})[input := enc.output.value], true)
      else
        Result(after - {temp}, false)
  }

  /** `p` is where it was, with the same size. */
  predicate Untouched(before: map<string, nat>, after: map<string, nat>, p: string)
  {
    (p in after <==> p in before) && (p in before ==> after[p] == before[p])
  }

  /** The result is true exactly when the original got smaller (and it is
      never emptied); otherwise the original is as it was; the temporary
      file is gone; no other file changes; nothing is added or grows. */
  lemma CompressedSpec(sizes: map<string, nat>, input: string, enc: Encode)
    ensures var r := Compressed(sizes, input, enc);
      (Contains(input, TempPrefix) ==> r == Result(sizes, false))
      && (r.ok <==> !Contains(input, TempPrefix) && input in sizes && input in r.sizes && r.sizes[input] < sizes[input])
      && (r.ok ==> r.sizes[input] > 0)
      && (!r.ok ==> Untouched(sizes, r.sizes, input))
      && (!Contains(input, TempPrefix) ==> TempPath(input) !in r.sizes)
      && (forall p | p != input && p != TempPath(input) :: Untouched(sizes, r.sizes, p))
      && Shrinks(sizes, r.sizes)
  {
    if !Contains(input, TempPrefix) {
      var temp := TempPath(input);
      assert temp != input;
      var after := if enc.output.Some? then sizes[temp := enc.output.value] else sizes - {temp};
      assert temp !in sizes ==> temp !in after || enc.output.Some?;
      assert forall p | p != temp :: Untouched(sizes, after, p);
      if !enc.raised && enc.output.Some? && enc.output.value > 0 && input in after && enc.output.value < after[input] {
        assert Compressed(sizes, input, enc).sizes == (after - {temp})[input := enc.output.value];
      } else {
        assert Compressed(sizes, input, enc).sizes == after - {temp};
      }
    }
  }

  /** `compress_video_gpu` step by step on the disk. */
  method CompressVideo(disk: Disk, input: string, enc: Encode) returns (ok: bool)
    modifies disk
    ensures Result(disk.sizes, ok) == Compressed(old(disk.sizes), input, enc)
  {
    if Contains(input, TempPrefix) {
      return false;
    }
    var temp := TempPath(input);
    // the encoder writes the temporary file, or leaves none
    if enc.output.Some? {
      disk.sizes := disk.sizes[temp := enc.output.value];
    } else {
      disk.sizes := disk.sizes - {temp};
    }
    if enc.raised {
      if temp in disk.sizes {
        disk.sizes := disk.sizes - {temp};
      }
      return false;
    }
    if temp in disk.sizes && disk.sizes[temp] > 0 {
      if input !in disk.sizes {
        // `getsize` on the original raises
        disk.sizes := disk.sizes - {temp};
        return false;
      }
      var origSize := disk.sizes[input];
      var newSize := disk.sizes[temp];
      if newSize < origSize {
        disk.sizes := disk.sizes - {input};
        disk.sizes := (disk.sizes - {temp})[input := newSize];
        return true;
      }
      disk.sizes := disk.sizes - {temp};
      return false;
    }
    if temp in disk.sizes {
      disk.sizes := disk.sizes - {temp};
    }
    return false;
  }

  /** `filename.lower().endswith(".mp4")`. */
  predicate IsMp4(name: string)
  {
    EndsWith(Lower(name), ".mp4")
  }

  /** The disk after a batch and the number of videos replaced. */
  datatype Batch = Batch(sizes: map<string, nat>, count: nat)

  /** The calls of `batch_compress_gpu` over `videos` in order, with
      `encode(path)` what the encoder does for that video. */
  function CompressAll(sizes: map<string, nat>, videos: seq<string>, encode: string -> Encode): (r: Batch)
    ensures r.count <= |videos|
  {
    if videos == [] then Batch(sizes, 0)
    else
      var n := |videos| - 1;
      var prev := CompressAll(sizes, videos[..n], encode);
      var c := Compressed(prev.sizes, videos[n], encode(videos[n]));
      Batch(c.sizes, prev.count + if c.ok then 1 else 0)
  }

  /** `batch_compress_gpu`: the `.mp4` files of the walk are compressed one
      after another; the result is the number replaced and the number
      found. */
  method BatchCompress(disk: Disk, walk: seq<WalkStep>, encode: string -> Encode) returns (successCount: nat, total: nat)
    modifies disk
    ensures total == |Found(walk, IsMp4)|
    ensures Batch(disk.sizes, successCount) == CompressAll(old(disk.sizes), Found(walk, IsMp4), encode)
  {
    var videos := CollectFiles(walk, IsMp4);
    total := |videos|;
    successCount := 0;
    ghost var start := disk.sizes;
    for i := 0 to |videos|
      invariant Batch(disk.sizes, successCount) == CompressAll(start, videos[..i], encode)
    {
      assert videos[..i + 1][..i] == videos[..i];
      var ok := CompressVideo(disk, videos[i], encode(videos[i]));
      if ok {
        successCount := successCount + 1;
      }
    }
    assert videos[..|videos|] == videos;
  }

  /** The files whose size went down. */
  function Shrunk(before: map<string, nat>, after: map<string, nat>): set<string>
  {
    set p | p in after && p in before && after[p] < before[p]
  }

  lemma ShrinksTrans(a: map<string, nat>, b: map<string, nat>, c: map<string, nat>)
    requires Shrinks(a, b) && Shrinks(b, c)
    ensures Shrinks(a, c)
  {
  }

  /** A batch adds no file and grows none. */
  lemma {:induction false} BatchShrinks(sizes: map<string, nat>, videos: seq<string>, encode: string -> Encode)
    ensures Shrinks(sizes, CompressAll(sizes, videos, encode).sizes)
  {
    if videos != [] {
      var n := |videos| - 1;
      var prev := CompressAll(sizes, videos[..n], encode);
      BatchShrinks(sizes, videos[..n], encode);
      CompressedSpec(prev.sizes, videos[n], encode(videos[n]));
      ShrinksTrans(sizes, prev.sizes, Compressed(prev.sizes, videos[n], encode(videos[n])).sizes);
    }
  }

  /** A batch leaves alone every file that is neither one of its videos
      nor a temporary file. */
  lemma {:induction false} BatchUntouched(sizes: map<string, nat>, videos: seq<string>, encode: string -> Encode)
    ensures forall p | p !in videos && !Contains(p, TempPrefix) ::
              Untouched(sizes, CompressAll(sizes, videos, encode).sizes, p)
  {
    if videos != [] {
      var n := |videos| - 1;
      var init := videos[..n];
      var v := videos[n];
      var prev := CompressAll(sizes, init, encode);
      BatchUntouched(sizes, init, encode);
      CompressedSpec(prev.sizes, v, encode(v));
      var after := Compressed(prev.sizes, v, encode(v)).sizes;
      assert CompressAll(sizes, videos, encode).sizes == after;
      forall p | p !in videos && !Contains(p, TempPrefix) ensures Untouched(sizes, after, p) {
        assert p !in init && p != v && p != TempPath(v);
        assert Untouched(sizes, prev.sizes, p);
      }
    }
  }

  /** One call adds its video to the files that got smaller exactly when
      it succeeds. */
  lemma ShrunkStep(sizes: map<string, nat>, mid: map<string, nat>, after: map<string, nat>, v: string, ok: bool)
    requires Untouched(sizes, mid, v)
    requires forall p | p in Shrunk(sizes, mid) :: p != v && !Contains(p, TempPrefix)
    requires ok <==> v in mid && v in after && after[v] < mid[v]
    requires !ok ==> Untouched(mid, after, v)
    requires forall p | p != v && p != TempPath(v) :: Untouched(mid, after, p)
    requires TempPath(v) !in after
    ensures Shrunk(sizes, after) == Shrunk(sizes, mid) + (if ok then {v} else {})
  {
    var before := Shrunk(sizes, mid);
    var now := Shrunk(sizes, after);
    forall p | p in now ensures p in before + (if ok then {v} else {}) {
      if p != v {
        assert Untouched(mid, after, p);
      }
    }
    forall p | p in before ensures p in now {
      assert Untouched(mid, after, p);
    }
  }

  /** Over a batch of distinct videos none of which is a temporary file,
      the count is exactly the number of videos that got smaller. */
  lemma {:induction false} BatchCountsShrunk(sizes: map<string, nat>, videos: seq<string>, encode: string -> Encode)
    requires forall i, j | 0 <= i < j < |videos| :: videos[i] != videos[j]
    requires forall i | 0 <= i < |videos| :: !Contains(videos[i], TempPrefix)
    ensures var r := CompressAll(sizes, videos, encode);
      (forall p | p in Shrunk(sizes, r.sizes) :: p in videos) && |Shrunk(sizes, r.sizes)| == r.count
  {
    if videos != [] {
      var n := |videos| - 1;
      var init := videos[..n];
      var v := videos[n];
      BatchCountsShrunk(sizes, init, encode);
      BatchUntouched(sizes, init, encode);
      var prev := CompressAll(sizes, init, encode);
      var c := Compressed(prev.sizes, v, encode(v));
      CompressedSpec(prev.sizes, v, encode(v));
      assert CompressAll(sizes, videos, encode) == Batch(c.sizes, prev.count + if c.ok then 1 else 0);
      assert v !in init;
      assert Untouched(sizes, prev.sizes, v);
      var before := Shrunk(sizes, prev.sizes);
      ShrunkStep(sizes, prev.sizes, c.sizes, v, c.ok);
      CardAdd(before, v);
    }
  }
}
