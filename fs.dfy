/** The directory tree the scraper works in, as a map from paths to entries.
    A path is the sequence of its names from the download root; a directory
    owns every key that extends its path.  `mkdir -p`, `rmtree` and
    `shutil.move` are map operations on whole subtrees. */
module Fs {
  import opened Base

  type Name = string
  type Path = seq<Name>

  datatype Entry = File(size: nat) | Dir

  type FileSystem = map<Path, Entry>

  /** `k` is `p` or lies inside `p`. */
  predicate Under(p: Path, k: Path)
  {
    |p| <= |k| && k[..|p|] == p
  }

  function Parent(p: Path): Path
    requires |p| >= 1
  {
    p[..|p| - 1]
  }

  /** Every entry has a non-empty path, and every entry below the top level
      sits in a directory that exists. */
  predicate WellFormed(fs: FileSystem)
  {
    forall k | k in fs :: |k| >= 1 && (|k| > 1 ==> k[..|k| - 1] in fs && fs[k[..|k| - 1]] == Dir)
  }

  predicate IsDir(fs: FileSystem, p: Path) { p in fs && fs[p].Dir? }

  predicate IsFile(fs: FileSystem, p: Path) { p in fs && fs[p].File? }

  /** `p.exists() and p.stat().st_size > 0` for a regular file. */
  predicate IsNonEmptyFile(fs: FileSystem, p: Path) { p in fs && fs[p].File? && fs[p].size > 0 }

  lemma UnderTrans(a: Path, b: Path, c: Path)
    ensures Under(a, b) && Under(b, c) ==> Under(a, c)
  {
    if Under(a, b) && Under(b, c) {
      assert c[..|a|] == c[..|b|][..|a|];
    }
  }

  /** Two paths that both contain a third are nested one in the other. */
  lemma UnderBoth(a: Path, b: Path, k: Path)
    ensures Under(a, k) && Under(b, k) ==> Under(a, b) || Under(b, a)
  {
    if Under(a, k) && Under(b, k) {
      if |a| <= |b| {
        assert b[..|a|] == k[..|a|];
      } else {
        assert a[..|b|] == k[..|b|];
      }
    }
  }

  /** Nothing lies inside a directory that does not exist. */
  lemma {:induction false} NotUnderAbsent(fs: FileSystem, d: Path, k: Path)
    requires WellFormed(fs) && |d| >= 1 && d !in fs && k in fs
    ensures !Under(d, k)
    decreases |k|
  {
    assert k[..|k|] == k;
    if Under(d, k) && |k| > |d| {
      var p := k[..|k| - 1];
      assert p[..|d|] == k[..|d|];
      NotUnderAbsent(fs, d, p);
    }
  }

  lemma NothingUnderAbsent(fs: FileSystem, d: Path)
    requires WellFormed(fs) && |d| >= 1 && d !in fs
    ensures forall k | k in fs :: !Under(d, k)
  {
    forall k | k in fs
      ensures !Under(d, k)
    {
      NotUnderAbsent(fs, d, k);
    }
  }

  // ---------------------------------------------------------------------
  // rmtree
  // ---------------------------------------------------------------------

  /** `shutil.rmtree(p)` (or `unlink` of a file): drops `p` and everything
      inside it. */
  function Remove(fs: FileSystem, p: Path): (r: FileSystem)
    ensures forall k :: k in r <==> k in fs && !Under(p, k)
    ensures forall k | k in r :: r[k] == fs[k]
  {
    map k | k in fs && !Under(p, k) :: fs[k]
  }

  lemma RemoveWellFormed(fs: FileSystem, p: Path)
    requires WellFormed(fs)
    ensures WellFormed(Remove(fs, p))
  {
    var r := Remove(fs, p);
    forall k | k in r && |k| > 1
      ensures k[..|k| - 1] in r
    {
      var q := k[..|k| - 1];
      assert |p| <= |q| ==> k[..|p|] == q[..|p|];
    }
  }

  /** Writing a file in an existing directory, over nothing or over a
      file, keeps the tree well formed. */
  lemma WriteWellFormed(fs: FileSystem, p: Path, size: nat)
    requires WellFormed(fs) && |p| >= 1 && (|p| > 1 ==> IsDir(fs, Parent(p)))
    requires p !in fs || fs[p].File?
    ensures WellFormed(fs[p := File(size)])
  {
    var r := fs[p := File(size)];
    forall k | k in r && |k| > 1
      ensures k[..|k| - 1] in r && r[k[..|k| - 1]] == Dir
    {
      if k != p {
        assert k[..|k| - 1] != p;
      }
    }
  }

  /** `unlink` of a file: a file has nothing below it. */
  lemma UnlinkWellFormed(fs: FileSystem, p: Path)
    requires WellFormed(fs) && IsFile(fs, p)
    ensures WellFormed(fs - {p})
  {
  }

  // ---------------------------------------------------------------------
  // mkdir(parents=True, exist_ok=True)
  // ---------------------------------------------------------------------

  function Prefixes(p: Path): set<Path>
  {
    set i | 1 <= i <= |p| :: p[..i]
  }

  /** No prefix of `p` is a file, so `mkdir -p` cannot fail. */
  predicate NoFileOnPath(fs: FileSystem, p: Path)
  {
    forall i | 1 <= i <= |p| :: p[..i] !in fs || fs[p[..i]] == Dir
  }

  /** `p.mkdir(parents=True, exist_ok=True)`: create every missing prefix. */
  function MkDirs(fs: FileSystem, p: Path): (r: FileSystem)
    ensures forall k :: k in r <==> k in fs || k in Prefixes(p)
    ensures forall k | k in fs :: r[k] == fs[k]
    ensures forall k | k in r && k !in fs :: r[k] == Dir
  {
    map k | k in fs.Keys + Prefixes(p) :: if k in fs then fs[k] else Dir
  }

  lemma MkDirsWellFormed(fs: FileSystem, p: Path)
    requires WellFormed(fs) && |p| >= 1 && NoFileOnPath(fs, p)
    ensures WellFormed(MkDirs(fs, p)) && IsDir(MkDirs(fs, p), p)
  {
    var r := MkDirs(fs, p);
    forall k | k in r
      ensures |k| >= 1 && (|k| > 1 ==> k[..|k| - 1] in r && r[k[..|k| - 1]] == Dir)
    {
      if k !in fs {
        var i :| 1 <= i <= |p| && k == p[..i];
        if i > 1 {
          assert k[..|k| - 1] == p[..i - 1];
        }
      }
    }
    assert p == p[..|p|];
  }

  /** `mkdir -p` leaves everything already present as it was. */
  lemma MkDirsExisting(fs: FileSystem, p: Path)
    requires WellFormed(fs) && IsDir(fs, p)
    ensures MkDirs(fs, p) == fs
  {
    var r := MkDirs(fs, p);
    forall k | k in Prefixes(p)
      ensures k in fs
    {
      var i :| 1 <= i <= |p| && k == p[..i];
      PrefixOfExisting(fs, p, i);
    }
    assert r.Keys == fs.Keys;
  }

  lemma {:induction false} PrefixOfExisting(fs: FileSystem, p: Path, i: int)
    requires WellFormed(fs) && p in fs && 1 <= i <= |p|
    ensures p[..i] in fs
    decreases |p| - i
  {
    if i < |p| {
      var q := p[..|p| - 1];
      assert q[..i] == p[..i];
      PrefixOfExisting(fs, q, i);
    } else {
      assert p[..i] == p;
    }
  }

  /** Every entry of `fs` is still in `fs'` unchanged: only new entries were
      added. */
  predicate Extends(fs: FileSystem, fs': FileSystem)
  {
    forall p | p in fs :: p in fs' && fs'[p] == fs[p]
  }

  /** An existing directory of a well-formed tree has only directories on
      its way, so `mkdir -p` on it again cannot fail. */
  lemma DirNoFileOnPath(fs: FileSystem, p: Path)
    requires WellFormed(fs) && IsDir(fs, p)
    ensures NoFileOnPath(fs, p)
  {
    forall i | 1 <= i <= |p|
      ensures p[..i] in fs && fs[p[..i]] == Dir
    {
      if i < |p| {
        PrefixOfExisting(fs, p, i + 1);
        assert p[..i + 1][..i] == p[..i];
      } else {
        assert p[..i] == p;
      }
    }
  }

  // ---------------------------------------------------------------------
  // shutil.move
  // ---------------------------------------------------------------------

  /** The conditions under which `shutil.move(src, dst)` renames: the source
      exists, the destination does not but its directory does, and the
      destination is not inside the source (moving a directory into itself
      raises). */
  predicate CanMove(fs: FileSystem, src: Path, dst: Path)
  {
    WellFormed(fs) && src in fs && dst !in fs && |dst| >= 1 && !Under(src, dst)
    && (|dst| > 1 ==> IsDir(fs, Parent(dst)))
  }

  /** The path that `k`, inside `src`, has after `src` is renamed to `dst`. */
  function Rebase(src: Path, dst: Path, k: Path): Path
    requires Under(src, k)
  {
    dst + k[|src|..]
  }

  lemma RebaseInjective(src: Path, dst: Path)
    ensures forall j1, j2 | Under(src, j1) && Under(src, j2) && Rebase(src, dst, j1) == Rebase(src, dst, j2) :: j1 == j2
  {
    forall j1, j2 | Under(src, j1) && Under(src, j2) && Rebase(src, dst, j1) == Rebase(src, dst, j2)
      ensures j1 == j2
    {
      assert j1[|src|..] == Rebase(src, dst, j1)[|dst|..];
      assert j2[|src|..] == Rebase(src, dst, j2)[|dst|..];
      assert j1 == j1[..|src|] + j1[|src|..];
      assert j2 == j2[..|src|] + j2[|src|..];
    }
  }

  /** The subtree of `src`, renamed to live under `dst`. */
  function Rebased(fs: FileSystem, src: Path, dst: Path): FileSystem
  {
    RebaseInjective(src, dst);
    map j | j in fs && Under(src, j) :: Rebase(src, dst, j) := fs[j]
  }

  /** `shutil.move(src, dst)`: the whole subtree of `src` now lives under
      `dst`; every other entry is untouched. */
  function Move(fs: FileSystem, src: Path, dst: Path): (r: FileSystem)
    requires CanMove(fs, src, dst)
  {
    Remove(fs, src) + Rebased(fs, src, dst)
  }

  lemma RebasedUnderDst(fs: FileSystem, src: Path, dst: Path, k: Path)
    requires k in Rebased(fs, src, dst)
    ensures Under(dst, k) && Under(src, src + k[|dst|..]) && src + k[|dst|..] in fs
    ensures Rebased(fs, src, dst)[k] == fs[src + k[|dst|..]]
  {
    var j :| j in fs && Under(src, j) && Rebase(src, dst, j) == k;
    assert k[..|dst|] == dst;
    assert k[|dst|..] == j[|src|..];
    assert j == src + j[|src|..];
    RebasedContains(fs, src, dst, j);
  }

  lemma RebasedContains(fs: FileSystem, src: Path, dst: Path, j: Path)
    requires j in fs && Under(src, j)
    ensures Rebase(src, dst, j) in Rebased(fs, src, dst)
    ensures Rebased(fs, src, dst)[Rebase(src, dst, j)] == fs[j]
  {
    RebaseInjective(src, dst);
  }

  /** A renamed entry lies under `dst`, not under `src`, and carries the
      entry it was renamed from. */
  lemma RebasedKey(fs: FileSystem, src: Path, dst: Path, k: Path)
    requires CanMove(fs, src, dst) && k in Rebased(fs, src, dst)
    ensures Under(dst, k) && !Under(src, k) && src + k[|dst|..] in fs
    ensures Rebased(fs, src, dst)[k] == fs[src + k[|dst|..]]
  {
    RebasedUnderDst(fs, src, dst, k);
    NotUnderAbsent(fs, dst, src);
    UnderBoth(src, dst, k);
  }

  lemma RebasedKeys(fs: FileSystem, src: Path, dst: Path)
    requires CanMove(fs, src, dst)
    ensures forall k | k in Rebased(fs, src, dst) ::
              Under(dst, k) && !Under(src, k) && src + k[|dst|..] in fs
              && Rebased(fs, src, dst)[k] == fs[src + k[|dst|..]]
  {
    forall k | k in Rebased(fs, src, dst)
      ensures Under(dst, k) && !Under(src, k) && src + k[|dst|..] in fs
      ensures Rebased(fs, src, dst)[k] == fs[src + k[|dst|..]]
    {
      RebasedKey(fs, src, dst, k);
    }
  }

  /** What a move does, entry by entry. */
  lemma MoveEffect(fs: FileSystem, src: Path, dst: Path)
    requires CanMove(fs, src, dst)
    ensures var r := Move(fs, src, dst);
            && (forall k | k in fs && !Under(src, k) :: k in r && r[k] == fs[k])
            && (forall k | k in fs && Under(src, k) :: k !in r)
            && (forall j | j in fs && Under(src, j) :: Rebase(src, dst, j) in r && r[Rebase(src, dst, j)] == fs[j])
            && (forall k | k in r :: (k in fs && !Under(src, k)) || (Under(dst, k) && src + k[|dst|..] in fs))
            && dst in r && r[dst] == fs[src]
  {
    NothingUnderAbsent(fs, dst);
    RebasedKeys(fs, src, dst);
    forall j | j in fs && Under(src, j)
      ensures Rebase(src, dst, j) in Move(fs, src, dst)
      ensures Move(fs, src, dst)[Rebase(src, dst, j)] == fs[j]
    {
      RebasedContains(fs, src, dst, j);
    }
    assert Under(src, src);
    assert Rebase(src, dst, src) == dst;
  }

  /** The directory that receives `dst` is still there after the move. */
  lemma MoveKeepsDstParent(fs: FileSystem, src: Path, dst: Path)
    requires CanMove(fs, src, dst) && |dst| > 1
    ensures Parent(dst) in Move(fs, src, dst) && Move(fs, src, dst)[Parent(dst)] == Dir
  {
    var q := Parent(dst);
    UnderTrans(src, q, dst);
    assert Under(q, dst);
    assert !Under(src, q);
    assert q in Remove(fs, src);
    NothingUnderAbsent(fs, dst);
    RebasedKeys(fs, src, dst);
    assert q !in Rebased(fs, src, dst);
  }

  lemma RebaseBack(src: Path, dst: Path, k: Path)
    requires Under(dst, k)
    ensures Under(src, src + k[|dst|..]) && Rebase(src, dst, src + k[|dst|..]) == k
  {
    var j := src + k[|dst|..];
    assert j[..|src|] == src;
    assert j[|src|..] == k[|dst|..];
    assert k == k[..|dst|] + k[|dst|..];
  }

  /** The parent of a renamed entry below `dst` is itself renamed and a
      directory. */
  lemma MoveParentOfRenamed(fs: FileSystem, src: Path, dst: Path, k: Path)
    requires CanMove(fs, src, dst) && k in Rebased(fs, src, dst) && |k| > |dst|
    ensures k[..|k| - 1] in Move(fs, src, dst) && Move(fs, src, dst)[k[..|k| - 1]] == Dir
  {
    RenamedParent(fs, src, dst, k);
    UnionRight(Remove(fs, src), Rebased(fs, src, dst), k[..|k| - 1]);
  }

  /** The parent of a renamed entry below `dst` is a renamed directory. */
  lemma RenamedParent(fs: FileSystem, src: Path, dst: Path, k: Path)
    requires CanMove(fs, src, dst) && k in Rebased(fs, src, dst) && |k| > |dst|
    ensures k[..|k| - 1] in Rebased(fs, src, dst) && Rebased(fs, src, dst)[k[..|k| - 1]] == Dir
  {
    RebasedKey(fs, src, dst, k);
    var p := k[..|k| - 1];
    BackOfParent(src, dst, k);
    ParentIsDir(fs, src + k[|dst|..]);
    RebaseBack(src, dst, p);
    RebasedContains(fs, src, dst, src + p[|dst|..]);
  }

  /** Renaming back the parent of `k` gives the parent of `k` renamed back. */
  lemma BackOfParent(src: Path, dst: Path, k: Path)
    requires |src| >= 1 && Under(dst, k) && |k| > |dst|
    ensures Under(dst, k[..|k| - 1]) && |src + k[|dst|..]| > 1
    ensures src + k[..|k| - 1][|dst|..] == Parent(src + k[|dst|..])
  {
    assert k[..|k| - 1][|dst|..] == k[|dst|..][..|k| - 1 - |dst|];
  }

  /** In a well-formed tree the parent of an entry is a directory. */
  lemma ParentIsDir(fs: FileSystem, j: Path)
    requires WellFormed(fs) && j in fs && |j| > 1
    ensures Parent(j) in fs && fs[Parent(j)] == Dir
  {
  }

  /** An entry of the right-hand map wins a map union. */
  lemma UnionRight(a: FileSystem, b: FileSystem, x: Path)
    requires x in b
    ensures x in a + b && (a + b)[x] == b[x]
  {
  }

  /** The parent of an entry that stays put is a directory after the move. */
  lemma MoveParentOfKept(fs: FileSystem, src: Path, dst: Path, k: Path)
    requires CanMove(fs, src, dst) && k in fs && !Under(src, k) && |k| > 1
    ensures k[..|k| - 1] in Move(fs, src, dst) && Move(fs, src, dst)[k[..|k| - 1]] == Dir
  {
    var q := k[..|k| - 1];
    assert q in fs && fs[q] == Dir;
    assert !Under(src, q) by {
      assert |src| <= |q| ==> k[..|src|] == q[..|src|];
    }
    MoveEffect(fs, src, dst);
  }

  /** A move keeps the tree well formed. */
  lemma MoveWellFormed(fs: FileSystem, src: Path, dst: Path)
    requires CanMove(fs, src, dst)
    ensures WellFormed(Move(fs, src, dst))
  {
    var r := Move(fs, src, dst);
    MoveEffect(fs, src, dst);
    forall k | k in r
      ensures |k| >= 1 && (|k| > 1 ==> k[..|k| - 1] in r && r[k[..|k| - 1]] == Dir)
    {
      if k in Rebased(fs, src, dst) {
        RebasedKey(fs, src, dst, k);
        if |k| > |dst| {
          MoveParentOfRenamed(fs, src, dst, k);
        } else if |k| > 1 {
          assert k == dst;
          MoveKeepsDstParent(fs, src, dst);
        }
      } else if |k| > 1 {
        MoveParentOfKept(fs, src, dst, k);
      }
    }
  }

  // ---------------------------------------------------------------------
  // Where a change can put files
  // ---------------------------------------------------------------------

  /** Going from `fs` to `fs'` puts no file on a path that avoids `d`: a
      path outside `d` that `mkdir -p` could create before still can. */
  ghost predicate ConfinedTo(fs: FileSystem, fs': FileSystem, d: Path)
  {
    forall p {:trigger Outside(d, p)} | Outside(d, p) && NoFileOnPath(fs, p) :: NoFileOnPath(fs', p)
  }

  /** `p` is not at or below `d`. */
  predicate Outside(d: Path, p: Path)
  {
    !Under(d, p)
  }

  lemma ConfinedTrans(fs: FileSystem, fs1: FileSystem, fs2: FileSystem, d: Path)
    requires ConfinedTo(fs, fs1, d) && ConfinedTo(fs1, fs2, d)
    ensures ConfinedTo(fs, fs2, d)
  {
    forall p | Outside(d, p) && NoFileOnPath(fs, p)
      ensures NoFileOnPath(fs2, p)
    {
      assert NoFileOnPath(fs1, p);
    }
  }

  /** Confinement to a path is confinement to any directory holding it. */
  lemma ConfinedWiden(fs: FileSystem, fs': FileSystem, d: Path, e: Path)
    requires ConfinedTo(fs, fs', e) && Under(d, e)
    ensures ConfinedTo(fs, fs', d)
  {
    forall p | Outside(d, p) && NoFileOnPath(fs, p)
      ensures NoFileOnPath(fs', p)
    {
      UnderTrans(d, e, p);
      assert Outside(e, p);
    }
  }

  /** `mkdir -p` and writing one file at `t` put files only at `t`. */
  lemma WriteConfined(fs: FileSystem, q: Path, t: Path, size: nat)
    ensures ConfinedTo(fs, MkDirs(fs, q)[t := File(size)], t)
  {
    var r := MkDirs(fs, q)[t := File(size)];
    forall p | Outside(t, p) && NoFileOnPath(fs, p)
      ensures NoFileOnPath(r, p)
    {
      forall i | 1 <= i <= |p| && p[..i] in r
        ensures r[p[..i]] == Dir
      {
        assert p[..i] != t;
      }
    }
  }

  lemma MkDirsConfined(fs: FileSystem, q: Path, d: Path)
    ensures ConfinedTo(fs, MkDirs(fs, q), d)
  {
  }

  /** A move puts files only inside its destination. */
  lemma MoveConfined(fs: FileSystem, src: Path, dst: Path)
    requires CanMove(fs, src, dst)
    ensures ConfinedTo(fs, Move(fs, src, dst), dst)
  {
    var r := Move(fs, src, dst);
    forall p | Outside(dst, p) && NoFileOnPath(fs, p)
      ensures NoFileOnPath(r, p)
    {
      forall i | 1 <= i <= |p| && p[..i] in r
        ensures r[p[..i]] == Dir
      {
        PrefixOutside(dst, p, i);
        MoveKeepsOutside(fs, src, dst, p[..i]);
      }
    }
  }

  /** Every prefix of a path outside `d` is outside `d`. */
  lemma PrefixOutside(d: Path, p: Path, i: int)
    requires !Under(d, p) && 0 <= i <= |p|
    ensures !Under(d, p[..i])
  {
    if |d| <= i {
      assert p[..i][..|d|] == p[..|d|];
    }
  }

  /** An entry after a move that is not under `dst` was there before, with
      the same kind. */
  lemma MoveKeepsOutside(fs: FileSystem, src: Path, dst: Path, k: Path)
    requires CanMove(fs, src, dst) && k in Move(fs, src, dst) && !Under(dst, k)
    ensures k in fs && Move(fs, src, dst)[k] == fs[k]
  {
    MoveEffect(fs, src, dst);
  }
}
