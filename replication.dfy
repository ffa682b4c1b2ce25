/**
 * Replication (`copy_files_thread`): every missing source file is copied to
 * the same place relative to the target folder, creating folders on the way,
 * never onto a path that already exists, and a failing copy does not stop the
 * ones after it.
 */
module Replication {
  import opened Paths
  import opened FileSystem

  /** `os.path.join(folder2, os.path.relpath(src, folder1))` */
  function Dest(folder1: Path, folder2: Path, src: Path): (d: Path)
    requires Below(folder1, src)
    ensures Below(folder2, d) && RelPath(d, folder2) == RelPath(src, folder1)
  {
    folder2 + RelPath(src, folder1)
  }

  /** The relative layout is kept: a file at folder1 + r lands at folder2 + r, and two sources never share a destination. */
  lemma DestMirrors(folder1: Path, folder2: Path, r: Path, s: Path)
    requires r != [] && Below(folder1, s)
    ensures Dest(folder1, folder2, folder1 + r) == folder2 + r
    ensures Dest(folder1, folder2, s) == folder2 + r ==> s == folder1 + r
  {
    assert (folder1 + r)[..|folder1|] == folder1;
    assert Dest(folder1, folder2, folder1 + r) == folder2 + (folder1 + r)[|folder1|..];
    assert (folder1 + r)[|folder1|..] == r;
    if Dest(folder1, folder2, s) == folder2 + r {
      assert s == folder1 + RelPath(s, folder1);
    }
  }

  /** `b` is `a` with things added: no existing file is changed or removed, no folder removed. */
  ghost predicate Grows(a: Fs, b: Fs) {
    && a.locked == b.locked
    && a.dirs <= b.dirs
    && forall p :: p in a.files ==> p in b.files && b.files[p] == a.files[p]
  }

  /**
   * Nothing is left to do for `src`: the destination folder exists or cannot
   * be created, and either the destination exists or copying there fails.
   */
  ghost predicate Settled(fs: Fs, folder1: Path, folder2: Path, src: Path)
    requires Below(folder1, src)
  {
    var dest := Dest(folder1, folder2, src);
    && (fs.Exists(DirName(dest)) || fs.MakeDirsFails(DirName(dest)))
    && (fs.Exists(dest) || fs.CopyFails(src, dest))
  }

  /** One pass of the loop body for `src`. */
  function Step(fs: Fs, folder1: Path, folder2: Path, src: Path): (r: Fs)
    requires Below(folder1, src)
    ensures fs.Valid() ==> r.Valid()
    ensures Grows(fs, r)
    ensures Settled(r, folder1, folder2, src)
    ensures forall p :: p in r.files && p !in fs.files ==>
      p == Dest(folder1, folder2, src) && fs.Readable(src) && r.files[p] == fs.files[src]
  {
    var dest := Dest(folder1, folder2, src);
    var destDir := DirName(dest);
    var made := if fs.Exists(destDir) then fs else fs.MakeDirs(destDir);
    if made.Exists(dest) then made else made.Copy2(src, dest)
  }

  /** A settled entry is skipped: running its step again changes nothing. */
  lemma StepSettledNoop(fs: Fs, folder1: Path, folder2: Path, src: Path)
    requires Below(folder1, src) && Settled(fs, folder1, folder2, src)
    ensures Step(fs, folder1, folder2, src) == fs
  {
  }

  /** The filesystem after the loop has handled each of `srcs` in order. */
  function Replicate(fs: Fs, folder1: Path, folder2: Path, srcs: seq<Path>): (r: Fs)
    requires forall s <- srcs :: Below(folder1, s)
    ensures fs.Valid() ==> r.Valid()
    ensures Grows(fs, r)
    ensures forall p :: p in r.files && p !in fs.files ==>
      exists i :: 0 <= i < |srcs| && p == Dest(folder1, folder2, srcs[i])
    decreases |srcs|
  {
    if srcs == [] then fs
    else Step(Replicate(fs, folder1, folder2, srcs[..|srcs| - 1]), folder1, folder2, srcs[|srcs| - 1])
  }

  /** Growth of the filesystem that leaves `src` itself alone keeps `src` settled. */
  lemma SettledStable(a: Fs, b: Fs, folder1: Path, folder2: Path, src: Path)
    requires Below(folder1, src) && Settled(a, folder1, folder2, src)
    requires Grows(a, b) && b.Valid() && (src in b.files ==> src in a.files)
    ensures Settled(b, folder1, folder2, src)
  {
    var dir := DirName(Dest(folder1, folder2, src));
    if a.MakeDirsFails(dir) {
      var k :| 0 <= k <= |dir| && dir[..k] in a.files;
      assert dir[..k] in b.files;
      if k == |dir| {
        assert dir[..k] == dir;
      }
      assert dir !in b.dirs;
    }
  }

  /**
   * No early exit: after the loop every entry is settled, whether or not the
   * copies before it failed. Needs the two folders apart, so that no copy
   * creates a source file.
   */
  lemma {:induction false} ReplicateSettlesAll(fs: Fs, folder1: Path, folder2: Path, srcs: seq<Path>)
    requires forall s <- srcs :: Below(folder1, s)
    requires fs.Valid() && Apart(folder1, folder2)
    ensures forall i :: 0 <= i < |srcs| ==> Settled(Replicate(fs, folder1, folder2, srcs), folder1, folder2, srcs[i])
    decreases |srcs|
  {
    if srcs != [] {
      var init := srcs[..|srcs| - 1];
      var last := srcs[|srcs| - 1];
      assert forall s <- init :: s in srcs;
      var mid := Replicate(fs, folder1, folder2, init);
      var r := Step(mid, folder1, folder2, last);
      ReplicateSettlesAll(fs, folder1, folder2, init);
      forall i | 0 <= i < |srcs|
        ensures Settled(r, folder1, folder2, srcs[i])
      {
        if i < |srcs| - 1 {
          assert srcs[i] == init[i];
          var dest := Dest(folder1, folder2, last);
          ApartBelowDistinct(folder1, folder2, srcs[i], dest);
          SettledStable(mid, r, folder1, folder2, srcs[i]);
        }
      }
    }
  }

  /** When every entry is settled the loop changes nothing. */
  lemma {:induction false} ReplicateSettledNoop(fs: Fs, folder1: Path, folder2: Path, srcs: seq<Path>)
    requires forall s <- srcs :: Below(folder1, s)
    requires forall s <- srcs :: Settled(fs, folder1, folder2, s)
    ensures Replicate(fs, folder1, folder2, srcs) == fs
    decreases |srcs|
  {
    if srcs != [] {
      var init := srcs[..|srcs| - 1];
      assert forall s <- init :: s in srcs;
      ReplicateSettledNoop(fs, folder1, folder2, init);
      StepSettledNoop(fs, folder1, folder2, srcs[|srcs| - 1]);
    }
  }

  /**
   * Idempotence: copying the same list a second time leaves the filesystem
   * as the first run left it (everything copied is skipped as existing, and
   * what failed fails again on the unchanged state).
   */
  lemma ReplicateIdempotent(fs: Fs, folder1: Path, folder2: Path, srcs: seq<Path>)
    requires forall s <- srcs :: Below(folder1, s)
    requires fs.Valid() && Apart(folder1, folder2)
    ensures var once := Replicate(fs, folder1, folder2, srcs);
      Replicate(once, folder1, folder2, srcs) == once
  {
    var once := Replicate(fs, folder1, folder2, srcs);
    ReplicateSettlesAll(fs, folder1, folder2, srcs);
    forall s <- srcs
      ensures Settled(once, folder1, folder2, s)
    {
      var i :| 0 <= i < |srcs| && srcs[i] == s;
    }
    ReplicateSettledNoop(once, folder1, folder2, srcs);
  }

  /** The file at `p` was copied by the loop from entry `i` of `srcs`, with the bytes `fs` held for it. */
  ghost predicate CopiedFrom(fs: Fs, r: Fs, folder1: Path, folder2: Path, srcs: seq<Path>, i: int, p: Path)
    requires forall s <- srcs :: Below(folder1, s)
  {
    && 0 <= i < |srcs|
    && p == Dest(folder1, folder2, srcs[i])
    && fs.Readable(srcs[i])
    && p in r.files && r.files[p] == fs.files[srcs[i]]
  }

  /**
   * Every file the loop creates is a copy: it sits at the destination of a
   * readable source and holds that source's bytes as they were before the loop.
   */
  lemma {:induction false} ReplicateCopiesContent(fs: Fs, folder1: Path, folder2: Path, srcs: seq<Path>, p: Path)
    requires forall s <- srcs :: Below(folder1, s)
    requires Apart(folder1, folder2)
    requires p in Replicate(fs, folder1, folder2, srcs).files && p !in fs.files
    ensures exists i :: CopiedFrom(fs, Replicate(fs, folder1, folder2, srcs), folder1, folder2, srcs, i, p)
    decreases |srcs|
  {
    var init := srcs[..|srcs| - 1];
    var last := srcs[|srcs| - 1];
    assert forall s <- init :: s in srcs;
    var mid := Replicate(fs, folder1, folder2, init);
    var r := Step(mid, folder1, folder2, last);
    if p in mid.files {
      ReplicateCopiesContent(fs, folder1, folder2, init, p);
      var i :| CopiedFrom(fs, mid, folder1, folder2, init, i, p);
      assert srcs[i] == init[i];
      assert CopiedFrom(fs, r, folder1, folder2, srcs, i, p);
    } else {
      assert p == Dest(folder1, folder2, last) && mid.Readable(last) && r.files[p] == mid.files[last];
      if last !in fs.files {
        var j :| 0 <= j < |init| && last == Dest(folder1, folder2, init[j]);
        ApartBelowDistinct(folder1, folder2, last, last);
      }
      assert CopiedFrom(fs, r, folder1, folder2, srcs, |srcs| - 1, p);
    }
  }
}
