/**
 * The part of the operating system the engine touches: regular files with
 * their bytes, directories, and the paths the process may not open
 * (permission denied). `os.path.exists`, `open(..., "rb")`, `os.makedirs` and
 * `shutil.copy2` are stated over this state.
 */
module FileSystem {
  import opened Paths

  newtype byte = b: int | 0 <= b < 256
  type Bytes = seq<byte>

  datatype Fs = Fs(files: map<Path, Bytes>, dirs: set<Path>, locked: set<Path>) {

    /**
     * A tree a disk can hold: no path is both a regular file and a directory,
     * and every folder above a file or a folder is a directory.
     */
    predicate Valid() {
      && files.Keys !! dirs
      && (forall p, k :: p in files && 0 <= k < |p| ==> p[..k] in dirs)
      && (forall p, k :: p in dirs && 0 <= k < |p| ==> p[..k] in dirs)
    }

    /** os.path.exists */
    predicate Exists(p: Path) {
      p in files || p in dirs
    }

    /**
     * On a well-formed tree nothing exists below a regular file, and the
     * file's folder does exist: a path is never both a file and a folder.
     */
    lemma NothingBelowFile(f: Path, p: Path)
      requires Valid() && f in files
      ensures Below(f, p) ==> !Exists(p)
      ensures f != [] ==> Exists(f[..|f| - 1]) && f[..|f| - 1] !in files
    {
    }

    /** `open(p, "rb")` succeeds: a regular file the process may read. */
    predicate Readable(p: Path) {
      p in files && p !in locked
    }

    /** os.makedirs(d) raises: `d` or a folder above it is a regular file. */
    predicate MakeDirsFails(d: Path) {
      exists k :: 0 <= k <= |d| && d[..k] in files
    }

    /**
     * os.makedirs(d): every missing folder on the way to `d` is created; when
     * the call raises nothing is created.
     */
    function MakeDirs(d: Path): (r: Fs)
      ensures Valid() ==> r.Valid()
      ensures r.files == files && r.locked == locked && dirs <= r.dirs
      ensures MakeDirsFails(d) ==> r == this
      ensures !MakeDirsFails(d) ==> forall k :: 0 <= k <= |d| ==> d[..k] in r.dirs
      ensures forall q :: q in r.dirs - dirs ==> Within(q, d)
    {
      if MakeDirsFails(d) then this
      else
        var r := Fs(files, dirs + Lineage(d), locked);
        assert Valid() ==> r.Valid() by {
          if Valid() {
            forall q | q in Lineage(d)
              ensures q !in files
            {
              assert d[..|q|] == q;
            }
            forall q, k | q in r.dirs && 0 <= k < |q|
              ensures q[..k] in r.dirs
            {
              if q in Lineage(d) {
                assert q == d[..|q|];
                assert q[..k] == d[..k];
              }
            }
          }
        }
        r
    }

    /** shutil.copy2(src, dst) raises: the source cannot be read or the destination cannot be written. */
    predicate CopyFails(src: Path, dst: Path)
      requires dst != []
    {
      !Readable(src) || dst in locked || DirName(dst) !in dirs
    }

    /**
     * shutil.copy2(src, dst) onto a path that is not a directory: on success
     * `dst` holds the bytes of `src`; when it raises nothing changes.
     * Metadata (timestamps, permission bits) is not part of this state.
     */
    function Copy2(src: Path, dst: Path): (r: Fs)
      requires dst != [] && dst !in dirs
      ensures Valid() ==> r.Valid()
      ensures r.dirs == dirs && r.locked == locked
      ensures CopyFails(src, dst) ==> r == this
      ensures !CopyFails(src, dst) ==> dst in r.files && r.files[dst] == files[src]
      ensures forall p :: p != dst ==> (p in r.files <==> p in files) && (p in files ==> r.files[p] == files[p])
    {
      if CopyFails(src, dst) then this
      else
        var r := Fs(files[dst := files[src]], dirs, locked);
        assert Valid() ==> r.Valid() by {
          if Valid() {
            forall q, k | q in r.files && 0 <= k < |q|
              ensures q[..k] in dirs
            {
              if q == dst && k < |dst| - 1 {
                assert q[..k] == DirName(dst)[..k];
              }
            }
          }
        }
        r
    }
  }

  /** The filesystem as the running program sees it; the copy loop changes it in place. */
  class Disk {
    var files: map<Path, Bytes>
    var dirs: set<Path>
    const locked: set<Path>

    function State(): Fs
      reads this
    {
      Fs(files, dirs, locked)
    }

    constructor (files: map<Path, Bytes>, dirs: set<Path>, locked: set<Path>)
      ensures State() == Fs(files, dirs, locked)
    {
      this.files, this.dirs, this.locked := files, dirs, locked;
    }

    /** os.path.exists */
    method Exists(p: Path) returns (b: bool)
      ensures b == State().Exists(p)
    {
      b := p in files || p in dirs;
    }

    /** os.makedirs(d); `ok` is false when the call raises. */
    method MakeDirs(d: Path) returns (ok: bool)
      modifies this
      ensures ok == !old(State()).MakeDirsFails(d)
      ensures State() == old(State()).MakeDirs(d)
    {
      ok := !State().MakeDirsFails(d);
      if ok {
        dirs := dirs + Lineage(d);
      }
    }

    /** shutil.copy2(src, dst); `ok` is false when the call raises. */
    method Copy2(src: Path, dst: Path) returns (ok: bool)
      requires dst != [] && dst !in dirs
      modifies this
      ensures ok == !old(State()).CopyFails(src, dst)
      ensures State() == old(State()).Copy2(src, dst)
    {
      ok := !State().CopyFails(src, dst);
      if ok {
        files := files[dst := files[src]];
      }
    }
  }
}
