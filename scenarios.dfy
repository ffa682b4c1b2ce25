/**
 * Worked examples on a small pair of trees: the source folder holds a.txt
 * ("hello") and b.txt ("world"), the target folder holds c.txt ("hello").
 */
module Scenarios {
  import opened Wrappers
  import opened Paths
  import opened FileSystem
  import opened Fingerprint
  import opened OrderedDict
  import opened DigestIndex
  import opened Reconcile
  import opened Replication

  const Hello: Bytes := [104, 101, 108, 108, 111]
  const World: Bytes := [119, 111, 114, 108, 100]

  const Source: Path := ["src"]
  const Target: Path := ["dst"]
  const A: Path := ["src", "a.txt"]
  const B: Path := ["src", "b.txt"]
  const C: Path := ["dst", "c.txt"]

  function Trees(): (fs: Fs)
    ensures fs.Valid()
  {
    var fs := Fs(map[A := Hello, B := World, C := Hello], {[], Source, Target}, {});
    assert fs.Valid() by {
      forall p, k | p in fs.files && 0 <= k < |p|
        ensures p[..k] in fs.dirs
      {
        assert p == A || p == B || p == C;
        if k == 0 {
          assert p[..k] == [];
        } else {
          assert p[..k] == [p[0]];
        }
      }
    }
    fs
  }

  /** Scanning one readable file stores its digest under it. */
  lemma BuildSingle(fs: Fs, p: Path, md5: Bytes -> HexDigest)
    requires fs.Readable(p)
    ensures var d := Build(fs, [p], md5);
      d.keys == [md5(fs.files[p])] && d.values == map[md5(fs.files[p]) := p]
  {
    assert [p][..0] == [];
  }

  /** Scanning two readable files with different contents stores both digests, in scan order. */
  lemma BuildPair(fs: Fs, p: Path, q: Path, md5: Bytes -> HexDigest)
    requires fs.Readable(p) && fs.Readable(q) && md5(fs.files[p]) != md5(fs.files[q])
    ensures var d := Build(fs, [p, q], md5);
      && d.keys == [md5(fs.files[p]), md5(fs.files[q])]
      && d.values == map[md5(fs.files[p]) := p, md5(fs.files[q]) := q]
  {
    BuildSingle(fs, p, md5);
    assert [p, q][..1] == [p];
  }

  /** The source index: "hello" stored under a.txt, then "world" under b.txt. */
  lemma SourceIndexExample(md5: Bytes -> HexDigest)
    requires md5(Hello) != md5(World)
    ensures var h1 := Build(Trees(), [A, B], md5);
      h1.keys == [md5(Hello), md5(World)] && h1.values == map[md5(Hello) := A, md5(World) := B]
  {
    var fs := Trees();
    assert fs.files[A] == Hello && fs.files[B] == World;
    BuildPair(fs, A, B, md5);
  }

  /** The target index: "hello" stored under c.txt. */
  lemma TargetIndexExample(md5: Bytes -> HexDigest)
    ensures Build(Trees(), [C], md5).values == map[md5(Hello) := C]
  {
    assert Trees().files[C] == Hello;
    BuildSingle(Trees(), C, md5);
  }

  /** Of two source digests, only the one the target lacks yields a missing path. */
  lemma MissingOfPair(h1: Index, h2: Index, x: HexDigest, y: HexDigest)
    requires h1.Valid() && h1.keys == [x, y]
    requires x in h2.values && y !in h2.values
    ensures Missing(h1, h2) == [h1.values[y]]
  {
    assert [x, y][..1] == [x] && [x][..0] == [];
    CollectStep([x, y], h1.values, h2.values, 0);
    CollectStep([x, y], h1.values, h2.values, 1);
    assert [x, y][..2] == [x, y];
  }

  /**
   * Only b.txt is missing: a.txt matches c.txt by content although the names
   * differ. Any digest that tells "hello" from "world" gives this answer.
   */
  lemma MissingByContentExample(md5: Bytes -> HexDigest)
    requires md5(Hello) != md5(World)
    ensures Missing(Build(Trees(), [A, B], md5), Build(Trees(), [C], md5)) == [B]
  {
    SourceIndexExample(md5);
    TargetIndexExample(md5);
    MissingOfPair(Build(Trees(), [A, B], md5), Build(Trees(), [C], md5), md5(Hello), md5(World));
  }

  /** Copying b.txt creates dst/b.txt with its bytes and leaves c.txt alone. */
  lemma ReplicateExample()
    ensures var r := Replicate(Trees(), Source, Target, [B]);
      && r.files == Trees().files[["dst", "b.txt"] := World]
      && r.dirs == Trees().dirs
  {
    assert [B][..0] == [];
    assert Dest(Source, Target, B) == ["dst", "b.txt"];
    assert DirName(["dst", "b.txt"]) == Target;
  }

  /** When dst/b.txt already exists the entry is skipped and nothing changes. */
  lemma ReplicateSkipsExistingExample()
    ensures var fs := Fs(Trees().files[["dst", "b.txt"] := Hello], Trees().dirs, {});
      Replicate(fs, Source, Target, [B]) == fs
  {
    assert [B][..0] == [];
    assert Dest(Source, Target, B) == ["dst", "b.txt"];
    assert DirName(["dst", "b.txt"]) == Target;
  }

  /**
   * When a regular file dst/sub stands where the destination needs a folder,
   * os.makedirs raises and creates nothing, the copy then fails for want of
   * a folder, and the entry leaves the filesystem as it was.
   */
  lemma BlockedDestinationExample()
    ensures var fs := Fs(Trees().files[["src", "sub", "deeper", "x"] := Hello][["dst", "sub"] := World], Trees().dirs + {["src", "sub"], ["src", "sub", "deeper"]}, {});
      && fs.Valid()
      && fs.MakeDirsFails(["dst", "sub", "deeper"])
      && Replicate(fs, Source, Target, [["src", "sub", "deeper", "x"]]) == fs
  {
    var src: Path := ["src", "sub", "deeper", "x"];
    var fs := Fs(Trees().files[src := Hello][["dst", "sub"] := World], Trees().dirs + {["src", "sub"], ["src", "sub", "deeper"]}, {});
    assert fs.Valid() by {
      forall p, k | p in fs.files && 0 <= k < |p|
        ensures p[..k] in fs.dirs
      {
        assert p == A || p == B || p == C || p == src || p == ["dst", "sub"];
        if k == 0 {
          assert p[..k] == [];
        } else if k == 1 {
          assert p[..k] == [p[0]];
        } else if k == 2 {
          assert p[..k] == [p[0], p[1]];
        } else {
          assert p[..k] == [p[0], p[1], p[2]];
        }
      }
      forall p, k | p in fs.dirs && 0 <= k < |p|
        ensures p[..k] in fs.dirs
      {
        if k == 0 {
          assert p[..k] == [];
        } else if k == 1 {
          assert p[..k] == [p[0]];
        } else {
          assert p[..k] == [p[0], p[1]];
        }
      }
    }
    assert [src][..0] == [];
    assert Dest(Source, Target, src) == ["dst", "sub", "deeper", "x"];
    assert DirName(["dst", "sub", "deeper", "x"]) == ["dst", "sub", "deeper"];
    assert ["dst", "sub", "deeper"][..2] == ["dst", "sub"];
  }
}
