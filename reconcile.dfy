/**
 * Reconciliation: the source files whose content digest the target index
 * lacks (`missing_files`), in the source index's iteration order.
 */
module Reconcile {
  import opened Wrappers
  import opened Paths
  import opened FileSystem
  import opened Fingerprint
  import opened DigestIndex

  /** The stored paths of the keys `ks` that `target` lacks, in the order of `ks`. */
  function Collect(ks: seq<HexDigest>, source: map<HexDigest, Path>, target: map<HexDigest, Path>): (r: seq<Path>)
    requires forall k <- ks :: k in source
    ensures |r| <= |ks|
    ensures forall i :: 0 <= i < |r| ==> r[i] in source.Values
    ensures (forall k <- ks :: k in target) ==> r == []
    ensures (forall k <- ks :: k !in target) ==> |r| == |ks|
    decreases |ks|
  {
    if ks == [] then []
    else
      var prev := Collect(ks[..|ks| - 1], source, target);
      var k := ks[|ks| - 1];
      if k !in target then prev + [source[k]] else prev
  }

  /** Handling key i after keys 0 .. i-1. */
  lemma CollectStep(ks: seq<HexDigest>, source: map<HexDigest, Path>, target: map<HexDigest, Path>, i: nat)
    requires i < |ks| && forall k <- ks :: k in source
    ensures Collect(ks[..i + 1], source, target)
      == Collect(ks[..i], source, target) + (if ks[i] !in target then [source[ks[i]]] else [])
  {
    assert ks[..i + 1][..i] == ks[..i];
    assert forall k <- ks[..i + 1] :: k in ks;
  }

  /** `missing_files` computed from `hashes1` and `hashes2`. */
  function Missing(hashes1: Index, hashes2: Index): (r: seq<Path>)
    requires hashes1.Valid()
    ensures |r| <= |hashes1.keys|
    ensures forall i :: 0 <= i < |r| ==> r[i] in hashes1.values.Values
    ensures hashes2.values == map[] ==> |r| == |hashes1.keys|
  {
    Collect(hashes1.keys, hashes1.values, hashes2.values)
  }

  lemma {:induction false} CollectExact(ks: seq<HexDigest>, source: map<HexDigest, Path>, target: map<HexDigest, Path>, p: Path)
    requires forall k <- ks :: k in source
    ensures p in Collect(ks, source, target) <==>
      exists i :: 0 <= i < |ks| && ks[i] !in target && source[ks[i]] == p
    decreases |ks|
  {
    if ks != [] {
      var init := ks[..|ks| - 1];
      CollectExact(init, source, target, p);
      if exists i :: 0 <= i < |ks| && ks[i] !in target && source[ks[i]] == p {
        var i :| 0 <= i < |ks| && ks[i] !in target && source[ks[i]] == p;
        if i < |ks| - 1 {
          assert init[i] == ks[i];
        }
      }
    }
  }

  lemma {:induction false} CollectDistinct(ks: seq<HexDigest>, source: map<HexDigest, Path>, target: map<HexDigest, Path>)
    requires forall k <- ks :: k in source
    requires forall i, j :: 0 <= i < j < |ks| ==> source[ks[i]] != source[ks[j]]
    ensures var r := Collect(ks, source, target); forall i, j :: 0 <= i < j < |r| ==> r[i] != r[j]
    decreases |ks|
  {
    if ks != [] {
      var init := ks[..|ks| - 1];
      var last := ks[|ks| - 1];
      CollectDistinct(init, source, target);
      CollectExact(init, source, target, source[last]);
    }
  }

  /**
   * Reconciliation is exact: a path is listed exactly when it is stored in
   * `hashes1` under a digest that `hashes2` does not have.
   */
  lemma MissingExact(hashes1: Index, hashes2: Index, p: Path)
    requires hashes1.Valid()
    ensures p in Missing(hashes1, hashes2) <==>
      exists h :: h in hashes1.values && h !in hashes2.values && hashes1.values[h] == p
  {
    CollectExact(hashes1.keys, hashes1.values, hashes2.values, p);
    if exists h :: h in hashes1.values && h !in hashes2.values && hashes1.values[h] == p {
      var h :| h in hashes1.values && h !in hashes2.values && hashes1.values[h] == p;
      assert h in hashes1.keys;
    }
  }

  /** Against an empty target index every path the source index stores is missing. */
  lemma MissingAllWhenTargetEmpty(hashes1: Index, hashes2: Index)
    requires hashes1.Valid() && hashes2.values == map[]
    ensures forall h <- hashes1.values :: hashes1.values[h] in Missing(hashes1, hashes2)
  {
    forall h <- hashes1.values
      ensures hashes1.values[h] in Missing(hashes1, hashes2)
    {
      MissingExact(hashes1, hashes2, hashes1.values[h]);
    }
  }

  /** `p` is the file the source index keeps for its content: readable, and the last file scanned with that digest. */
  ghost predicate Representative(fs: Fs, files: seq<Path>, md5: Bytes -> HexDigest, p: Path) {
    && fs.Readable(p)
    && var last := LastWith(fs, files, md5, md5(fs.files[p]));
       last.Some? && files[last.value] == p
  }

  /**
   * What the scan reports, in terms of the two folders' files: a source file
   * is listed exactly when it represents its content in the source folder and
   * no readable file in the target folder has the same digest, whatever its
   * name or place.
   */
  lemma MissingByContent(fs: Fs, files1: seq<Path>, files2: seq<Path>, md5: Bytes -> HexDigest, p: Path)
    ensures p in Missing(Build(fs, files1, md5), Build(fs, files2, md5)) <==>
      && Representative(fs, files1, md5, p)
      && forall q <- files2 :: FileDigest(fs, q, md5) != Some(md5(fs.files[p]))
  {
    var h1, h2 := Build(fs, files1, md5), Build(fs, files2, md5);
    MissingExact(h1, h2, p);
    if p in Missing(h1, h2) {
      var h :| h in h1.values && h !in h2.values && h1.values[h] == p;
      IndexSound(fs, files1, md5, h);
      BuildLastWins(fs, files1, md5, h);
      IndexComplete(fs, files2, md5, h);
    }
    if Representative(fs, files1, md5, p) && forall q <- files2 :: FileDigest(fs, q, md5) != Some(md5(fs.files[p])) {
      var h := md5(fs.files[p]);
      BuildLastWins(fs, files1, md5, h);
      IndexComplete(fs, files2, md5, h);
    }
  }

  /** A source file with the same content digest as some readable target file is never listed. */
  lemma MatchedNeverMissing(fs: Fs, files1: seq<Path>, files2: seq<Path>, md5: Bytes -> HexDigest, p: Path, q: Path)
    requires q in files2 && fs.Readable(q)
    requires p in fs.files && md5(fs.files[p]) == md5(fs.files[q])
    ensures p !in Missing(Build(fs, files1, md5), Build(fs, files2, md5))
  {
    MissingByContent(fs, files1, files2, md5, p);
  }

  /** An unreadable target file is never a match: adding one to the target folder changes nothing. */
  lemma UnreadableTargetIgnored(fs: Fs, files1: seq<Path>, files2: seq<Path>, md5: Bytes -> HexDigest, q: Path)
    requires !fs.Readable(q)
    ensures Missing(Build(fs, files1, md5), Build(fs, files2 + [q], md5))
         == Missing(Build(fs, files1, md5), Build(fs, files2, md5))
  {
    assert (files2 + [q])[..|files2|] == files2;
  }

  /** Each missing path is listed once. */
  lemma MissingNoDuplicates(fs: Fs, files1: seq<Path>, files2: seq<Path>, md5: Bytes -> HexDigest)
    ensures var r := Missing(Build(fs, files1, md5), Build(fs, files2, md5));
      forall i, j :: 0 <= i < j < |r| ==> r[i] != r[j]
  {
    var h1, h2 := Build(fs, files1, md5), Build(fs, files2, md5);
    forall i, j | 0 <= i < j < |h1.keys|
      ensures h1.values[h1.keys[i]] != h1.values[h1.keys[j]]
    {
      IndexPathsDistinct(fs, files1, md5, i, j);
    }
    MissingDistinct(h1, h2);
  }

  /** Keys that store distinct paths give a missing list without repeats. */
  lemma MissingDistinct(h1: Index, h2: Index)
    requires h1.Valid()
    requires forall i, j :: 0 <= i < j < |h1.keys| ==> h1.values[h1.keys[i]] != h1.values[h1.keys[j]]
    ensures var r := Missing(h1, h2); forall i, j :: 0 <= i < j < |r| ==> r[i] != r[j]
  {
    assert forall k <- h1.keys :: k in h1.values;
    CollectDistinct(h1.keys, h1.values, h2.values);
    assert Missing(h1, h2) == Collect(h1.keys, h1.values, h2.values);
  }

  /** Every listed path is one of the scanned source files, so it lies inside the source folder. */
  lemma MissingBelow(fs: Fs, files1: seq<Path>, files2: seq<Path>, md5: Bytes -> HexDigest, folder1: Path)
    requires forall p <- files1 :: Below(folder1, p)
    ensures forall p <- Missing(Build(fs, files1, md5), Build(fs, files2, md5)) :: Below(folder1, p)
  {
    var h1, h2 := Build(fs, files1, md5), Build(fs, files2, md5);
    forall p <- Missing(h1, h2)
      ensures Below(folder1, p)
    {
      MissingExact(h1, h2, p);
      var h :| h in h1.values && h !in h2.values && h1.values[h] == p;
      IndexSound(fs, files1, md5, h);
    }
  }
}
