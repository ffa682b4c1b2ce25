/**
 * The digest index (`hashes1`, `hashes2`): for one folder, a dict from content
 * digest to a path with that content, filled by one pass over the folder's
 * files. Unreadable files are skipped; a later file with an already seen
 * digest replaces the stored path (the key keeps its place in the dict).
 */
module DigestIndex {
  import opened Wrappers
  import opened Paths
  import opened FileSystem
  import opened Fingerprint
  import opened OrderedDict

  type Index = Dict<HexDigest, Path>

  /** The dict the hashing loop has built after processing `files` in order. */
  function Build(fs: Fs, files: seq<Path>, md5: Bytes -> HexDigest): (d: Index)
    ensures d.Valid()
    ensures |d.keys| <= |files|
    decreases |files|
  {
    if files == [] then Empty()
    else
      var prev := Build(fs, files[..|files| - 1], md5);
      var p := files[|files| - 1];
      match FileDigest(fs, p, md5)
      case Some(h) => prev.Put(h, p)
      case None => prev
  }

  /** Processing file i after files 0 .. i-1: it is entered under its digest when it can be read. */
  lemma BuildStep(fs: Fs, files: seq<Path>, md5: Bytes -> HexDigest, i: nat)
    requires i < |files|
    ensures var d := FileDigest(fs, files[i], md5);
      Build(fs, files[..i + 1], md5)
        == if d.Some? then Build(fs, files[..i], md5).Put(d.value, files[i]) else Build(fs, files[..i], md5)
  {
    assert files[..i + 1][..i] == files[..i];
  }

  /** Where in `files` the last readable file whose digest is `h` stands, if any. */
  function LastWith(fs: Fs, files: seq<Path>, md5: Bytes -> HexDigest, h: HexDigest): (r: Option<nat>)
    ensures r.Some? ==> r.value < |files| && FileDigest(fs, files[r.value], md5) == Some(h)
    ensures r.Some? ==> forall k :: r.value < k < |files| ==> FileDigest(fs, files[k], md5) != Some(h)
    ensures r.None? ==> forall k :: 0 <= k < |files| ==> FileDigest(fs, files[k], md5) != Some(h)
    decreases |files|
  {
    if files == [] then None
    else if FileDigest(fs, files[|files| - 1], md5) == Some(h) then Some(|files| - 1)
    else LastWith(fs, files[..|files| - 1], md5, h)
  }

  /**
   * Last write wins: a digest is a key exactly when some readable file has it,
   * and the path stored for it is the last such file.
   */
  lemma {:induction false} BuildLastWins(fs: Fs, files: seq<Path>, md5: Bytes -> HexDigest, h: HexDigest)
    ensures var d := Build(fs, files, md5);
      && (h in d.values <==> LastWith(fs, files, md5, h).Some?)
      && (h in d.values ==> d.values[h] == files[LastWith(fs, files, md5, h).value])
    decreases |files|
  {
    if files != [] {
      BuildLastWins(fs, files[..|files| - 1], md5, h);
    }
  }

  /**
   * Index soundness: every stored path is one of the scanned files, it is
   * readable, and its content has the digest it is stored under.
   */
  lemma IndexSound(fs: Fs, files: seq<Path>, md5: Bytes -> HexDigest, h: HexDigest)
    requires h in Build(fs, files, md5).values
    ensures var p := Build(fs, files, md5).values[h];
      p in files && fs.Readable(p) && md5(fs.files[p]) == h
  {
    BuildLastWins(fs, files, md5, h);
  }

  /** A file that cannot be read is never stored in the index. */
  lemma UnreadableNeverIndexed(fs: Fs, files: seq<Path>, md5: Bytes -> HexDigest, p: Path)
    requires !fs.Readable(p)
    ensures p !in Build(fs, files, md5).values.Values
  {
    var d := Build(fs, files, md5);
    if p in d.values.Values {
      var h :| h in d.values && d.values[h] == p;
      IndexSound(fs, files, md5, h);
    }
  }

  /** A digest is a key exactly when some readable file in `files` has that content digest. */
  lemma IndexComplete(fs: Fs, files: seq<Path>, md5: Bytes -> HexDigest, h: HexDigest)
    ensures h in Build(fs, files, md5).values <==>
      exists i :: 0 <= i < |files| && FileDigest(fs, files[i], md5) == Some(h)
  {
    BuildLastWins(fs, files, md5, h);
  }

  /** Two keys never share a path: a file has one content, so one digest. */
  lemma IndexPathsDistinct(fs: Fs, files: seq<Path>, md5: Bytes -> HexDigest, i: nat, j: nat)
    requires var d := Build(fs, files, md5); i < j < |d.keys|
    ensures var d := Build(fs, files, md5); d.values[d.keys[i]] != d.values[d.keys[j]]
  {
    var d := Build(fs, files, md5);
    assert d.keys[i] in d.values && d.keys[j] in d.values;
    IndexSound(fs, files, md5, d.keys[i]);
    IndexSound(fs, files, md5, d.keys[j]);
  }

  /** The digests of the readable files, in scan order, repeats included. */
  function Digests(fs: Fs, files: seq<Path>, md5: Bytes -> HexDigest): (ds: seq<HexDigest>)
    ensures |ds| <= |files|
    decreases |files|
  {
    if files == [] then []
    else
      var prev := Digests(fs, files[..|files| - 1], md5);
      match FileDigest(fs, files[|files| - 1], md5)
      case Some(h) => prev + [h]
      case None => prev
  }

  /** `s` with every repeat of an earlier element dropped. */
  function Dedup<T(==)>(s: seq<T>): (r: seq<T>)
    ensures forall i :: 0 <= i < |s| ==> s[i] in r
    ensures forall i :: 0 <= i < |r| ==> r[i] in s
    ensures forall i, j :: 0 <= i < j < |r| ==> r[i] != r[j]
    decreases |s|
  {
    if s == [] then []
    else
      var prev := Dedup(s[..|s| - 1]);
      if s[|s| - 1] in prev then prev else prev + [s[|s| - 1]]
  }

  /**
   * The index iterates its digests in the order each was first met, one key
   * per distinct readable digest.
   */
  lemma {:induction false} IndexOrder(fs: Fs, files: seq<Path>, md5: Bytes -> HexDigest)
    ensures Build(fs, files, md5).keys == Dedup(Digests(fs, files, md5))
    decreases |files|
  {
    if files != [] {
      IndexOrder(fs, files[..|files| - 1], md5);
    }
  }
}
