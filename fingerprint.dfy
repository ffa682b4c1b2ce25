/**
 * Content fingerprints. The digest function itself (MD5 and its hex
 * formatting) is a parameter `md5: Bytes -> HexDigest`; what is modelled is
 * how the program feeds a file to it: 4096-byte reads folded into an
 * incremental hash object until a read comes back empty.
 */
module Fingerprint {
  import opened FileSystem
  import Paths
  import Wrappers

  /** The size of every `f.read(4096)` request. */
  const ChunkSize: nat := 4096

  /** `hexdigest()`: 32 characters (lower-case hexadecimal in Python), so never the empty (falsy) string. */
  type HexDigest = s: string | |s| == 32
    witness "00000000000000000000000000000000"

  function Min(a: nat, b: nat): nat {
    if a <= b then a else b
  }

  /**
   * The successive results of `f.read(ChunkSize)` on a file holding `data`,
   * up to (not including) the first empty read.
   */
  function Chunks(data: Bytes): (cs: seq<Bytes>)
    ensures forall i :: 0 <= i < |cs| ==> 0 < |cs[i]| <= ChunkSize
    ensures |data| == 0 <==> cs == []
    decreases |data|
  {
    if |data| == 0 then []
    else
      var n := Min(ChunkSize, |data|);
      [data[..n]] + Chunks(data[n..])
  }

  /** The bytes of several chunks, one after the other. */
  function Concat(cs: seq<Bytes>): Bytes {
    if cs == [] then [] else cs[0] + Concat(cs[1..])
  }

  lemma {:induction false} ConcatAppend(cs: seq<Bytes>, c: Bytes)
    ensures Concat(cs + [c]) == Concat(cs) + c
  {
    if cs != [] {
      assert (cs + [c])[1..] == cs[1..] + [c];
      ConcatAppend(cs[1..], c);
    }
  }

  /** Reading a file chunk by chunk yields exactly its content. */
  lemma {:induction false} ChunksConcat(data: Bytes)
    ensures Concat(Chunks(data)) == data
    decreases |data|
  {
    if |data| != 0 {
      var n := Min(ChunkSize, |data|);
      ChunksConcat(data[n..]);
      assert data[..n] + data[n..] == data;
    }
  }

  /** A read at offset `pos` before the end returns the next chunk, and the reads after it are those from the following offset. */
  lemma ChunksAt(data: Bytes, pos: nat)
    requires pos < |data|
    ensures var next := Min(pos + ChunkSize, |data|);
      Chunks(data[pos..]) == [data[pos..next]] + Chunks(data[next..])
  {
    var next := Min(pos + ChunkSize, |data|);
    var rest := data[pos..];
    assert rest[..next - pos] == data[pos..next];
    assert rest[next - pos..] == data[next..];
  }

  /** Every chunk but the last is a full 4096-byte read. */
  lemma {:induction false} ChunksFull(data: Bytes, i: nat)
    requires i + 1 < |Chunks(data)|
    ensures |Chunks(data)[i]| == ChunkSize
    decreases |data|
  {
    var n := Min(ChunkSize, |data|);
    if i > 0 {
      ChunksFull(data[n..], i - 1);
    }
  }

  /** The state of a `hashlib.md5()` object: everything passed to `update` so far, in order. */
  datatype Md5State = Md5State(absorbed: Bytes) {

    /** `hash_md5.update(chunk)` */
    function Update(chunk: Bytes): (s: Md5State)
      ensures |s.absorbed| == |absorbed| + |chunk|
      ensures s.absorbed[..|absorbed|] == absorbed && s.absorbed[|absorbed|..] == chunk
    {
      Md5State(absorbed + chunk)
    }

    /** `hash_md5.hexdigest()` */
    function Finish(md5: Bytes -> HexDigest): HexDigest {
      md5(absorbed)
    }
  }

  /** `hashlib.md5()` */
  const Fresh := Md5State([])

  /** Reading the next chunk moves it from the unread rest onto the chunks read so far. */
  lemma ReadStep(data: Bytes, pos: nat, read: seq<Bytes>)
    requires pos < |data|
    requires read + Chunks(data[pos..]) == Chunks(data)
    ensures var next := Min(pos + ChunkSize, |data|);
      (read + [data[pos..next]]) + Chunks(data[next..]) == Chunks(data)
  {
    var next := Min(pos + ChunkSize, |data|);
    ChunksAt(data, pos);
    assert read + ([data[pos..next]] + Chunks(data[next..])) == (read + [data[pos..next]]) + Chunks(data[next..]);
  }

  /** The hash object after `update` has been called with each chunk in turn. */
  function UpdateAll(s: Md5State, cs: seq<Bytes>): (r: Md5State)
    ensures |r.absorbed| >= |s.absorbed| && r.absorbed[..|s.absorbed|] == s.absorbed
    ensures cs != [] ==> |r.absorbed| >= |s.absorbed| + |cs[|cs| - 1]| && r.absorbed[|r.absorbed| - |cs[|cs| - 1]|..] == cs[|cs| - 1]
    decreases |cs|
  {
    if cs == [] then s else UpdateAll(s, cs[..|cs| - 1]).Update(cs[|cs| - 1])
  }

  lemma UpdateAllAppend(s: Md5State, cs: seq<Bytes>, c: Bytes)
    ensures UpdateAll(s, cs + [c]) == UpdateAll(s, cs).Update(c)
  {
    assert (cs + [c])[..|cs|] == cs;
  }

  lemma {:induction false} UpdateAllAbsorbs(s: Md5State, cs: seq<Bytes>)
    ensures UpdateAll(s, cs).absorbed == s.absorbed + Concat(cs)
    decreases |cs|
  {
    if cs != [] {
      var init := cs[..|cs| - 1];
      UpdateAllAbsorbs(s, init);
      ConcatAppend(init, cs[|cs| - 1]);
      assert init + [cs[|cs| - 1]] == cs;
    }
  }

  /**
   * Streaming a file into a fresh hash object chunk by chunk gives the digest
   * of its whole content, whatever the digest function is.
   */
  lemma StreamedDigest(data: Bytes, md5: Bytes -> HexDigest)
    ensures UpdateAll(Fresh, Chunks(data)).Finish(md5) == md5(data)
  {
    UpdateAllAbsorbs(Fresh, Chunks(data));
    ChunksConcat(data);
    assert Fresh.absorbed + Concat(Chunks(data)) == data;
  }

  /** `compute_md5(p)`: None when the file cannot be opened, else the digest of its content. */
  function FileDigest(fs: Fs, p: Paths.Path, md5: Bytes -> HexDigest): Wrappers.Option<HexDigest> {
    if fs.Readable(p) then Wrappers.Some(md5(fs.files[p])) else Wrappers.None
  }
}
