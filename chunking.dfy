/**
 * The client's chunker: file bytes are cut into 4096-byte blocks, the last block
 * holding the remainder, and every block is named by its hash.
 */
module Chunking {
  import opened Types

  const BlockSize: nat := 4096

  /** The number of blocks the client computes for a file of `length` bytes: ceil(length / 4096). */
  function BlockCount(length: nat): (k: nat)
    ensures k * BlockSize >= length
    ensures k == 0 || (k - 1) * BlockSize < length
  {
    if length % BlockSize == 0 then length / BlockSize else length / BlockSize + 1
  }

  /** The slice s[start:] with the language's rules: a negative start counts from the end, and is clipped at 0. */
  function SliceFrom<T>(s: seq<T>, start: int): (r: seq<T>)
    ensures 0 <= start <= |s| ==> r == s[start..]
    ensures start < 0 && |s| + start <= 0 ==> r == s
  {
    var k := if start < 0 then (if |s| + start < 0 then 0 else |s| + start)
             else if start > |s| then |s| else start;
    s[k..]
  }

  /** The blocks of a file: full blocks, then a last block of the remaining bytes. */
  function Blocks(data: Bytes): (bs: seq<Bytes>)
    ensures |bs| >= 1
    decreases |data|
  {
    if |data| <= BlockSize then [data]
    else [data[..BlockSize]] + Blocks(data[BlockSize..])
  }

  /** Blocks joined in order. */
  function Concat(bs: seq<Bytes>): Bytes {
    if bs == [] then [] else Concat(bs[..|bs| - 1]) + bs[|bs| - 1]
  }

  /** The hash of every block, in block order (the client's `filehl`). */
  function HashList(bs: seq<Bytes>, sha: Bytes -> Hash): (hl: seq<Hash>)
    ensures |hl| == |bs|
  {
    seq(|bs|, i requires 0 <= i < |bs| => sha(bs[i]))
  }

  /** hash -> block for every block, later blocks written last (the client's `filehash`). */
  function BlockIndex(bs: seq<Bytes>, sha: Bytes -> Hash): map<Hash, Bytes> {
    if bs == [] then map[]
    else BlockIndex(bs[..|bs| - 1], sha)[sha(bs[|bs| - 1]) := bs[|bs| - 1]]
  }

  /** A cache maps every hash to a block that has that hash. */
  ghost predicate CacheSound(cache: map<Hash, Bytes>, sha: Bytes -> Hash) {
    forall h :: h in cache ==> sha(cache[h]) == h
  }

  lemma {:induction false} ConcatAppend(a: seq<Bytes>, b: seq<Bytes>)
    ensures Concat(a + b) == Concat(a) + Concat(b)
  {
    if b == [] {
      assert a + b == a;
    } else {
      ConcatAppend(a, b[..|b| - 1]);
      assert (a + b)[..|a + b| - 1] == a + b[..|b| - 1];
    }
  }

  /** Chunk round-trip: joining the blocks in order gives back the file's bytes exactly. */
  lemma {:induction false} BlocksRoundTrip(data: Bytes)
    ensures Concat(Blocks(data)) == data
    decreases |data|
  {
    if |data| <= BlockSize {
      assert Concat([data]) == Concat([]) + data;
    } else {
      var rest := data[BlockSize..];
      BlocksRoundTrip(rest);
      ConcatAppend([data[..BlockSize]], Blocks(rest));
      assert Concat([data[..BlockSize]]) == data[..BlockSize] by {
        assert Concat([data[..BlockSize]]) == Concat([]) + data[..BlockSize];
      }
      assert data == data[..BlockSize] + rest;
    }
  }

  /**
   * Block shape: a non-empty file has ceil(len / 4096) blocks, all full but the last,
   * which holds 1..4096 bytes; an empty file gives exactly one empty block.
   */
  lemma {:induction false} BlocksShape(data: Bytes)
    ensures |data| == 0 ==> Blocks(data) == [[]]
    ensures |data| > 0 ==> |Blocks(data)| == BlockCount(|data|)
    ensures forall i :: 0 <= i < |Blocks(data)| - 1 ==> |Blocks(data)[i]| == BlockSize
    ensures |data| > 0 ==> 1 <= |Blocks(data)[|Blocks(data)| - 1]| <= BlockSize
    decreases |data|
  {
    if |data| > BlockSize {
      var rest := data[BlockSize..];
      BlocksShape(rest);
      var bs := Blocks(data);
      assert bs == [data[..BlockSize]] + Blocks(rest);
      forall i | 0 <= i < |bs| - 1 ensures |bs[i]| == BlockSize {
        if i > 0 { assert bs[i] == Blocks(rest)[i - 1]; }
      }
    }
  }

  /** Block `i` is the slice the client's loop takes: a full window, or the tail for the last block. */
  lemma {:induction false} BlockAt(data: Bytes, i: nat)
    requires i < |Blocks(data)|
    ensures i < |Blocks(data)| - 1 ==> (i + 1) * BlockSize <= |data| && Blocks(data)[i] == data[i * BlockSize..(i + 1) * BlockSize]
    ensures i == |Blocks(data)| - 1 ==> i * BlockSize <= |data| && Blocks(data)[i] == data[i * BlockSize..]
    decreases |data|
  {
    if |data| > BlockSize && i > 0 {
      var rest := data[BlockSize..];
      BlockAt(rest, i - 1);
      assert Blocks(data)[i] == Blocks(rest)[i - 1];
      assert rest[(i - 1) * BlockSize..] == data[i * BlockSize..];
      if i < |Blocks(data)| - 1 {
        assert rest[(i - 1) * BlockSize..i * BlockSize] == data[i * BlockSize..(i + 1) * BlockSize];
      }
    }
  }

  /** Every indexed hash names a block of the file with that hash, and every block's hash is indexed. */
  lemma {:induction false} BlockIndexSound(bs: seq<Bytes>, sha: Bytes -> Hash)
    ensures forall h :: h in BlockIndex(bs, sha) <==> h in HashList(bs, sha)
    ensures forall h :: h in BlockIndex(bs, sha) ==> sha(BlockIndex(bs, sha)[h]) == h && BlockIndex(bs, sha)[h] in bs
    ensures CacheSound(BlockIndex(bs, sha), sha)
  {
    if bs != [] {
      var init := bs[..|bs| - 1];
      BlockIndexSound(init, sha);
      assert HashList(bs, sha) == HashList(init, sha) + [sha(bs[|bs| - 1])];
      assert forall b :: b in init ==> b in bs;
    }
  }

  /**
   * The chunking loops of upload and download: the hash list in block order and the
   * hash -> block dictionary.
   */
  method ChunkFile(data: Bytes, sha: Bytes -> Hash) returns (filehl: seq<Hash>, filehash: map<Hash, Bytes>)
    ensures filehl == HashList(Blocks(data), sha)
    ensures filehash == BlockIndex(Blocks(data), sha)
  {
    ghost var bs := Blocks(data);
    BlocksShape(data);
    var length := |data|;
    var fileblocknum := BlockCount(length);
    assert |bs| == if length == 0 then 1 else fileblocknum;
    filehash := map[];
    filehl := [];
    var i := 0;
    while i < fileblocknum - 1
      invariant 0 <= i && (fileblocknum > 0 ==> i <= fileblocknum - 1)
      invariant i <= |bs| - 1
      invariant filehl == HashList(bs[..i], sha)
      invariant filehash == BlockIndex(bs[..i], sha)
    {
      BlockAt(data, i);
      var fileblocks := data[i * BlockSize..(i + 1) * BlockSize];
      var hashval := sha(fileblocks);
      assert bs[..i + 1][..i] == bs[..i];
      assert HashList(bs[..i + 1], sha) == HashList(bs[..i], sha) + [sha(bs[i])];
      filehl := filehl + [hashval];
      filehash := filehash[hashval := fileblocks];
      i := i + 1;
    }
    assert i == |bs| - 1;
    BlockAt(data, i);
    var fileblocks := SliceFrom(data, (fileblocknum - 1) * BlockSize);
    assert fileblocks == bs[i];
    var hashval := sha(fileblocks);
    assert bs[..i + 1] == bs;
    assert bs[..i + 1][..i] == bs[..i];
    assert HashList(bs[..i + 1], sha) == HashList(bs[..i], sha) + [sha(bs[i])];
    filehl := filehl + [hashval];
    filehash := filehash[hashval := fileblocks];
  }
}
