/** End-to-end properties of the client's upload, delete and download against the store. */
module ClientProps {
  import opened Types
  import opened MetaStore
  import opened Placement
  import opened Chunking
  import opened Client
  import MetaStoreProps

  /** No two different blocks share a hash (assumed only where a lemma says so). */
  ghost predicate Injective(sha: Bytes -> Hash) {
    forall a, b :: sha(a) == sha(b) ==> a == b
  }

  /** The hashlist upload submits pairs each hash with its placement, so it is shard-consistent. */
  lemma EntriesConsistent(hl: seq<Hash>, numOfBlocks: nat)
    requires numOfBlocks > 0
    ensures MetaStoreProps.ShardConsistent(EntriesFor(hl, numOfBlocks))
  {
  }

  // ---------------------------------------------------------------------------
  // upload

  /** Upload proposes exactly the read version + 1, and a read afterwards gives that version and the placed hash list. */
  lemma UploadThenRead(s: DirState, shards: Shards, numOfBlocks: nat, sha: Bytes -> Hash, filename: string, data: Bytes)
    requires Inv(s) && numOfBlocks > 0 && |shards| == numOfBlocks
    ensures Inv(UploadSpec(s, shards, numOfBlocks, sha, filename, data).1)
    ensures Read(UploadSpec(s, shards, numOfBlocks, sha, filename, data).1, filename) ==
      (Read(s, filename).0 + 1, EntriesFor(HashList(Blocks(data), sha), numOfBlocks))
  {
    UploadSucceeds(s, shards, numOfBlocks, sha, filename, data);
    UploadUnfold(s, shards, numOfBlocks, sha, filename, data);
    var entries := EntriesFor(HashList(Blocks(data), sha), numOfBlocks);
    var version := Read(s, filename).0 + 1;
    EntriesConsistent(HashList(Blocks(data), sha), numOfBlocks);
    MetaStoreProps.ModifyThenRead(s, filename, version, entries);
    assert UploadSpec(s, shards, numOfBlocks, sha, filename, data).1 == Modify(s, filename, version, entries).1;
  }

  /** The first upload of a name reports every block missing. */
  lemma FirstUploadAllMissing(s: DirState, shards: Shards, numOfBlocks: nat, sha: Bytes -> Hash, filename: string, data: Bytes)
    requires Inv(s) && numOfBlocks > 0 && |shards| == numOfBlocks
    requires filename !in s.files
    ensures UploadSpec(s, shards, numOfBlocks, sha, filename, data).0 ==
      Ok(EntriesFor(HashList(Blocks(data), sha), numOfBlocks))
  {
    MetaStoreProps.FirstWrite(s, filename, EntriesFor(HashList(Blocks(data), sha), numOfBlocks));
  }

  /** Uploading the same bytes again bumps the version once more and pushes nothing. */
  lemma UploadAgainPushesNothing(s: DirState, shards: Shards, numOfBlocks: nat, sha: Bytes -> Hash, filename: string, data: Bytes)
    requires Inv(s) && numOfBlocks > 0 && |shards| == numOfBlocks
    ensures var u := UploadSpec(s, shards, numOfBlocks, sha, filename, data);
      Inv(u.1) && |u.2| == numOfBlocks &&
      var u2 := UploadSpec(u.1, u.2, numOfBlocks, sha, filename, data);
      && u2.0 == Ok([])
      && u2.2 == u.2
      && Inv(u2.1)
      && Read(u2.1, filename).0 == Read(s, filename).0 + 2
  {
    var u := UploadSpec(s, shards, numOfBlocks, sha, filename, data);
    var entries := EntriesFor(HashList(Blocks(data), sha), numOfBlocks);
    var version := Read(s, filename).0 + 1;
    UploadThenRead(s, shards, numOfBlocks, sha, filename, data);
    assert u.1 == Modify(s, filename, version, entries).1;
    MetaStoreProps.ResubmitNothingMissing(s, filename, version, entries);
    UploadThenRead(u.1, u.2, numOfBlocks, sha, filename, data);
  }

  // ---------------------------------------------------------------------------
  // delete

  /** Delete answers -1 exactly for a name never stored; otherwise it leaves a tombstone one version up. */
  lemma ClientDeleteOutcome(s: DirState, filename: string)
    requires Inv(s)
    ensures ClientDelete(s, filename).0 == -1 <==> filename !in s.files
    ensures ClientDelete(s, filename).0 == -1 ==> ClientDelete(s, filename).1 == s
    ensures ClientDelete(s, filename).0 != -1 ==>
      ClientDelete(s, filename).0 == 0 &&
      Delete(s, filename, Read(s, filename).0 + 1).0 == Ok(()) &&
      Inv(ClientDelete(s, filename).1) &&
      Read(ClientDelete(s, filename).1, filename) == (Read(s, filename).0 + 1, [])
  {
    if filename in s.files {
      MetaStoreProps.DeleteThenRead(s, filename);
    }
  }

  /** After a delete, download fails with FileNotFound. */
  lemma DeleteThenDownload(s: DirState, shards: Shards, numOfBlocks: nat, filename: string, cache: map<Hash, Bytes>)
    requires Inv(s) && numOfBlocks > 0 && |shards| == numOfBlocks
    requires ClientDelete(s, filename).0 == 0
    ensures Inv(ClientDelete(s, filename).1)
    ensures DownloadSpec(ClientDelete(s, filename).1, shards, numOfBlocks, filename, cache) == Err(FileNotFound)
  {
    ClientDeleteOutcome(s, filename);
  }

  // ---------------------------------------------------------------------------
  // download

  /** Fetching succeeds when every target is on the shard it is placed on. */
  lemma {:induction false} FetchAllSucceeds(shards: Shards, targets: seq<Hash>, numOfBlocks: nat)
    requires numOfBlocks > 0 && |shards| == numOfBlocks
    requires forall i :: 0 <= i < |targets| ==> targets[i] in shards[FindServer(targets[i], numOfBlocks)]
    ensures FetchAll(shards, targets, numOfBlocks).Ok?
  {
    if targets != [] {
      var init := targets[..|targets| - 1];
      assert forall i :: 0 <= i < |init| ==> init[i] == targets[i];
      FetchAllSucceeds(shards, init, numOfBlocks);
    }
  }

  /** Under the system invariant download never meets an absent block. */
  lemma DownloadFindsAllBlocks(s: DirState, shards: Shards, numOfBlocks: nat, sha: Bytes -> Hash, filename: string, cache: map<Hash, Bytes>)
    requires SystemInv(s, shards, numOfBlocks, sha)
    ensures Read(s, filename).1 != [] ==> FetchAll(shards, FetchSet(Read(s, filename).1, cache), numOfBlocks).Ok?
    ensures !DownloadSpec(s, shards, numOfBlocks, filename, cache).Err? ||
      DownloadSpec(s, shards, numOfBlocks, filename, cache) == Err(FileNotFound)
  {
    var hl := Read(s, filename).1;
    if hl != [] {
      var t := FetchSet(hl, cache);
      FetchSetMembership(hl, cache);
      assert BlocksStored(s.files[filename].hashes, shards, numOfBlocks);
      forall i | 0 <= i < |t| ensures t[i] in shards[FindServer(t[i], numOfBlocks)] {
        assert t[i] in t;
        var j :| 0 <= j < |HashesOf(hl)| && HashesOf(hl)[j] == t[i];
      }
      FetchAllSucceeds(shards, t, numOfBlocks);
    }
  }

  /** Joining blocks that carry the listed hashes gives the original blocks joined, when no two blocks share a hash. */
  lemma {:induction false} ReassembleBlocks(hl: seq<Entry>, cache: map<Hash, Bytes>, fetched: map<Hash, Bytes>,
                                            bs: seq<Bytes>, sha: Bytes -> Hash)
    requires forall i :: 0 <= i < |hl| ==> hl[i].hash in cache || hl[i].hash in fetched
    requires |hl| == |bs|
    requires forall i :: 0 <= i < |hl| ==> hl[i].hash == sha(bs[i])
    requires Injective(sha) && CacheSound(cache, sha) && CacheSound(fetched, sha)
    ensures Reassemble(hl, cache, fetched) == Concat(bs)
  {
    if hl != [] {
      var n := |hl| - 1;
      ReassembleBlocks(hl[..n], cache, fetched, bs[..n], sha);
      var h := hl[n].hash;
      var b := if h in cache then cache[h] else fetched[h];
      assert sha(b) == sha(bs[n]);
    }
  }

  /** Download reproduces the blocks the store lists, for a collision-free hash and a cache of blocks keyed by their own hash. */
  lemma DownloadReassembles(s: DirState, shards: Shards, numOfBlocks: nat, sha: Bytes -> Hash,
                            filename: string, cache: map<Hash, Bytes>, bs: seq<Bytes>)
    requires SystemInv(s, shards, numOfBlocks, sha)
    requires Injective(sha) && CacheSound(cache, sha)
    requires bs != []
    requires HashesOf(Read(s, filename).1) == HashList(bs, sha)
    ensures DownloadSpec(s, shards, numOfBlocks, filename, cache) == Ok(Concat(bs))
  {
    var hl := Read(s, filename).1;
    DownloadFindsAllBlocks(s, shards, numOfBlocks, sha, filename, cache);
    var t := FetchSet(hl, cache);
    var fetched := FetchAll(shards, t, numOfBlocks).value;
    FetchAllHolds(shards, t, numOfBlocks);
    FetchCovers(hl, cache, shards, numOfBlocks);
    assert CacheSound(fetched, sha) by {
      forall h | h in fetched ensures sha(fetched[h]) == h {
        assert CacheSound(shards[FindServer(h, numOfBlocks)], sha);
      }
    }
    forall i | 0 <= i < |hl| ensures hl[i].hash == sha(bs[i]) {
      assert HashesOf(hl)[i] == HashList(bs, sha)[i];
    }
    ReassembleBlocks(hl, cache, fetched, bs, sha);
  }

  /** Upload, then download into any destination, gives back exactly the uploaded bytes (for a collision-free hash). */
  lemma UploadThenDownload(s: DirState, shards: Shards, numOfBlocks: nat, sha: Bytes -> Hash,
                           filename: string, data: Bytes, local: Option<Bytes>)
    requires SystemInv(s, shards, numOfBlocks, sha)
    requires Injective(sha)
    ensures var u := UploadSpec(s, shards, numOfBlocks, sha, filename, data);
      SystemInv(u.1, u.2, numOfBlocks, sha) &&
      DownloadSpec(u.1, u.2, numOfBlocks, filename, CacheOf(local, sha)) == Ok(data)
  {
    var u := UploadSpec(s, shards, numOfBlocks, sha, filename, data);
    UploadKeepsSystemInv(s, shards, numOfBlocks, sha, filename, data);
    UploadThenRead(s, shards, numOfBlocks, sha, filename, data);
    var bs := Blocks(data);
    var rd := Read(u.1, filename).1;
    assert HashesOf(rd) == HashList(bs, sha);
    var cache := CacheOf(local, sha);
    assert CacheSound(cache, sha) by {
      if local.Some? {
        BlockIndexSound(Blocks(local.value), sha);
      }
    }
    DownloadReassembles(u.1, u.2, numOfBlocks, sha, filename, cache, bs);
    BlocksRoundTrip(data);
  }

  /** The chunks of a 10000-byte file: 4096, 4096 and 1808 bytes. */
  lemma TenThousandBytes(data: Bytes)
    requires |data| == 10000
    ensures |Blocks(data)| == 3
    ensures |Blocks(data)[0]| == 4096 && |Blocks(data)[1]| == 4096 && |Blocks(data)[2]| == 1808
  {
    BlocksShape(data);
    assert BlockCount(10000) == 3;
    BlockAt(data, 2);
  }
}
