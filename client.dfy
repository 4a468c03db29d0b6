/**
 * The client's reconciliation logic: upload pushes only the blocks the metadata store
 * reports missing, delete guards on version 0, and download fetches only the blocks
 * its local cache does not already hold, then joins them in hash-list order.
 *
 * The pure functions UploadSpec, ClientDelete and DownloadSpec say what each operation
 * does to the metadata store and the shards; the class SurfStoreClient runs the same
 * steps against a MetadataStore object and a BlockStores object.
 */
module Client {
  import opened Types
  import opened MetaStore
  import opened Placement
  import opened Chunking
  import MetaStoreProps
  import BlockStore

  datatype DownloadError = FileNotFound | BlockNotFound(hash: Hash)

  /** The contents of every shard, indexed by shard number. */
  type Shards = seq<map<Hash, Bytes>>

  /** The hashlist the client submits: each hash with the shard it is placed on. */
  function EntriesFor(hl: seq<Hash>, numOfBlocks: nat): (es: seq<Entry>)
    requires numOfBlocks > 0
    ensures |es| == |hl|
    ensures forall i :: 0 <= i < |hl| ==> es[i].hash == hl[i]
  {
    seq(|hl|, i requires 0 <= i < |hl| => Entry(hl[i], FindServer(hl[i], numOfBlocks)))
  }

  /** The shards after storing every missing entry's block on the shard of its hash, in order. */
  function PushAll(shards: Shards, missing: seq<Entry>, filehash: map<Hash, Bytes>, numOfBlocks: nat): (r: Shards)
    requires numOfBlocks > 0 && |shards| == numOfBlocks
    requires forall i :: 0 <= i < |missing| ==> missing[i].hash in filehash
    ensures |r| == numOfBlocks
  {
    if missing == [] then shards
    else
      var pushed := PushAll(shards, missing[..|missing| - 1], filehash, numOfBlocks);
      var h := missing[|missing| - 1].hash;
      var k := FindServer(h, numOfBlocks);
      var updated: map<Hash, Bytes> := pushed[k][h := filehash[h]];
      pushed[k := updated]
  }

  /** The metadata-store step of upload: modify at the read version + 1 with the placed hash list of the data's blocks. */
  function UploadModify(s: DirState, numOfBlocks: nat, sha: Bytes -> Hash, filename: string, data: Bytes)
    : (Result<seq<Entry>, StoreError>, DirState)
    requires Inv(s) && numOfBlocks > 0
  {
    Modify(s, filename, Read(s, filename).0 + 1, EntriesFor(HashList(Blocks(data), sha), numOfBlocks))
  }

  /** upload: chunk, read the version, propose version + 1, push what is reported missing. */
  function UploadSpec(s: DirState, shards: Shards, numOfBlocks: nat, sha: Bytes -> Hash,
                      filename: string, data: Bytes): (Result<seq<Entry>, StoreError>, DirState, Shards)
    requires Inv(s) && numOfBlocks > 0 && |shards| == numOfBlocks
  {
    var step := UploadModify(s, numOfBlocks, sha, filename, data);
    if step.0.Err? then (step.0, step.1, shards)
    else
      MissingHashesIndexed(s, filename, Read(s, filename).0 + 1, Blocks(data), sha, numOfBlocks);
      (step.0, step.1, PushAll(shards, step.0.value, BlockIndex(Blocks(data), sha), numOfBlocks))
  }

  /** Upload's answer and new directory are its modify step's; on success its shards are the push of the missing list. */
  lemma UploadUnfold(s: DirState, shards: Shards, numOfBlocks: nat, sha: Bytes -> Hash, filename: string, data: Bytes)
    requires Inv(s) && numOfBlocks > 0 && |shards| == numOfBlocks
    ensures var step := Modify(s, filename, Read(s, filename).0 + 1, EntriesFor(HashList(Blocks(data), sha), numOfBlocks));
      var u := UploadSpec(s, shards, numOfBlocks, sha, filename, data);
      && u.0 == step.0 && u.1 == step.1
      && (step.0.Ok? ==>
            (forall i :: 0 <= i < |step.0.value| ==> step.0.value[i].hash in BlockIndex(Blocks(data), sha)) &&
            u.2 == PushAll(shards, step.0.value, BlockIndex(Blocks(data), sha), numOfBlocks))
  {
    var step := UploadModify(s, numOfBlocks, sha, filename, data);
    if step.0.Ok? {
      MissingHashesIndexed(s, filename, Read(s, filename).0 + 1, Blocks(data), sha, numOfBlocks);
    }
  }

  /** Every reported-missing hash has its block in the chunker's dictionary. */
  lemma MissingHashesIndexed(s: DirState, filename: string, version: int, bs: seq<Bytes>,
                             sha: Bytes -> Hash, numOfBlocks: nat)
    requires numOfBlocks > 0
    requires Modify(s, filename, version, EntriesFor(HashList(bs, sha), numOfBlocks)).0.Ok?
    ensures var m := Modify(s, filename, version, EntriesFor(HashList(bs, sha), numOfBlocks)).0.value;
      forall i :: 0 <= i < |m| ==> m[i].hash in BlockIndex(bs, sha) && m[i].hash in HashList(bs, sha)
  {
    var entries := EntriesFor(HashList(bs, sha), numOfBlocks);
    var m := Modify(s, filename, version, entries).0.value;
    MetaStoreProps.ModifyReportsNewHashes(s, filename, version, entries);
    BlockIndexSound(bs, sha);
    forall i | 0 <= i < |m| ensures m[i].hash in BlockIndex(bs, sha) && m[i].hash in HashList(bs, sha) {
      assert m[i] in m;
      var j :| 0 <= j < |entries| && entries[j] == m[i];
      assert HashList(bs, sha)[j] == m[i].hash;
    }
  }

  /** delete: -1 when read reports version 0, otherwise delete at version + 1 and 0. */
  function ClientDelete(s: DirState, filename: string): (int, DirState)
    requires Inv(s)
  {
    var v := Read(s, filename).0;
    if v == 0 then (-1, s) else (0, Delete(s, filename, v + 1).1)
  }

  /** A cached block counts only when it is non-empty (an empty block is falsy). */
  predicate Cached(cache: map<Hash, Bytes>, h: Hash) {
    h in cache && |cache[h]| > 0
  }

  /** The hashes download fetches from the shards: those not cached, in hash-list order. */
  function FetchSet(hl: seq<Entry>, cache: map<Hash, Bytes>): seq<Hash> {
    if hl == [] then []
    else
      var h := hl[|hl| - 1].hash;
      FetchSet(hl[..|hl| - 1], cache) + (if Cached(cache, h) then [] else [h])
  }

  /** get_block for each target in order; the first absent block stops the download. */
  function FetchAll(shards: Shards, targets: seq<Hash>, numOfBlocks: nat): Result<map<Hash, Bytes>, DownloadError>
    requires numOfBlocks > 0 && |shards| == numOfBlocks
  {
    if targets == [] then Ok(map[])
    else
      match FetchAll(shards, targets[..|targets| - 1], numOfBlocks)
      case Err(e) => Err(e)
      case Ok(fetched) =>
        var h := targets[|targets| - 1];
        var k := FindServer(h, numOfBlocks);
        if h in shards[k] then Ok(fetched[h := shards[k][h]]) else Err(BlockNotFound(h))
  }

  /** Every entry's block, from the cache when it holds the hash, else from the fetched blocks, joined in order. */
  function Reassemble(hl: seq<Entry>, cache: map<Hash, Bytes>, fetched: map<Hash, Bytes>): Bytes
    requires forall i :: 0 <= i < |hl| ==> hl[i].hash in cache || hl[i].hash in fetched
  {
    if hl == [] then []
    else
      var h := hl[|hl| - 1].hash;
      Reassemble(hl[..|hl| - 1], cache, fetched) + (if h in cache then cache[h] else fetched[h])
  }

  /** download: read the hash list, fetch the uncached blocks, and join all blocks in order. */
  function DownloadSpec(s: DirState, shards: Shards, numOfBlocks: nat, filename: string,
                        cache: map<Hash, Bytes>): Result<Bytes, DownloadError>
    requires Inv(s) && numOfBlocks > 0 && |shards| == numOfBlocks
  {
    var hl := Read(s, filename).1;
    if hl == [] then Err(FileNotFound)
    else
      match FetchAll(shards, FetchSet(hl, cache), numOfBlocks)
      case Err(e) => Err(e)
      case Ok(fetched) =>
        FetchCovers(hl, cache, shards, numOfBlocks);
        Ok(Reassemble(hl, cache, fetched))
  }

  /** Proof aid: DownloadSpec unfolded into its three outcomes (no list, a failed fetch, the join). */
  lemma DownloadUnfold(s: DirState, shards: Shards, numOfBlocks: nat, filename: string, cache: map<Hash, Bytes>)
    requires Inv(s) && numOfBlocks > 0 && |shards| == numOfBlocks
    ensures var hl := Read(s, filename).1;
      var d := DownloadSpec(s, shards, numOfBlocks, filename, cache);
      && (hl == [] ==> d == Err(FileNotFound))
      && (hl != [] && FetchAll(shards, FetchSet(hl, cache), numOfBlocks).Err? ==>
            d == Err(FetchAll(shards, FetchSet(hl, cache), numOfBlocks).error))
      && (hl != [] && FetchAll(shards, FetchSet(hl, cache), numOfBlocks).Ok? ==>
            (forall i :: 0 <= i < |hl| ==>
               hl[i].hash in cache || hl[i].hash in FetchAll(shards, FetchSet(hl, cache), numOfBlocks).value) &&
            d == Ok(Reassemble(hl, cache, FetchAll(shards, FetchSet(hl, cache), numOfBlocks).value)))
  {
    var hl := Read(s, filename).1;
    if hl != [] && FetchAll(shards, FetchSet(hl, cache), numOfBlocks).Ok? {
      FetchCovers(hl, cache, shards, numOfBlocks);
    }
  }

  /** The local cache download builds: nothing, or the chunker's dictionary of the local file. */
  function CacheOf(local: Option<Bytes>, sha: Bytes -> Hash): map<Hash, Bytes> {
    if local.None? then map[] else BlockIndex(Blocks(local.value), sha)
  }

  // ---------------------------------------------------------------------------
  // Lemmas the client's methods rely on

  /** A hash is fetched exactly when some entry has it and the cache does not hold a non-empty block for it. */
  lemma {:induction false} FetchSetMembership(hl: seq<Entry>, cache: map<Hash, Bytes>)
    ensures forall h :: h in FetchSet(hl, cache) <==> h in HashesOf(hl) && !Cached(cache, h)
  {
    if hl != [] {
      var init := hl[..|hl| - 1];
      FetchSetMembership(init, cache);
      assert HashesOf(hl) == HashesOf(init) + [hl[|hl| - 1].hash];
    }
  }

  /** A successful fetch holds every target, each with the block of the shard it is placed on. */
  lemma {:induction false} FetchAllHolds(shards: Shards, targets: seq<Hash>, numOfBlocks: nat)
    requires numOfBlocks > 0 && |shards| == numOfBlocks
    requires FetchAll(shards, targets, numOfBlocks).Ok?
    ensures forall h :: h in targets ==> h in FetchAll(shards, targets, numOfBlocks).value
    ensures forall h :: h in FetchAll(shards, targets, numOfBlocks).value ==>
      h in shards[FindServer(h, numOfBlocks)] &&
      FetchAll(shards, targets, numOfBlocks).value[h] == shards[FindServer(h, numOfBlocks)][h]
  {
    if targets != [] {
      var init := targets[..|targets| - 1];
      FetchAllHolds(shards, init, numOfBlocks);
      assert targets == init + [targets[|targets| - 1]];
    }
  }

  /** A failed fetch of a prefix is the failure of the whole fetch. */
  lemma {:induction false} FetchAllErrPersists(shards: Shards, targets: seq<Hash>, k: nat, numOfBlocks: nat)
    requires numOfBlocks > 0 && |shards| == numOfBlocks
    requires k <= |targets|
    requires FetchAll(shards, targets[..k], numOfBlocks).Err?
    ensures FetchAll(shards, targets, numOfBlocks) == FetchAll(shards, targets[..k], numOfBlocks)
    decreases |targets| - k
  {
    if k < |targets| {
      var t := targets[..k + 1];
      assert t[..k] == targets[..k];
      assert FetchAll(shards, t, numOfBlocks) == FetchAll(shards, targets[..k], numOfBlocks);
      FetchAllErrPersists(shards, targets, k + 1, numOfBlocks);
    } else {
      assert targets[..k] == targets;
    }
  }

  /** After a successful fetch every entry's block is in the cache or among the fetched blocks. */
  lemma FetchCovers(hl: seq<Entry>, cache: map<Hash, Bytes>, shards: Shards, numOfBlocks: nat)
    requires numOfBlocks > 0 && |shards| == numOfBlocks
    requires FetchAll(shards, FetchSet(hl, cache), numOfBlocks).Ok?
    ensures forall i :: 0 <= i < |hl| ==>
      hl[i].hash in cache || hl[i].hash in FetchAll(shards, FetchSet(hl, cache), numOfBlocks).value
  {
    FetchSetMembership(hl, cache);
    FetchAllHolds(shards, FetchSet(hl, cache), numOfBlocks);
    forall i | 0 <= i < |hl|
      ensures hl[i].hash in cache || hl[i].hash in FetchAll(shards, FetchSet(hl, cache), numOfBlocks).value
    {
      assert HashesOf(hl)[i] == hl[i].hash;
    }
  }

  /** Without concurrent writers the version upload proposes is always accepted. */
  lemma UploadSucceeds(s: DirState, shards: Shards, numOfBlocks: nat, sha: Bytes -> Hash, filename: string, data: Bytes)
    requires Inv(s) && numOfBlocks > 0 && |shards| == numOfBlocks
    ensures UploadSpec(s, shards, numOfBlocks, sha, filename, data).0.Ok?
  {
    if filename in s.files {
      assert RecordOk(s.files[filename], s.loc);
    }
  }

  // ---------------------------------------------------------------------------
  // The system invariant: every block a record names is on its shard

  /** Each hash of `hs` is held by the shard it is placed on. */
  ghost predicate BlocksStored(hs: seq<Hash>, shards: Shards, numOfBlocks: nat)
    requires numOfBlocks > 0 && |shards| == numOfBlocks
  {
    forall i :: 0 <= i < |hs| ==> hs[i] in shards[FindServer(hs[i], numOfBlocks)]
  }

  /**
   * The store is consistent, its shard table agrees with placement, every hash a record
   * names is held by its shard, and every shard holds blocks under their own hash.
   */
  ghost predicate SystemInv(s: DirState, shards: Shards, numOfBlocks: nat, sha: Bytes -> Hash) {
    && Inv(s)
    && numOfBlocks > 0
    && |shards| == numOfBlocks
    && (forall h :: h in s.loc ==> s.loc[h] == FindServer(h, numOfBlocks))
    && (forall f :: f in s.files ==> BlocksStored(s.files[f].hashes, shards, numOfBlocks))
    && (forall k :: 0 <= k < |shards| ==> CacheSound(shards[k], sha))
  }

  /** A fresh system (no files, no locations, every shard empty) satisfies the system invariant. */
  lemma EmptySystemInv(shards: Shards, numOfBlocks: nat, sha: Bytes -> Hash)
    requires numOfBlocks > 0 && |shards| == numOfBlocks
    requires forall k :: 0 <= k < |shards| ==> shards[k] == map[]
    ensures SystemInv(DirState(map[], map[]), shards, numOfBlocks, sha)
  {
  }

  /** Upload stores a block at exactly the shard of each missing hash, and nothing else changes. */
  lemma {:induction false} PushAllEffect(shards: Shards, missing: seq<Entry>, filehash: map<Hash, Bytes>,
                                         numOfBlocks: nat, k: nat, h: Hash)
    requires numOfBlocks > 0 && |shards| == numOfBlocks
    requires forall i :: 0 <= i < |missing| ==> missing[i].hash in filehash
    requires k < numOfBlocks
    ensures var pushed := h in HashesOf(missing) && FindServer(h, numOfBlocks) == k;
      && (h in PushAll(shards, missing, filehash, numOfBlocks)[k] <==> pushed || h in shards[k])
      && (pushed ==> PushAll(shards, missing, filehash, numOfBlocks)[k][h] == filehash[h])
      && (!pushed && h in shards[k] ==> PushAll(shards, missing, filehash, numOfBlocks)[k][h] == shards[k][h])
  {
    if missing != [] {
      var init := missing[..|missing| - 1];
      PushAllEffect(shards, init, filehash, numOfBlocks, k, h);
      assert HashesOf(missing) == HashesOf(init) + [missing[|missing| - 1].hash];
    }
  }

  /** The shard table written by an upload's hashlist agrees with placement. */
  lemma EntriesLocated(loc: map<Hash, int>, hl: seq<Hash>, numOfBlocks: nat, h: Hash)
    requires numOfBlocks > 0
    requires h in loc ==> loc[h] == FindServer(h, numOfBlocks)
    ensures h in RecordLocations(loc, EntriesFor(hl, numOfBlocks)) ==>
      RecordLocations(loc, EntriesFor(hl, numOfBlocks))[h] == FindServer(h, numOfBlocks)
  {
    var es := EntriesFor(hl, numOfBlocks);
    MetaStoreProps.LocationsAfter(loc, es, h);
    if h in HashesOf(es) {
      var i :| 0 <= i < |es| && HashesOf(es)[i] == h;
      MetaStoreProps.LastShardConsistent(es, i);
    }
  }

  /** Pushing only adds blocks: whatever a shard held it still holds. */
  lemma {:induction false} PushAllGrows(shards: Shards, missing: seq<Entry>, filehash: map<Hash, Bytes>, numOfBlocks: nat)
    requires numOfBlocks > 0 && |shards| == numOfBlocks
    requires forall i :: 0 <= i < |missing| ==> missing[i].hash in filehash
    ensures forall k, h :: 0 <= k < numOfBlocks && h in shards[k] ==> h in PushAll(shards, missing, filehash, numOfBlocks)[k]
  {
    if missing != [] {
      PushAllGrows(shards, missing[..|missing| - 1], filehash, numOfBlocks);
    }
  }

  /** Pushing blocks that carry their own hash keeps every shard holding blocks under their own hash. */
  lemma {:induction false} PushAllSound(shards: Shards, missing: seq<Entry>, filehash: map<Hash, Bytes>,
                                        numOfBlocks: nat, sha: Bytes -> Hash)
    requires numOfBlocks > 0 && |shards| == numOfBlocks
    requires forall i :: 0 <= i < |missing| ==> missing[i].hash in filehash
    requires CacheSound(filehash, sha)
    requires forall k :: 0 <= k < numOfBlocks ==> CacheSound(shards[k], sha)
    ensures forall k :: 0 <= k < numOfBlocks ==> CacheSound(PushAll(shards, missing, filehash, numOfBlocks)[k], sha)
  {
    if missing != [] {
      PushAllSound(shards, missing[..|missing| - 1], filehash, numOfBlocks, sha);
    }
  }

  /** Every missing entry's block ends up on the shard of its hash. */
  lemma {:induction false} PushAllStores(shards: Shards, missing: seq<Entry>, filehash: map<Hash, Bytes>, numOfBlocks: nat)
    requires numOfBlocks > 0 && |shards| == numOfBlocks
    requires forall i :: 0 <= i < |missing| ==> missing[i].hash in filehash
    ensures forall i :: 0 <= i < |missing| ==>
      missing[i].hash in PushAll(shards, missing, filehash, numOfBlocks)[FindServer(missing[i].hash, numOfBlocks)]
  {
    if missing != [] {
      var init := missing[..|missing| - 1];
      PushAllStores(shards, init, filehash, numOfBlocks);
      forall i | 0 <= i < |missing| - 1
        ensures missing[i].hash in PushAll(shards, missing, filehash, numOfBlocks)[FindServer(missing[i].hash, numOfBlocks)]
      {
        assert missing[i] == init[i];
        var k := FindServer(missing[i].hash, numOfBlocks);
        assert missing[i].hash in PushAll(shards, init, filehash, numOfBlocks)[k];
      }
    }
  }

  /** The new record's blocks are all stored: each was either in the file's prior record or reported missing and pushed. */
  lemma NewRecordStored(s: DirState, shards: Shards, numOfBlocks: nat, filename: string, version: int,
                        entries: seq<Entry>, filehash: map<Hash, Bytes>)
    requires numOfBlocks > 0 && |shards| == numOfBlocks
    requires Modify(s, filename, version, entries).0.Ok?
    requires forall i :: 0 <= i < |entries| ==> entries[i].hash in filehash
    requires BlocksStored(MetaStoreProps.PriorHashes(s, filename), shards, numOfBlocks)
    ensures var missing := Modify(s, filename, version, entries).0.value;
      (forall i :: 0 <= i < |missing| ==> missing[i].hash in filehash) &&
      BlocksStored(HashesOf(entries), PushAll(shards, missing, filehash, numOfBlocks), numOfBlocks)
  {
    var missing := Modify(s, filename, version, entries).0.value;
    var prior := MetaStoreProps.PriorHashes(s, filename);
    MetaStoreProps.ModifyReportsNewHashes(s, filename, version, entries);
    assert forall i :: 0 <= i < |missing| ==> missing[i].hash in filehash by {
      forall i | 0 <= i < |missing| ensures missing[i].hash in filehash {
        assert missing[i] in missing;
      }
    }
    var pushed := PushAll(shards, missing, filehash, numOfBlocks);
    PushAllGrows(shards, missing, filehash, numOfBlocks);
    PushAllStores(shards, missing, filehash, numOfBlocks);
    forall i | 0 <= i < |entries| ensures entries[i].hash in pushed[FindServer(entries[i].hash, numOfBlocks)] {
      var h := entries[i].hash;
      if h in prior {
        var j :| 0 <= j < |prior| && prior[j] == h;
        assert h in shards[FindServer(h, numOfBlocks)];
      } else {
        assert entries[i] in missing;
        var j :| 0 <= j < |missing| && missing[j] == entries[i];
      }
    }
  }

  /** A successful modify with placed entries, followed by pushing the missing blocks, keeps the system invariant. */
  lemma ModifyPushKeepsSystemInv(s: DirState, shards: Shards, numOfBlocks: nat, sha: Bytes -> Hash,
                                 filename: string, version: int, hl: seq<Hash>, filehash: map<Hash, Bytes>)
    requires SystemInv(s, shards, numOfBlocks, sha)
    requires Modify(s, filename, version, EntriesFor(hl, numOfBlocks)).0.Ok?
    requires forall i :: 0 <= i < |hl| ==> hl[i] in filehash
    requires CacheSound(filehash, sha)
    ensures var step := Modify(s, filename, version, EntriesFor(hl, numOfBlocks));
      (forall i :: 0 <= i < |step.0.value| ==> step.0.value[i].hash in filehash) &&
      SystemInv(step.1, PushAll(shards, step.0.value, filehash, numOfBlocks), numOfBlocks, sha)
  {
    var entries := EntriesFor(hl, numOfBlocks);
    var step := Modify(s, filename, version, entries);
    var missing := step.0.value;
    assert BlocksStored(MetaStoreProps.PriorHashes(s, filename), shards, numOfBlocks) by {
      if filename in s.files {
        assert BlocksStored(s.files[filename].hashes, shards, numOfBlocks);
      }
    }
    NewRecordStored(s, shards, numOfBlocks, filename, version, entries, filehash);
    var pushed := PushAll(shards, missing, filehash, numOfBlocks);
    ModifyKeepsInv(s, filename, version, entries);
    PushAllSound(shards, missing, filehash, numOfBlocks, sha);
    PushAllGrows(shards, missing, filehash, numOfBlocks);
    assert forall h :: h in step.1.loc ==> step.1.loc[h] == FindServer(h, numOfBlocks) by {
      forall h | h in step.1.loc ensures step.1.loc[h] == FindServer(h, numOfBlocks) {
        EntriesLocated(s.loc, hl, numOfBlocks, h);
      }
    }
    assert forall f :: f in step.1.files ==> BlocksStored(step.1.files[f].hashes, pushed, numOfBlocks) by {
      forall f | f in step.1.files ensures BlocksStored(step.1.files[f].hashes, pushed, numOfBlocks) {
        if f != filename {
          assert BlocksStored(s.files[f].hashes, shards, numOfBlocks);
          assert step.1.files[f] == s.files[f];
        }
      }
    }
  }

  /** Upload keeps the system invariant: every block the new record names has been pushed or was already stored. */
  lemma UploadKeepsSystemInv(s: DirState, shards: Shards, numOfBlocks: nat, sha: Bytes -> Hash, filename: string, data: Bytes)
    requires SystemInv(s, shards, numOfBlocks, sha)
    ensures var u := UploadSpec(s, shards, numOfBlocks, sha, filename, data);
      SystemInv(u.1, u.2, numOfBlocks, sha)
  {
    UploadSucceeds(s, shards, numOfBlocks, sha, filename, data);
    var bs := Blocks(data);
    var hl := HashList(bs, sha);
    BlockIndexSound(bs, sha);
    assert forall i :: 0 <= i < |hl| ==> hl[i] in BlockIndex(bs, sha) by {
      forall i | 0 <= i < |hl| ensures hl[i] in BlockIndex(bs, sha) {
        assert hl[i] in hl;
      }
    }
    ModifyPushKeepsSystemInv(s, shards, numOfBlocks, sha, filename, Read(s, filename).0 + 1, hl, BlockIndex(bs, sha));
  }

  /** Delete keeps the system invariant: a tombstone names no blocks. */
  lemma ClientDeleteKeepsSystemInv(s: DirState, shards: Shards, numOfBlocks: nat, sha: Bytes -> Hash, filename: string)
    requires SystemInv(s, shards, numOfBlocks, sha)
    ensures SystemInv(ClientDelete(s, filename).1, shards, numOfBlocks, sha)
  {
    var v := Read(s, filename).0;
    if v != 0 {
      var s' := Delete(s, filename, v + 1).1;
      DeleteKeepsInv(s, filename, v + 1);
      forall f | f in s'.files ensures BlocksStored(s'.files[f].hashes, shards, numOfBlocks) {
        if f != filename {
          assert s'.files[f] == s.files[f];
        }
      }
    }
  }

  // ---------------------------------------------------------------------------

  /** A SurfStore client talking to one metadata store and its block shards. */
  class SurfStoreClient {
    const numOfBlocks: nat
    const sha: Bytes -> Hash
    const meta: MetadataStore
    const store: BlockStore.BlockStores

    ghost predicate Valid()
      reads meta, store
    {
      meta.Valid() && numOfBlocks > 0 && |store.shards| == numOfBlocks
    }

    /** Every block a record names is on its shard (the invariant the protocol keeps). */
    ghost predicate Consistent()
      reads meta, store
    {
      SystemInv(meta.State(), store.shards, numOfBlocks, sha)
    }

    constructor (numOfBlocks: nat, sha: Bytes -> Hash, meta: MetadataStore, store: BlockStore.BlockStores)
      requires numOfBlocks > 0 && meta.Valid() && |store.shards| == numOfBlocks
      ensures Valid()
      ensures this.numOfBlocks == numOfBlocks && this.sha == sha
      ensures this.meta == meta && this.store == store
      ensures (meta.State() == DirState(map[], map[]) &&
               forall k :: 0 <= k < |store.shards| ==> store.shards[k] == map[]) ==> Consistent()
    {
      this.numOfBlocks := numOfBlocks;
      this.sha := sha;
      this.meta := meta;
      this.store := store;
      if meta.State() == DirState(map[], map[]) && (forall k :: 0 <= k < |store.shards| ==> store.shards[k] == map[]) {
        EmptySystemInv(store.shards, numOfBlocks, sha);
      }
    }

    /** upload: one attempt; the missing list the store answers with is returned. */
    method Upload(filename: string, data: Bytes) returns (missing: seq<Entry>)
      requires Valid()
      modifies meta, store
      ensures Valid()
      ensures (Ok(missing), meta.State(), store.shards) ==
        UploadSpec(old(meta.State()), old(store.shards), numOfBlocks, sha, filename, data)
      ensures old(Consistent()) ==> Consistent()
    {
      ghost var s0, sh0 := meta.State(), store.shards;
      UploadSucceeds(s0, sh0, numOfBlocks, sha, filename, data);
      UploadUnfold(s0, sh0, numOfBlocks, sha, filename, data);
      if SystemInv(s0, sh0, numOfBlocks, sha) {
        UploadKeepsSystemInv(s0, sh0, numOfBlocks, sha, filename, data);
      }
      var r, filehash := UploadMetadata(filename, data);
      missing := r.value;
      ghost var s1 := meta.State();
      PushMissing(missing, filehash);
      assert meta.State() == s1;
    }

    /** The metadata half of upload: chunk the data, read the version, and modify at version + 1. */
    method UploadMetadata(filename: string, data: Bytes) returns (r: Result<seq<Entry>, StoreError>, filehash: map<Hash, Bytes>)
      requires meta.Valid() && numOfBlocks > 0
      modifies meta
      ensures meta.Valid()
      ensures (r, meta.State()) == UploadModify(old(meta.State()), numOfBlocks, sha, filename, data)
      ensures filehash == BlockIndex(Blocks(data), sha)
    {
      ghost var s0 := meta.State();
      var filehl, fh := ChunkFile(data, sha);
      filehash := fh;
      var v, hl := meta.ReadFile(filename);
      v := v + 1;
      var entries := EntriesFor(filehl, numOfBlocks);
      assert v == Read(s0, filename).0 + 1;
      r := meta.ModifyFile(filename, v, entries);
    }

    /** The push loop of upload: each missing block goes to the shard findserver names. */
    method PushMissing(missing: seq<Entry>, filehash: map<Hash, Bytes>)
      requires numOfBlocks > 0 && |store.shards| == numOfBlocks
      requires forall i :: 0 <= i < |missing| ==> missing[i].hash in filehash
      modifies store
      ensures store.shards == PushAll(old(store.shards), missing, filehash, numOfBlocks)
    {
      var j := 0;
      while j < |missing|
        invariant 0 <= j <= |missing|
        invariant |store.shards| == numOfBlocks
        invariant store.shards == PushAll(old(store.shards), missing[..j], filehash, numOfBlocks)
      {
        assert missing[..j + 1][..j] == missing[..j];
        var h := missing[j].hash;
        var blocknum := FindServer(h, numOfBlocks);
        store.StoreBlock(blocknum, h, filehash[h]);
        j := j + 1;
      }
      assert missing[..j] == missing;
    }

    /** delete: -1 when the file was never stored, else the tombstone is written and 0 returned. */
    method Delete(filename: string) returns (status: int)
      requires Valid()
      modifies meta
      ensures Valid()
      ensures (status, meta.State()) == ClientDelete(old(meta.State()), filename)
      ensures old(Consistent()) ==> Consistent()
    {
      if Consistent() {
        ClientDeleteKeepsSystemInv(meta.State(), store.shards, numOfBlocks, sha, filename);
      }
      var v, hl := meta.ReadFile(filename);
      if v == 0 {
        return -1;
      }
      var result := meta.DeleteFile(filename, v + 1);
      return 0;
    }

    /**
     * download: `local` is the existing local file, if any. Fails with FileNotFound when
     * the store lists no blocks; the answer is the reassembled file.
     */
    method Download(filename: string, local: Option<Bytes>) returns (r: Result<Bytes, DownloadError>)
      requires Valid()
      ensures r == DownloadSpec(meta.State(), store.shards, numOfBlocks, filename, CacheOf(local, sha))
    {
      ghost var cache := CacheOf(local, sha);
      DownloadUnfold(meta.State(), store.shards, numOfBlocks, filename, cache);
      var filehash: map<Hash, Bytes> := map[];
      if local.Some? {
        var _, fh := ChunkFile(local.value, sha);
        filehash := fh;
      }
      assert filehash == cache;
      var v, hl := meta.ReadFile(filename);
      assert hl == Read(meta.State(), filename).1;
      if hl == [] {
        return Err(FileNotFound);
      }
      var targethash := SelectTargets(hl, filehash);
      assert targethash == FetchSet(hl, cache);
      var fetched := FetchBlocks(targethash);
      assert fetched == FetchAll(store.shards, FetchSet(hl, cache), numOfBlocks);
      if fetched.Err? {
        return Err(fetched.error);
      }
      var fresult := JoinBlocks(hl, filehash, fetched.value);
      r := Ok(fresult);
    }

    /** The fetch loop of download: get_block for each target from the shard findserver names. */
    method FetchBlocks(targethash: seq<Hash>) returns (r: Result<map<Hash, Bytes>, DownloadError>)
      requires numOfBlocks > 0 && |store.shards| == numOfBlocks
      ensures r == FetchAll(store.shards, targethash, numOfBlocks)
    {
      var hashfromblock := map[];
      var i := 0;
      while i < |targethash|
        invariant 0 <= i <= |targethash|
        invariant FetchAll(store.shards, targethash[..i], numOfBlocks) == Ok(hashfromblock)
      {
        assert targethash[..i + 1][..i] == targethash[..i];
        var h := targethash[i];
        var blocknum := FindServer(h, numOfBlocks);
        var block := store.GetBlock(blocknum, h);
        if block.None? {
          FetchAllErrPersists(store.shards, targethash, i + 1, numOfBlocks);
          return Err(BlockNotFound(h));
        }
        hashfromblock := hashfromblock[h := block.value];
        i := i + 1;
      }
      assert targethash[..i] == targethash;
      r := Ok(hashfromblock);
    }
  }

  /** The target loop of download: the hashes whose block the cache does not hold (truthily), in order. */
  method SelectTargets(hl: seq<Entry>, filehash: map<Hash, Bytes>) returns (targethash: seq<Hash>)
    ensures targethash == FetchSet(hl, filehash)
  {
    targethash := [];
    var i := 0;
    while i < |hl|
      invariant 0 <= i <= |hl|
      invariant targethash == FetchSet(hl[..i], filehash)
    {
      assert hl[..i + 1][..i] == hl[..i];
      if !(hl[i].hash in filehash && |filehash[hl[i].hash]| > 0) {
        targethash := targethash + [hl[i].hash];
      }
      i := i + 1;
    }
    assert hl[..i] == hl;
  }

  /** The reassembly loop of download: every block, from the cache if present, else fetched, appended in order. */
  method JoinBlocks(hl: seq<Entry>, filehash: map<Hash, Bytes>, hashfromblock: map<Hash, Bytes>) returns (fresult: Bytes)
    requires forall i :: 0 <= i < |hl| ==> hl[i].hash in filehash || hl[i].hash in hashfromblock
    ensures fresult == Reassemble(hl, filehash, hashfromblock)
  {
    fresult := [];
    var i := 0;
    while i < |hl|
      invariant 0 <= i <= |hl|
      invariant fresult == Reassemble(hl[..i], filehash, hashfromblock)
    {
      assert hl[..i + 1][..i] == hl[..i];
      var l := hl[i].hash;
      if l in filehash {
        fresult := fresult + filehash[l];
      } else {
        fresult := fresult + hashfromblock[l];
      }
      i := i + 1;
    }
    assert hl[..i] == hl;
  }
}
