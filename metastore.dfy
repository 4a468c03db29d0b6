/**
 * The metadata store: filename -> (version, hashes) with an optimistic version gate,
 * and one hash -> shard table shared by all files.
 *
 * The pure functions Read, Modify and Delete say what each request does to the whole
 * store state; the class MetadataStore performs the same requests step by step on its
 * two dictionaries and is proved against them.
 */
module MetaStore {
  import opened Types

  /** The store's whole state: the file table and the global hash -> shard table. */
  datatype DirState = DirState(files: map<string, FileRecord>, loc: map<Hash, int>)

  /** A stored record has a positive version and a recorded shard for each of its hashes. */
  ghost predicate RecordOk(r: FileRecord, loc: map<Hash, int>) {
    r.version >= 1 && forall i :: 0 <= i < |r.hashes| ==> r.hashes[i] in loc
  }

  ghost predicate Inv(s: DirState) {
    forall f :: f in s.files ==> RecordOk(s.files[f], s.loc)
  }

  /** The entries of `es` whose hash does not occur in `prior`, in the order of `es`. */
  function Missing(es: seq<Entry>, prior: seq<Hash>): seq<Entry>
  {
    if es == [] then []
    else
      var last := es[|es| - 1];
      Missing(es[..|es| - 1], prior) + (if last.hash in prior then [] else [last])
  }

  /** The shard table after writing the shard of every entry of `es`, first to last. */
  function RecordLocations(loc: map<Hash, int>, es: seq<Entry>): map<Hash, int>
  {
    if es == [] then loc
    else
      var last := es[|es| - 1];
      RecordLocations(loc, es[..|es| - 1])[last.hash := last.shard]
  }

  /** The shard of the last entry of `es` whose hash is `h`. */
  function LastShard(es: seq<Entry>, h: Hash): int
    requires h in HashesOf(es)
  {
    var last := es[|es| - 1];
    if last.hash == h then last.shard
    else
      assert h in HashesOf(es[..|es| - 1]) by {
        var i :| 0 <= i < |es| && HashesOf(es)[i] == h;
        assert i < |es| - 1 && HashesOf(es[..|es| - 1])[i] == h;
      }
      LastShard(es[..|es| - 1], h)
  }

  /** Each hash paired with the shard the table records for it. */
  function Located(hs: seq<Hash>, loc: map<Hash, int>): seq<Entry>
    requires forall i :: 0 <= i < |hs| ==> hs[i] in loc
  {
    seq(|hs|, i requires 0 <= i < |hs| => Entry(hs[i], loc[hs[i]]))
  }

  /** read_file: the current version and entries of a file; (0, []) for an unknown name. */
  function Read(s: DirState, filename: string): (r: (int, seq<Entry>))
    requires Inv(s)
    ensures r.0 == 0 <==> filename !in s.files
    ensures r.0 >= 0
    ensures filename in s.files ==> r.0 == s.files[filename].version
    ensures HashesOf(r.1) == if filename in s.files then s.files[filename].hashes else []
    ensures forall i :: 0 <= i < |r.1| ==> r.1[i].hash in s.loc && r.1[i].shard == s.loc[r.1[i].hash]
  {
    if filename !in s.files then (0, [])
    else
      var rec := s.files[filename];
      assert RecordOk(rec, s.loc);
      (rec.version, Located(rec.hashes, s.loc))
  }

  /** A successful modify: replace the record and write every entry's shard. */
  function Commit(s: DirState, filename: string, version: int, hashlist: seq<Entry>, prior: seq<Hash>)
    : (Result<seq<Entry>, StoreError>, DirState)
  {
    (Ok(Missing(hashlist, prior)),
     DirState(s.files[filename := FileRecord(version, HashesOf(hashlist))],
              RecordLocations(s.loc, hashlist)))
  }

  /**
   * modify_file: a new name is created only at version 1; a known name only accepts
   * exactly its version + 1. On success the answer lists the entries whose hash was not
   * in the file's previous record.
   */
  function Modify(s: DirState, filename: string, version: int, hashlist: seq<Entry>)
    : (r: (Result<seq<Entry>, StoreError>, DirState))
    ensures r.0.Ok? <==>
      (filename !in s.files && version == 1) ||
      (filename in s.files && version == s.files[filename].version + 1)
    ensures r.0.Err? ==> r.1 == s
    ensures filename in s.files && version != s.files[filename].version + 1 ==>
      r.0 == Err(VersionError(version))
    ensures filename !in s.files && version != 1 ==> r.0 == Err(UnknownFile)
    ensures r.0.Ok? ==>
      filename in r.1.files && r.1.files[filename] == FileRecord(version, HashesOf(hashlist))
    ensures forall g :: g != filename ==>
      (g in r.1.files <==> g in s.files) && (g in s.files ==> r.1.files[g] == s.files[g])
  {
    if version == 1 && filename !in s.files then
      Commit(s, filename, version, hashlist, [])
    else if filename !in s.files then
      (Err(UnknownFile), s)
    else if version != s.files[filename].version + 1 then
      (Err(VersionError(version)), s)
    else
      Commit(s, filename, version, hashlist, s.files[filename].hashes)
  }

  /**
   * delete_file: a known name accepts exactly its version + 1 and keeps a tombstone
   * record of that version; the shard table is untouched.
   */
  function Delete(s: DirState, filename: string, version: int): (r: (Result<(), StoreError>, DirState))
    ensures r.0.Ok? <==> filename in s.files && version == s.files[filename].version + 1
    ensures r.0.Err? ==> r.1 == s
    ensures filename in s.files && version != s.files[filename].version + 1 ==>
      r.0 == Err(VersionError(s.files[filename].version))
    ensures filename !in s.files ==> r.0 == Err(UnknownFile)
    ensures r.1.loc == s.loc
    ensures r.0.Ok? ==> r.1.files == s.files[filename := FileRecord(version, [])]
  {
    if filename !in s.files then (Err(UnknownFile), s)
    else if version == s.files[filename].version + 1 then
      (Ok(()), s.(files := s.files[filename := FileRecord(version, [])]))
    else
      (Err(VersionError(s.files[filename].version)), s)
  }

  /** Writing shards never forgets a hash, and records every hash written. */
  lemma {:induction false} RecordLocationsKeys(loc: map<Hash, int>, es: seq<Entry>)
    ensures forall h :: h in loc ==> h in RecordLocations(loc, es)
    ensures forall i :: 0 <= i < |es| ==> es[i].hash in RecordLocations(loc, es)
  {
    if es != [] {
      var init := es[..|es| - 1];
      RecordLocationsKeys(loc, init);
      forall i | 0 <= i < |es| ensures es[i].hash in RecordLocations(loc, es) {
        if i < |es| - 1 {
          assert es[i] == init[i];
        }
      }
    }
  }

  lemma ModifyKeepsInv(s: DirState, filename: string, version: int, hashlist: seq<Entry>)
    requires Inv(s)
    ensures Inv(Modify(s, filename, version, hashlist).1)
  {
    var s' := Modify(s, filename, version, hashlist).1;
    if Modify(s, filename, version, hashlist).0.Ok? {
      RecordLocationsKeys(s.loc, hashlist);
      assert s'.loc == RecordLocations(s.loc, hashlist);
      assert version >= 1 by {
        if filename in s.files { assert RecordOk(s.files[filename], s.loc); }
      }
      forall f | f in s'.files ensures RecordOk(s'.files[f], s'.loc) {
        if f != filename {
          assert RecordOk(s.files[f], s.loc);
        }
      }
    }
  }

  lemma DeleteKeepsInv(s: DirState, filename: string, version: int)
    requires Inv(s)
    ensures Inv(Delete(s, filename, version).1)
  {
    var s' := Delete(s, filename, version).1;
    if Delete(s, filename, version).0.Ok? {
      assert RecordOk(s.files[filename], s.loc);
      forall f | f in s'.files ensures RecordOk(s'.files[f], s'.loc) {
        if f != filename {
          assert RecordOk(s.files[f], s.loc);
        }
      }
    }
  }

  /** The missing-hash scan of modify, one entry at a time. */
  method CollectMissing(hashlist: seq<Entry>, prior: seq<Hash>) returns (missinghash: seq<Entry>)
    ensures missinghash == Missing(hashlist, prior)
  {
    missinghash := [];
    var i := 0;
    while i < |hashlist|
      invariant 0 <= i <= |hashlist|
      invariant missinghash == Missing(hashlist[..i], prior)
    {
      assert hashlist[..i + 1][..i] == hashlist[..i];
      if hashlist[i].hash !in prior {
        missinghash := missinghash + [hashlist[i]];
      }
      i := i + 1;
    }
    assert hashlist[..i] == hashlist;
  }

  /** The MetadataStore service object: its two dictionaries, updated in place. */
  class MetadataStore {
    const numOfBlocks: nat
    var filesInStore: map<string, FileRecord>
    var hashLoc: map<Hash, int>

    function State(): DirState
      reads this
    {
      DirState(filesInStore, hashLoc)
    }

    ghost predicate Valid()
      reads this
    {
      Inv(State())
    }

    constructor (numOfBlocks: nat)
      ensures Valid()
      ensures this.numOfBlocks == numOfBlocks
      ensures filesInStore == map[] && hashLoc == map[]
    {
      this.numOfBlocks := numOfBlocks;
      filesInStore := map[];
      hashLoc := map[];
    }

    /** exposed_read_file: builds the [hash, shard] list without touching the state. */
    method ReadFile(filename: string) returns (v: int, hl: seq<Entry>)
      requires Valid()
      ensures (v, hl) == Read(State(), filename)
    {
      if filename !in filesInStore {
        return 0, [];
      }
      var rec := filesInStore[filename];
      assert RecordOk(rec, hashLoc);
      v := rec.version;
      hl := [];
      if |rec.hashes| > 0 {
        var i := 0;
        while i < |rec.hashes|
          invariant 0 <= i <= |rec.hashes|
          invariant hl == Located(rec.hashes[..i], hashLoc)
        {
          var l := rec.hashes[i];
          hl := hl + [Entry(l, hashLoc[l])];
          i := i + 1;
        }
        assert rec.hashes[..i] == rec.hashes;
      }
    }

    /** exposed_modify_file: version gate, missing-hash scan, then the record and shard writes. */
    method ModifyFile(filename: string, version: int, hashlist: seq<Entry>)
      returns (r: Result<seq<Entry>, StoreError>)
      requires Valid()
      modifies this
      ensures Valid()
      ensures (r, State()) == Modify(old(State()), filename, version, hashlist)
    {
      ModifyKeepsInv(State(), filename, version, hashlist);
      ghost var s0 := State();
      if version == 1 && filename !in filesInStore {
        filesInStore := filesInStore[filename := FileRecord(1, [])];
      } else {
        if filename !in filesInStore {
          return Err(UnknownFile);
        }
        var fileversion := filesInStore[filename].version;
        if version != fileversion + 1 {
          return Err(VersionError(version));
        }
      }
      var prior := filesInStore[filename].hashes;
      assert prior == if old(filename in filesInStore) then old(filesInStore[filename].hashes) else [];
      var missinghash := CollectMissing(hashlist, prior);
      WriteRecord(filename, version, hashlist);
      assert filesInStore == s0.files[filename := FileRecord(version, HashesOf(hashlist))];
      r := Ok(missinghash);
      assert (r, State()) == Commit(s0, filename, version, hashlist, prior);
    }

    /** The record-rewriting loop of modify: the new record and every entry's shard. */
    method WriteRecord(filename: string, version: int, hashlist: seq<Entry>)
      modifies this
      ensures filesInStore == old(filesInStore)[filename := FileRecord(version, HashesOf(hashlist))]
      ensures hashLoc == RecordLocations(old(hashLoc), hashlist)
    {
      filesInStore := filesInStore[filename := FileRecord(version, [])];
      var i := 0;
      while i < |hashlist|
        invariant 0 <= i <= |hashlist|
        invariant filesInStore == old(filesInStore)[filename := FileRecord(version, HashesOf(hashlist[..i]))]
        invariant hashLoc == RecordLocations(old(hashLoc), hashlist[..i])
      {
        assert hashlist[..i + 1][..i] == hashlist[..i];
        assert HashesOf(hashlist[..i + 1]) == HashesOf(hashlist[..i]) + [hashlist[i].hash];
        var hs := filesInStore[filename].hashes;
        filesInStore := filesInStore[filename := FileRecord(version, hs + [hashlist[i].hash])];
        hashLoc := hashLoc[hashlist[i].hash := hashlist[i].shard];
        i := i + 1;
      }
      assert hashlist[..i] == hashlist;
    }

    /** exposed_delete_file: version gate, then a tombstone record. */
    method DeleteFile(filename: string, version: int) returns (r: Result<(), StoreError>)
      requires Valid()
      modifies this
      ensures Valid()
      ensures (r, State()) == Delete(old(State()), filename, version)
    {
      DeleteKeepsInv(State(), filename, version);
      if filename !in filesInStore {
        return Err(UnknownFile);
      }
      var fversion := filesInStore[filename].version;
      if version == fversion + 1 {
        filesInStore := filesInStore[filename := FileRecord(version, [])];
        return Ok(());
      } else {
        return Err(VersionError(fversion));
      }
    }
  }
}
