/** Properties of the metadata store's requests, stated on the pure model of MetaStore. */
module MetaStoreProps {
  import opened Types
  import opened MetaStore

  /** Every hash of `es` is paired with one shard throughout `es`. */
  ghost predicate ShardConsistent(es: seq<Entry>) {
    forall i, j :: 0 <= i < |es| && 0 <= j < |es| && es[i].hash == es[j].hash ==> es[i].shard == es[j].shard
  }

  /** The hashes modify compares against: the file's previous record, or none for a new file. */
  function PriorHashes(s: DirState, filename: string): seq<Hash> {
    if filename in s.files then s.files[filename].hashes else []
  }

  // ---------------------------------------------------------------------------
  // The missing list

  /** An entry is reported missing exactly when it is in the hashlist and its hash is not in the prior record. */
  lemma {:induction false} MissingMembership(es: seq<Entry>, prior: seq<Hash>)
    ensures forall e :: e in Missing(es, prior) <==> e in es && e.hash !in prior
  {
    if es != [] {
      var init := es[..|es| - 1];
      MissingMembership(init, prior);
      assert es == init + [es[|es| - 1]];
    }
  }

  /** The missing list keeps hashlist order: it distributes over concatenation. */
  lemma {:induction false} MissingConcat(a: seq<Entry>, b: seq<Entry>, prior: seq<Hash>)
    ensures Missing(a + b, prior) == Missing(a, prior) + Missing(b, prior)
  {
    if b == [] {
      assert a + b == a;
    } else {
      var binit := b[..|b| - 1];
      MissingConcat(a, binit, prior);
      assert (a + b)[..|a + b| - 1] == a + binit;
    }
  }

  /** Against an empty prior record every entry is missing, in order. */
  lemma {:induction false} MissingAgainstNothing(es: seq<Entry>)
    ensures Missing(es, []) == es
  {
    if es != [] {
      MissingAgainstNothing(es[..|es| - 1]);
    }
  }

  /** Nothing is missing exactly when every hash was already in the prior record. */
  lemma {:induction false} MissingEmptyIff(es: seq<Entry>, prior: seq<Hash>)
    ensures Missing(es, prior) == [] <==> forall i :: 0 <= i < |es| ==> es[i].hash in prior
  {
    MissingMembership(es, prior);
    if Missing(es, prior) == [] {
      forall i | 0 <= i < |es| ensures es[i].hash in prior {
        assert es[i] in es;
      }
    } else {
      var e := Missing(es, prior)[0];
      assert e in Missing(es, prior);
      var i :| 0 <= i < |es| && es[i] == e;
      assert es[i].hash !in prior;
    }
  }

  // ---------------------------------------------------------------------------
  // The shard table

  /** Later entries overwrite earlier ones; hashes not in `es` keep their old shard. */
  lemma {:induction false} LocationsAfter(loc: map<Hash, int>, es: seq<Entry>, h: Hash)
    ensures h in RecordLocations(loc, es) <==> h in loc || h in HashesOf(es)
    ensures h in HashesOf(es) ==> RecordLocations(loc, es)[h] == LastShard(es, h)
    ensures h !in HashesOf(es) && h in loc ==> RecordLocations(loc, es)[h] == loc[h]
  {
    if es != [] {
      var init := es[..|es| - 1];
      LocationsAfter(loc, init, h);
      assert HashesOf(es) == HashesOf(init) + [es[|es| - 1].hash];
    }
  }

  /** With consistent shards the last shard of a hash is the shard of any of its entries. */
  lemma {:induction false} LastShardConsistent(es: seq<Entry>, i: int)
    requires ShardConsistent(es)
    requires 0 <= i < |es|
    ensures es[i].hash in HashesOf(es)
    ensures LastShard(es, es[i].hash) == es[i].shard
  {
    assert HashesOf(es)[i] == es[i].hash;
    var init := es[..|es| - 1];
    var last := es[|es| - 1];
    if last.hash != es[i].hash {
      assert i < |es| - 1;
      assert init[i] == es[i];
      assert ShardConsistent(init) by {
        forall a, b | 0 <= a < |init| && 0 <= b < |init| && init[a].hash == init[b].hash
          ensures init[a].shard == init[b].shard
        {
          assert init[a] == es[a] && init[b] == es[b];
        }
      }
      LastShardConsistent(init, i);
    }
  }

  // ---------------------------------------------------------------------------
  // modify followed by read

  /** A successful modify reports exactly the entries whose hash the file did not have before. */
  lemma ModifyReportsNewHashes(s: DirState, filename: string, version: int, hashlist: seq<Entry>)
    requires Modify(s, filename, version, hashlist).0.Ok?
    ensures Modify(s, filename, version, hashlist).0.value == Missing(hashlist, PriorHashes(s, filename))
    ensures forall e :: e in Modify(s, filename, version, hashlist).0.value <==>
      e in hashlist && e.hash !in PriorHashes(s, filename)
  {
    MissingMembership(hashlist, PriorHashes(s, filename));
  }

  /** After a successful modify, read gives the new version and the hashes in hashlist order, each with its last-recorded shard. */
  lemma ModifyThenRead(s: DirState, filename: string, version: int, hashlist: seq<Entry>)
    requires Inv(s)
    requires Modify(s, filename, version, hashlist).0.Ok?
    ensures Inv(Modify(s, filename, version, hashlist).1)
    ensures var rd := Read(Modify(s, filename, version, hashlist).1, filename);
      && rd.0 == version
      && |rd.1| == |hashlist|
      && forall i :: 0 <= i < |hashlist| ==>
           hashlist[i].hash in HashesOf(hashlist) &&
           rd.1[i] == Entry(hashlist[i].hash, LastShard(hashlist, hashlist[i].hash))
    ensures ShardConsistent(hashlist) ==> Read(Modify(s, filename, version, hashlist).1, filename).1 == hashlist
  {
    var s' := Modify(s, filename, version, hashlist).1;
    ModifyKeepsInv(s, filename, version, hashlist);
    var rd := Read(s', filename);
    assert s'.loc == RecordLocations(s.loc, hashlist);
    forall i | 0 <= i < |hashlist|
      ensures hashlist[i].hash in HashesOf(hashlist)
      ensures rd.1[i] == Entry(hashlist[i].hash, LastShard(hashlist, hashlist[i].hash))
    {
      assert HashesOf(hashlist)[i] == hashlist[i].hash;
      LocationsAfter(s.loc, hashlist, hashlist[i].hash);
    }
    if ShardConsistent(hashlist) {
      forall i | 0 <= i < |hashlist| ensures rd.1[i] == hashlist[i] {
        LastShardConsistent(hashlist, i);
      }
    }
  }

  /** First write: an unknown name at version 1 is created, every entry is missing, and read gives version 1 and the entries. */
  lemma FirstWrite(s: DirState, filename: string, hashlist: seq<Entry>)
    requires Inv(s)
    requires filename !in s.files
    ensures Modify(s, filename, 1, hashlist).0 == Ok(hashlist)
    ensures Inv(Modify(s, filename, 1, hashlist).1)
    ensures var rd := Read(Modify(s, filename, 1, hashlist).1, filename);
      rd.0 == 1 && HashesOf(rd.1) == HashesOf(hashlist)
    ensures ShardConsistent(hashlist) ==> Read(Modify(s, filename, 1, hashlist).1, filename) == (1, hashlist)
  {
    MissingAgainstNothing(hashlist);
    ModifyThenRead(s, filename, 1, hashlist);
  }

  /** Resubmitting the same hashlist at the next version reports nothing missing. */
  lemma ResubmitNothingMissing(s: DirState, filename: string, version: int, hashlist: seq<Entry>)
    requires Modify(s, filename, version, hashlist).0.Ok?
    ensures Modify(Modify(s, filename, version, hashlist).1, filename, version + 1, hashlist).0 == Ok([])
  {
    var s' := Modify(s, filename, version, hashlist).1;
    assert s'.files[filename].hashes == HashesOf(hashlist);
    MissingEmptyIff(hashlist, HashesOf(hashlist));
    assert forall i :: 0 <= i < |hashlist| ==> hashlist[i].hash in HashesOf(hashlist) by {
      forall i | 0 <= i < |hashlist| ensures hashlist[i].hash in HashesOf(hashlist) {
        assert HashesOf(hashlist)[i] == hashlist[i].hash;
      }
    }
  }

  /** The shard table is global: after a modify of one file, reading any file reports each hash's most recently written shard. */
  lemma ReadReportsLatestShard(s: DirState, filename: string, version: int, hashlist: seq<Entry>, other: string)
    requires Inv(s)
    requires Modify(s, filename, version, hashlist).0.Ok?
    ensures Inv(Modify(s, filename, version, hashlist).1)
    ensures var rd := Read(Modify(s, filename, version, hashlist).1, other);
      forall i :: 0 <= i < |rd.1| ==>
        if rd.1[i].hash in HashesOf(hashlist) then rd.1[i].shard == LastShard(hashlist, rd.1[i].hash)
        else rd.1[i].hash in s.loc && rd.1[i].shard == s.loc[rd.1[i].hash]
  {
    var s' := Modify(s, filename, version, hashlist).1;
    ModifyKeepsInv(s, filename, version, hashlist);
    var rd := Read(s', other);
    forall i | 0 <= i < |rd.1|
      ensures if rd.1[i].hash in HashesOf(hashlist) then rd.1[i].shard == LastShard(hashlist, rd.1[i].hash)
              else rd.1[i].hash in s.loc && rd.1[i].shard == s.loc[rd.1[i].hash]
    {
      LocationsAfter(s.loc, hashlist, rd.1[i].hash);
    }
  }

  // ---------------------------------------------------------------------------
  // delete and the tombstone

  /** Delete at the next version leaves a tombstone: read gives that version and no entries; the shard table is untouched. */
  lemma DeleteThenRead(s: DirState, filename: string)
    requires Inv(s)
    requires filename in s.files
    ensures var v := s.files[filename].version + 1;
      var d := Delete(s, filename, v);
      && d.0 == Ok(())
      && d.1.loc == s.loc
      && Inv(d.1)
      && Read(d.1, filename) == (v, [])
  {
    DeleteKeepsInv(s, filename, s.files[filename].version + 1);
  }

  /** After a tombstone, modify at tombstone version + 1 succeeds and reports every entry missing. */
  lemma RecreateAfterTombstone(s: DirState, filename: string, version: int, hashlist: seq<Entry>)
    requires Delete(s, filename, version).0.Ok?
    ensures Modify(Delete(s, filename, version).1, filename, version + 1, hashlist).0 == Ok(hashlist)
  {
    MissingAgainstNothing(hashlist);
  }

  // ---------------------------------------------------------------------------
  // Versions never go backwards

  datatype Request =
    | ModifyRequest(filename: string, version: int, hashlist: seq<Entry>)
    | DeleteRequest(filename: string, version: int)

  function Apply(s: DirState, req: Request): DirState {
    match req
    case ModifyRequest(f, v, hl) => Modify(s, f, v, hl).1
    case DeleteRequest(f, v) => Delete(s, f, v).1
  }

  function Run(s: DirState, reqs: seq<Request>): DirState
    decreases |reqs|
  {
    if reqs == [] then s else Run(Apply(s, reqs[0]), reqs[1..])
  }

  /** Across any sequence of requests a stored file stays stored and its version never decreases. */
  lemma {:induction false} VersionsNeverDecrease(s: DirState, reqs: seq<Request>, filename: string)
    requires Inv(s)
    requires filename in s.files
    ensures filename in Run(s, reqs).files
    ensures Run(s, reqs).files[filename].version >= s.files[filename].version
    decreases |reqs|
  {
    if reqs != [] {
      var s1 := Apply(s, reqs[0]);
      match reqs[0] {
        case ModifyRequest(f, v, hl) =>
          ModifyKeepsInv(s, f, v, hl);
        case DeleteRequest(f, v) =>
          DeleteKeepsInv(s, f, v);
      }
      assert filename in s1.files && s1.files[filename].version >= s.files[filename].version;
      VersionsNeverDecrease(s1, reqs[1..], filename);
    }
  }
}
