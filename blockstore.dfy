/**
 * The block shards as the client sees them: shard k is a map hash -> block bytes.
 * store_block overwrites (an idempotent put); get_block answers None for an absent hash.
 */
module BlockStore {
  import opened Types

  class BlockStores {
    var shards: seq<map<Hash, Bytes>>

    constructor (numOfBlocks: nat)
      ensures |shards| == numOfBlocks
      ensures forall k :: 0 <= k < numOfBlocks ==> shards[k] == map[]
    {
      shards := seq(numOfBlocks, k => map[]);
    }

    method StoreBlock(k: nat, h: Hash, block: Bytes)
      requires k < |shards|
      modifies this
      ensures |shards| == |old(shards)|
      ensures shards[k] == old(shards)[k][h := block]
      ensures forall j :: 0 <= j < |shards| && j != k ==> shards[j] == old(shards)[j]
    {
      var updated: map<Hash, Bytes> := shards[k][h := block];
      shards := shards[k := updated];
    }

    method GetBlock(k: nat, h: Hash) returns (r: Option<Bytes>)
      requires k < |shards|
      ensures r.Some? <==> h in shards[k]
      ensures r.Some? ==> r.value == shards[k][h]
    {
      if h in shards[k] {
        r := Some(shards[k][h]);
      } else {
        r := None;
      }
    }
  }
}
