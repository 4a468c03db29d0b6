# SurfStore core in Dafny

SurfStore is a file-sync service. A file is cut into 4096-byte blocks. Each block is named by
its SHA-256 hex digest and stored on one of `numofblocks` block shards, chosen by the digest
read as a base-16 number modulo the shard count. A single metadata store maps each
filename to a version and its ordered list of block hashes. It also keeps one global
hash → shard table.

Writes are guarded by an optimistic version gate: a request must carry exactly the current
version + 1. Deleting a file leaves a tombstone, a record with a version and no hashes.
The client has three operations:

- Upload reads the version, proposes version + 1, and pushes only the blocks the store
  reports missing.
- Delete refuses a name the store reports at version 0.
- Download fetches only the blocks its local copy does not already hold, then joins all blocks in
  hash-list order.

Modules:

- `Types`: bytes, hex-digest hashes, hash-list entries `(hash, shard)`, file records,
  store errors, `Result` and `Option`.
- `MetaStore`:
  - The store as pure functions on its whole state (`Read`, `Modify`, `Delete`).
  - The class `MetadataStore` with the two dictionaries as fields. `ModifyFile` and
    `DeleteFile` update them in place; `ReadFile` only reads them. Each method is proved
    equal to the pure function.
- `MetaStoreProps`: lemmas about the store.
  - The missing-list rule.
  - Read after modify.
  - The global shard table.
  - Tombstones.
  - Version monotonicity over any sequence of requests.
- `Placement`: hex-string → number, its inverse for fixed-width lower-case digests, and
  `FindServer`.
- `Chunking`: the block split as a function, its shape and round-trip lemmas, and the
  chunking loop `ChunkFile`.
- `BlockStore`: the block shards the client talks to, one map per shard.
- `Client`:
  - The upload, delete and download sequences as pure functions (`UploadSpec`,
    `ClientDelete`, `DownloadSpec`).
  - The class `SurfStoreClient`, which runs them step by step against a `MetadataStore`
    object and a `BlockStores` object.
  - The system invariant: every block a record names is on its shard.
- `ClientProps`: end-to-end lemmas.
  - Upload then read.
  - Re-upload pushes nothing.
  - Delete then download fails.
  - Upload then download returns the uploaded bytes.

Hashing is a parameter `sha: Bytes -> Hash`. Download rebuilds a file from shards and caches
keyed by hash, so getting the original bytes back needs collision-freedom. Three lemmas take it
as an explicit hypothesis, `Injective(sha)`: `ClientProps.ReassembleBlocks`,
`ClientProps.DownloadReassembles` and `ClientProps.UploadThenDownload`. No other member
assumes anything about the hash function.

Where the two files disagree on shapes, the model settles them as follows:

- Hash-list entries are `(hash, shard)` pairs throughout, as `metastore.py:88` and
  `metastore.py:93-94` index them. `client.py:96` sends plain hex strings, so there the
  metadata store's `h[0]` would take the first character of each hash. The client in this
  model sends `Entry(h, FindServer(h))`.
- `metastore.py:144` returns `[hash, shard]` lists. `client.py:156` and `client.py:168`
  use them as dictionary keys, and `client.py:162` passes them to `findserver`. The model
  uses the entry's hash in all three places.
- The download cache stores `[bytes, i]` for full blocks (`client.py:141`) but raw bytes for
  the last block (`client.py:145`). The model's cache is hash → bytes for every block.
- `client.py:156` tests the cache by truthiness. A cached empty block (the single block of
  an empty file) is therefore fetched again. `Client.Cached` models this.
- The metadata store's two errors carry different versions. A refused modify reports the
  version it was offered (`metastore.py:81`). A refused delete reports the current version
  (`metastore.py:115`). The `ErrorResponse` docstring (`metastore.py:6-13`) names the
  wrong-version case but not which version the message carries; the model follows the code.
- Modify at a version other than 1, and delete, on a name never stored raise `KeyError`
  (`metastore.py:78`, `metastore.py:106`), where the `ErrorResponse` docstring
  (`metastore.py:9`) asks for an error response. The model returns `Err(UnknownFile)` and
  leaves the state unchanged.

## Model

| member | source | states |
|---|---|---|
| Types.HashesOf | metastore.py:88 | the hash component of every entry, position by position |
| MetaStore.Read | metastore.py:122-148 | version is 0 exactly for an unknown name, and then the list is empty; otherwise the version is the record's current version and the list is the record's hashes in record order, each paired with the shard the global table holds for it |
| MetaStore.Modify | metastore.py:70-95 | succeeds iff the name is unknown and version is 1, or known and version is current + 1; a known name at any other version gives a version error with the offered version; an unknown name at another version is an error; on error nothing changes; on success the record is (version, hashes in hashlist order); no other file changes |
| MetaStore.Delete | metastore.py:104-117 | succeeds iff the name is known and version is current + 1, leaving the tombstone (version, []); any other version gives a version error with the current version and changes nothing; an unknown name is an error; the shard table never changes |
| MetaStore.Missing | metastore.py:84-89 | the entries whose hash is not in the prior record, in hashlist order; no contract of its own, its meaning is stated by `MetaStoreProps.MissingMembership`, `MetaStoreProps.MissingConcat` and `MetaStoreProps.MissingEmptyIff` |
| MetaStore.RecordLocations | metastore.py:92-94 | the shard table after writing every entry's shard, first to last; no contract of its own, its meaning is stated by `MetaStore.RecordLocationsKeys` and `MetaStoreProps.LocationsAfter` |
| MetaStore.LastShard | metastore.py:92-94 | the shard of the last entry carrying a hash; its meaning is stated by `MetaStoreProps.LocationsAfter` and `MetaStoreProps.LastShardConsistent` |
| MetaStore.Located | metastore.py:142-144 | each record hash paired with its table shard, in record order; no contract of its own, stated through the ensures of `MetaStore.Read` |
| MetaStore.Commit | metastore.py:91-95 | the success branch of modify: the missing list, the new record and the new shard table; no contract of its own, stated through the ensures of `MetaStore.Modify` and `MetaStoreProps.ModifyThenRead` |
| MetaStore.RecordLocationsKeys | metastore.py:92-94 | writing shards never forgets a hash and records every written hash |
| MetaStore.ModifyKeepsInv | metastore.py:70-95 | modify keeps the store invariant: every record has version >= 1 and a shard for each of its hashes |
| MetaStore.DeleteKeepsInv | metastore.py:104-117 | delete keeps the store invariant |
| MetaStore.CollectMissing | metastore.py:84-89 | the missing-hash scan loop computes exactly the missing list `Missing(hashlist, prior)` |
| MetaStore.MetadataStore.constructor | metastore.py:43-56 | both dictionaries start empty and the store invariant holds |
| MetaStore.MetadataStore.ReadFile | metastore.py:129-148 | the loop that builds the `[hash, shard]` list returns exactly `Read` of the current state and changes nothing |
| MetaStore.MetadataStore.ModifyFile | metastore.py:70-95 | the answer and the new dictionaries are exactly `Modify` of the old state; the invariant is kept |
| MetaStore.MetadataStore.WriteRecord | metastore.py:91-94 | the new record is the version followed by the hashes in order, and the shard of every entry is written, later entries overwriting earlier ones |
| MetaStore.MetadataStore.DeleteFile | metastore.py:104-117 | the answer and the new dictionaries are exactly `Delete` of the old state |
| MetaStoreProps.MissingMembership | metastore.py:84-89 | an entry is reported missing iff it is in the hashlist and its hash is not in the prior record |
| MetaStoreProps.MissingConcat | metastore.py:87-89 | the missing list keeps hashlist order (it distributes over concatenation) |
| MetaStoreProps.MissingAgainstNothing | metastore.py:73-75 | against an empty prior record every entry is missing, in order |
| MetaStoreProps.MissingEmptyIff | metastore.py:84-89 | nothing is missing iff every hash was already in the prior record |
| MetaStoreProps.LocationsAfter | metastore.py:92-94 | after a modify the shard table holds each written hash with the shard of its last entry; other hashes keep their shard |
| MetaStoreProps.LastShardConsistent | metastore.py:94 | when a hashlist pairs each hash with one shard, the last-written shard is that shard |
| MetaStoreProps.ModifyReportsNewHashes | metastore.py:84-89 | a successful modify returns exactly the entries whose hash was not in the file's previous record |
| MetaStoreProps.ModifyThenRead | metastore.py:91-94 | after a successful modify, read gives the new version and the hashes in hashlist order with their last-recorded shards; with consistent shards read gives the hashlist itself |
| MetaStoreProps.FirstWrite | metastore.py:73-75 | an unknown name at version 1 is created, every entry is reported missing, and read gives version 1 and the hashes |
| MetaStoreProps.ResubmitNothingMissing | metastore.py:84-89 | resubmitting the same hashlist at the next version reports nothing missing |
| MetaStoreProps.ReadReportsLatestShard | metastore.py:143-144 | after a modify of one file, reading any file gives each hash's most recently written shard |
| MetaStoreProps.DeleteThenRead | metastore.py:109-112 | delete at current + 1 succeeds, leaves the shard table alone, and read then gives (that version, []) |
| MetaStoreProps.RecreateAfterTombstone | metastore.py:78-93 | after a tombstone, modify at tombstone + 1 succeeds and reports every entry missing |
| MetaStoreProps.VersionsNeverDecrease | metastore.py:78-82 | over any sequence of modify and delete requests a stored name stays stored and its version never decreases |
| Placement.DigitValue | client.py:54 | a hex digit's value is below 16 |
| Placement.HexValue | client.py:54 | the value of a hex string is below 16 to the power of its length |
| Placement.HexDigit | client.py:77-82 | the lower-case digit `hexdigest()` writes for a value (client.py:77, client.py:82) is a hex digit that `int(h, 16)` at client.py:54 reads back as that value |
| Placement.ToHex | client.py:77-82 | a value written at a fixed width, as `hexdigest()` writes a digest (client.py:77, client.py:82), is a lower-case hex string of exactly that width |
| Placement.HexValueOfToHex | client.py:54-82 | reading back (`int(h, 16)`, client.py:54) a value written as a digest (`hexdigest()`, client.py:77, client.py:82) gives the value whenever it fits the width |
| Placement.ToHexOfHexValue | client.py:54-82 | writing back at its width the value `int(h, 16)` (client.py:54) reads from a lower-case digest (`hexdigest()`, client.py:77, client.py:82) gives the same digest |
| Placement.LeadingZero | client.py:54 | leading zero digits do not change the value (digests are fixed-width, so many start with zeros) |
| Placement.FindServer | client.py:53-54 | the shard of a hash is a valid shard number |
| Placement.PlacementOfDigest | client.py:53-54 | the digest of value n is placed on shard n mod numofblocks |
| Placement.PlacementIgnoresLeadingZeros | client.py:53-54 | digests that differ only in leading zeros go to the same shard: placement depends on the digest's numeric value, not on its width |
| Chunking.BlockCount | client.py:72 | the computed block count is the ceiling of length / 4096 |
| Chunking.SliceFrom | client.py:81 | the tail slice follows the language's slice rules: an in-range start gives the suffix, and a negative start before the beginning gives everything |
| Chunking.Blocks | client.py:72-84 | the block split: at least one block; its shape and round trip are stated by `Chunking.BlocksShape`, `Chunking.BlockAt` and `Chunking.BlocksRoundTrip` |
| Chunking.HashList | client.py:75-84 | one hash per block (as many hashes as blocks), in block order with duplicates kept; `Chunking.ChunkFile` is proved to build it |
| Chunking.BlockIndex | client.py:73-84 | the hash → block dictionary, later blocks written last; no contract of its own, its meaning is stated by `Chunking.BlockIndexSound` |
| Chunking.BlocksRoundTrip | client.py:75-84 | joining the blocks in order gives back the file's bytes exactly |
| Chunking.BlocksShape | client.py:72-84 | an empty file gives one empty block; otherwise ceil(len / 4096) blocks, all 4096 bytes but the last, which has 1..4096 |
| Chunking.BlockAt | client.py:75-81 | block i is the slice the loop takes, a full window or the tail |
| Chunking.ConcatAppend | client.py:166-171 | joining blocks distributes over concatenation |
| Chunking.BlockIndexSound | client.py:78-79 | the dictionary has exactly the listed hashes, and each maps to a block of the file with that hash |
| Chunking.ChunkFile | client.py:69-86 | the chunking loops produce the hash of every block in block order (duplicates kept) and the hash → block dictionary of exactly those blocks |
| BlockStore.BlockStores.StoreBlock | client.py:101 | storing puts the block under its hash on the given shard and changes no other shard |
| BlockStore.BlockStores.GetBlock | client.py:164 | a block is returned iff the shard holds the hash, and it is the stored block |
| Client.EntriesFor | client.py:96 | the submitted hashlist has one entry per block hash, in order |
| Client.PushAll | client.py:98-101 | the shard count is unchanged by pushing |
| Client.UploadModify | client.py:91-96 | the metadata step of upload: modify at the read version + 1 with the placed hash list of the data's blocks; no contract of its own, stated by `Client.UploadSucceeds` and `ClientProps.UploadThenRead` |
| Client.UploadSpec | client.py:62-105 | what one upload does to the store and the shards; no contract of its own, its meaning is stated by `Client.UploadKeepsSystemInv`, `ClientProps.UploadThenRead`, `ClientProps.FirstUploadAllMissing`, `ClientProps.UploadAgainPushesNothing` and `ClientProps.UploadThenDownload` |
| Client.ClientDelete | client.py:113-122 | what the client's delete does; no contract of its own, its meaning is stated by `ClientProps.ClientDeleteOutcome` and `Client.ClientDeleteKeepsSystemInv` |
| Client.Cached | client.py:156 | a hash counts as cached only when its cached block is non-empty (truthiness); no contract of its own, used by `Client.FetchSetMembership` |
| Client.FetchSet | client.py:155-157 | the hashes download fetches; no contract of its own, its meaning is stated by `Client.FetchSetMembership` |
| Client.FetchAll | client.py:160-165 | get_block for each target in order, stopping at the first absent block; no contract of its own, its meaning is stated by `Client.FetchAllHolds`, `Client.FetchAllErrPersists` and `ClientProps.FetchAllSucceeds` |
| Client.Reassemble | client.py:166-171 | the join, preferring the cache; no contract of its own, its meaning is stated by `ClientProps.ReassembleBlocks` |
| Client.CacheOf | client.py:131-147 | the local cache: empty without a local file, else the chunker's dictionary of it; soundness is stated by `Chunking.BlockIndexSound` |
| Client.DownloadSpec | client.py:129-171 | what download answers; no contract of its own, its meaning is stated by `ClientProps.DownloadFindsAllBlocks`, `ClientProps.DownloadReassembles`, `ClientProps.DeleteThenDownload` and `ClientProps.UploadThenDownload` |
| Client.MissingHashesIndexed | client.py:98-101 | every hash the store reports missing has its block in the chunker's dictionary |
| Client.FetchSetMembership | client.py:155-157 | a hash is fetched iff some entry has it and the local cache does not hold a non-empty block for it |
| Client.FetchAllHolds | client.py:160-165 | a successful fetch holds every target, each with the block of the shard `findserver` names |
| Client.FetchAllErrPersists | client.py:160-165 | the first absent block is the failure of the whole fetch |
| Client.FetchCovers | client.py:166-171 | after a successful fetch every entry's block is cached or fetched |
| Client.UploadSucceeds | client.py:91-96 | without concurrent writers the version upload proposes is always accepted |
| Client.PushAllEffect | client.py:98-101 | after the push a shard holds a hash iff it held it before or the hash was reported missing and placed there; pushed hashes carry the chunker's block, and everything else is unchanged |
| Client.EntriesLocated | client.py:96 | the shard table written by an upload agrees with placement |
| Client.PushAllGrows | client.py:98-101 | pushing never removes a stored block |
| Client.PushAllSound | client.py:98-101 | pushing blocks that carry their own hash keeps every shard keyed by block hashes |
| Client.PushAllStores | client.py:98-101 | every missing entry's block ends up on the shard of its hash |
| Client.NewRecordStored | client.py:95-101 | each block of the new record was in the file's prior record or was reported missing and pushed |
| Client.ModifyPushKeepsSystemInv | client.py:95-101 | a successful modify with placed entries, followed by the push, keeps the system invariant |
| Client.UploadKeepsSystemInv | client.py:62-105 | upload keeps the system invariant: every record's blocks are on their shards |
| Client.ClientDeleteKeepsSystemInv | client.py:113-122 | delete keeps the system invariant |
| Client.SurfStoreClient.constructor | client.py:33-50 | the client is bound to its store objects and shard count; over an empty store and empty shards it starts with the system invariant |
| Client.EmptySystemInv | metastore.py:55-56 | a fresh system, with empty dictionaries and every shard empty, satisfies the system invariant |
| Client.SurfStoreClient.Upload | client.py:62-105 | chunk, read, modify at version + 1, and push are exactly `UploadSpec` on the old state; the modify is accepted; the system invariant is kept |
| Client.SurfStoreClient.UploadMetadata | client.py:69-96 | chunking, read and modify at version + 1 give exactly `UploadModify` of the old store, together with the chunker's dictionary |
| Client.SurfStoreClient.PushMissing | client.py:98-101 | the push loop stores exactly `PushAll` of the missing list |
| Client.SurfStoreClient.Delete | client.py:113-122 | the status and the store's new state are exactly `ClientDelete`; the system invariant is kept |
| Client.SurfStoreClient.Download | client.py:129-171 | the result is exactly `DownloadSpec` of the store, the shards and the cache built from the local file |
| Client.SurfStoreClient.FetchBlocks | client.py:160-165 | the fetch loop gives exactly `FetchAll` |
| Client.SelectTargets | client.py:155-157 | the target loop gives exactly the fetch set, in hash-list order |
| Client.JoinBlocks | client.py:166-171 | the reassembly loop gives exactly `Reassemble` |
| ClientProps.EntriesConsistent | client.py:96 | the hashlist upload submits pairs each hash with one shard |
| ClientProps.UploadThenRead | client.py:91-96 | upload proposes read-version + 1, and read afterwards gives that version and the placed hash list of the data's blocks |
| ClientProps.FirstUploadAllMissing | client.py:95-101 | the first upload of a name reports every block missing |
| ClientProps.UploadAgainPushesNothing | client.py:95-101 | uploading the same bytes again reports nothing missing, leaves the shards unchanged, and raises the version by one more |
| ClientProps.ClientDeleteOutcome | client.py:113-122 | delete answers -1, without change, iff the name was never stored; otherwise it answers 0, the store accepts version + 1, and read gives (version + 1, []) |
| ClientProps.DeleteThenDownload | client.py:151-153 | after a delete, download fails with file-not-found |
| ClientProps.FetchAllSucceeds | client.py:160-165 | fetching succeeds when every target is on its shard |
| ClientProps.DownloadFindsAllBlocks | client.py:151-165 | under the system invariant download fails only with file-not-found, never on an absent block |
| ClientProps.ReassembleBlocks | client.py:166-171 | joining blocks taken from sound caches by hash gives the original blocks joined, for a collision-free hash |
| ClientProps.DownloadReassembles | client.py:129-171 | under the system invariant, download gives the listed blocks joined in order, for a collision-free hash and a local cache whose every entry is a block with that hash |
| ClientProps.UploadThenDownload | client.py:62-171 | from a state satisfying the system invariant (a fresh system does, by `Client.EmptySystemInv`), upload then download, with or without a local copy, gives back exactly the uploaded bytes, for a collision-free hash |
| ClientProps.TenThousandBytes | client.py:72-84 | a 10000-byte file is cut into blocks of 4096, 4096 and 1808 bytes |

`Client.UploadUnfold` and `Client.DownloadUnfold` are proof aids for `SurfStoreClient.Upload`
and `SurfStoreClient.Download`. They restate the definitions of `UploadSpec` and
`DownloadSpec` case by case, and state no property of their own.

## Left out

- RPC plumbing: the connections and the `exposed_` RPC surface become direct calls on Dafny objects. There is no network, and the thread-pool server is not modelled.
- Concurrency: each metadata-store request is atomic and requests are sequential. The race between a client's read and its modify is not modelled.
- Upload retry (`client.py:103-105`): upload is one attempt. `Client.UploadSucceeds` proves the gate always accepts that attempt when nothing else writes, so the unbounded recursive retry is never reached in this model.
- Config parsing in both constructors (`client.py:33-50`, `metastore.py:43-56`) is file I/O. The shard count is a constructor parameter; the shard addresses are left out.
- SHA-256 is an uninterpreted parameter. Collision-freedom is only a hypothesis of `ClientProps.ReassembleBlocks`, `ClientProps.DownloadReassembles` and `ClientProps.UploadThenDownload`.
- Local files: the path checks, reading the local file and the text-mode decode and write of download (`client.py:63-70`, `client.py:131-135`, `client.py:172-176`) are left out. A local copy is an `Option<Bytes>` argument, and download returns the joined bytes.
- Download's failure on an empty hash list is an exception in the source. It is `Err(FileNotFound)` here, and an absent block is `Err(BlockNotFound(h))`.
- The block store server (`blockstore.py`) is not part of this model. The shards are modelled as one hash → bytes map each, with an overwriting store and a lookup that may be absent.
- The `ErrorResponse` message text and `missing_blocks` become the `StoreError` datatype.
- `numofblocks` in the metadata store is kept as a field but never used, as in the source.
- Logging (`print`, `eprint`) is left out.
- Client.PushAll: its own contract states only the shard count. What the push does is stated by `Client.PushAllEffect`, `Client.PushAllStores` and `Client.PushAllGrows`.
