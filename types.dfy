/** Values shared by the metadata store and the client. */
module Types {

  /** One byte of file content. */
  newtype byte = x: int | 0 <= x < 256

  type Bytes = seq<byte>

  predicate IsHexDigit(c: char) {
    '0' <= c <= '9' || 'a' <= c <= 'f' || 'A' <= c <= 'F'
  }

  predicate IsHexString(s: string) {
    forall i :: 0 <= i < |s| ==> IsHexDigit(s[i])
  }

  /** A block fingerprint: the hex digest the client computes for a block. */
  type Hash = s: string | |s| > 0 && IsHexString(s) witness "0"

  /** One hashlist entry as the metadata store indexes it: a hash and the shard it was placed on. */
  datatype Entry = Entry(hash: Hash, shard: int)

  /** A file's record: its version and its block hashes in file order (a tombstone has no hashes). */
  datatype FileRecord = FileRecord(version: int, hashes: seq<Hash>)

  /** Why the metadata store refused a request. */
  datatype StoreError =
    | VersionError(version: int)   // the version carried by the store's error message
    | UnknownFile                  // the lookup of a filename that was never stored failed

  datatype Result<T, E> = Ok(value: T) | Err(error: E)

  datatype Option<T> = None | Some(value: T)

  /** The hash component of every entry, in order. */
  function HashesOf(es: seq<Entry>): (hs: seq<Hash>)
    ensures |hs| == |es|
    ensures forall i :: 0 <= i < |es| ==> hs[i] == es[i].hash
  {
    seq(|es|, i requires 0 <= i < |es| => es[i].hash)
  }
}
