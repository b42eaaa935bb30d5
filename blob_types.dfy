/** The values the engine stores and returns. */
module BlobTypes {
  import opened Ascii

  newtype byte = x: int | 0 <= x < 256

  type Bytes = seq<byte>

  /** A SHA-256 digest written as 64 lower-case hex digits. */
  type Digest = s: string | |s| == 64 && AllLowerHex(s)
    witness seq(64, _ => '0')

  /** Constructor-time configuration, fixed for the lifetime of a store. */
  datatype Config = Config(
    storageRoot: string,
    maxSizeMb: nat,
    allowedMimeTypes: seq<string>,   // exact `type/subtype` or wildcard patterns; empty admits all
    enableDeduplication: bool,
    defaultTtlHours: nat)

  /**
    The configuration a store gets when only its root (and the default TTL,
    whose value the engine's tests do not pin) is given.
  */
  function DefaultConfig(storageRoot: string, defaultTtlHours: nat): (c: Config)
    ensures c.storageRoot == storageRoot && c.defaultTtlHours == defaultTtlHours
    ensures c.maxSizeMb == 100 && c.allowedMimeTypes == [] && c.enableDeduplication
  {
    Config(storageRoot, 100, [], true, defaultTtlHours)
  }

  /** The metadata record kept for one stored blob. */
  datatype BlobRecord = BlobRecord(
    blobId: string,
    filename: string,
    mimeType: string,
    sizeBytes: nat,
    sha256: Digest,
    tags: seq<string>,
    ttlHours: nat,
    createdAt: nat)      // the stamp the identifier carries

  /** What `list_blobs` returns: one page of matching records and the total match count. */
  datatype ListResult = ListResult(blobs: seq<BlobRecord>, total: nat, page: nat, pageSize: nat)
}
