/**
  The blob store as a value, and each public operation as a step on that
  value. The content store and the metadata index are two maps keyed by blob
  identifier; the deduplication map sends a content hash to the identifier
  that owns it; `order` is the order in which the metadata index enumerates
  records; `clock` is the stamp the next new identifier gets.
*/
module StoreModel {
  import opened Ascii
  import opened Outcomes
  import opened BlobTypes
  import opened BlobIds
  import opened MimeTypes
  import opened Validation
  import opened Listing

  datatype Store = Store(
    records: map<string, BlobRecord>,
    contents: map<string, Bytes>,
    dedup: map<Digest, string>,
    order: seq<string>,
    clock: nat)

  const EmptyStore: Store := Store(map[], map[], map[], [], 0)

  /** The stamp a well-formed identifier carries. */
  function StampOf(id: string): nat
    requires IsWellFormed(id)
  {
    Decode(id).value.stamp
  }

  /** What a record published under `id` satisfies, given its content, while the clock reads `clock`. */
  ghost predicate Fits(cfg: Config, hash: Bytes -> Digest, id: string, r: BlobRecord, data: Bytes, clock: nat) {
    && r.blobId == id
    && IsWellFormed(id)
    && StampOf(id) < clock
    && r.sizeBytes == |data|
    && r.sha256 == hash(data)
    && r.sizeBytes <= SizeLimit(cfg)
    && MimeAllowed(r.mimeType, cfg.allowedMimeTypes)
  }

  /** What every stored record satisfies, given its content. */
  ghost predicate RecordFits(cfg: Config, hash: Bytes -> Digest, s: Store, id: string)
    requires id in s.records && id in s.contents
  {
    Fits(cfg, hash, id, s.records[id], s.contents[id], s.clock)
  }

  predicate Distinct(ids: seq<string>) {
    forall i, j :: 0 <= i < j < |ids| ==> ids[i] != ids[j]
  }

  /** `order` lists every stored identifier exactly once. */
  ghost predicate OrderListsRecords(s: Store) {
    && Distinct(s.order)
    && (forall i :: 0 <= i < |s.order| ==> s.order[i] in s.records)
    && (forall id :: id in s.records ==> id in s.order)
  }

  /**
    Without deduplication the map stays empty. With it, the map and the records
    are in one-to-one correspondence: each hash names a record with that hash,
    and each record is the one its hash names.
  */
  ghost predicate DedupConsistent(cfg: Config, s: Store) {
    if !cfg.enableDeduplication then s.dedup == map[]
    else
      && (forall h :: h in s.dedup ==> s.dedup[h] in s.records && s.records[s.dedup[h]].sha256 == h)
      && (forall id :: id in s.records ==> s.records[id].sha256 in s.dedup && s.dedup[s.records[id].sha256] == id)
  }

  /** A record exists exactly when its content does, and every record fits its content. */
  ghost predicate RecordsFit(cfg: Config, hash: Bytes -> Digest, s: Store) {
    && s.records.Keys == s.contents.Keys
    && (forall id :: id in s.records ==> id in s.contents && RecordFits(cfg, hash, s, id))
  }

  /** The store invariant. */
  ghost predicate StoreValid(cfg: Config, hash: Bytes -> Digest, s: Store) {
    && RecordsFit(cfg, hash, s)
    && OrderListsRecords(s)
    && DedupConsistent(cfg, s)
  }

  /** The extension an identifier keeps: the file's suffix, when it is alphanumeric. */
  function IdExtension(filename: string): (ext: string)
    ensures IsExtension(ext)
    ensures ext == [] || ext == Suffix(filename)
    ensures IsExtension(Suffix(filename)) ==> ext == Suffix(filename)
  {
    var suffix := Suffix(filename);
    if suffix != [] && AllAlnum(suffix[1..]) then suffix else []
  }

  /** The identifier minted at `stamp` for content hashing to `h`. */
  function NewId(stamp: nat, h: Digest, filename: string): string {
    Encode(IdParts(stamp, h[..FragmentWidth], IdExtension(filename)))
  }

  /** The state a fresh upload of `data` under `id` leads to: content and record stored, hash registered, clock advanced. */
  function Published(cfg: Config, s: Store, id: string, rec: BlobRecord, data: Bytes): Store {
    Store(
      s.records[id := rec],
      s.contents[id := data],
      if cfg.enableDeduplication then s.dedup[rec.sha256 := id] else s.dedup,
      s.order + [id],
      s.clock + 1)
  }

  /**
    `upload_blob`: validate (size, then MIME), hash, and either return the record
    already holding this content (deduplication on) or publish content and
    record under a fresh identifier.
  */
  function UploadStep(cfg: Config, hash: Bytes -> Digest, s: Store, data: Bytes, filename: string,
                      tags: seq<string>, ttlHours: Option<nat>): (Store, Result<BlobRecord>)
  {
    var mime := InferMime(filename);
    match CheckUpload(cfg, |data|, mime)
    case Fail(e) => (s, Err(e))
    case Pass =>
      var h := hash(data);
      if cfg.enableDeduplication && h in s.dedup && s.dedup[h] in s.records then
        (s, Ok(s.records[s.dedup[h]]))
      else
        var id := NewId(s.clock, h, filename);
        var rec := BlobRecord(id, filename, mime, |data|, h, tags, ttlHours.GetOr(cfg.defaultTtlHours), s.clock);
        (Published(cfg, s, id, rec, data), Ok(rec))
  }

  /** `get_metadata`: lexical check first, then the lookup. */
  function GetMetadata(s: Store, id: string): Result<BlobRecord> {
    if !IsWellFormed(id) then Err(InvalidBlobId)
    else if id !in s.records then Err(BlobNotFound)
    else Ok(s.records[id])
  }

  /** `get_file_path`, with the file's bytes standing for its path. */
  function GetContent(s: Store, id: string): Result<Bytes> {
    if !IsWellFormed(id) then Err(InvalidBlobId)
    else if id !in s.contents then Err(BlobNotFound)
    else Ok(s.contents[id])
  }

  /** `ids` without `x`, in order. */
  function Without(ids: seq<string>, x: string): (out: seq<string>)
    ensures forall y :: y in out <==> y in ids && y != x
    ensures Distinct(ids) ==> Distinct(out)
  {
    if ids == [] then []
    else
      var init := Without(ids[..|ids| - 1], x);
      var last := ids[|ids| - 1];
      assert forall y :: y in ids[..|ids| - 1] ==> y in ids;
      assert Distinct(ids) ==> last !in ids[..|ids| - 1];
      if last == x then init else init + [last]
  }

  /** The store without blob `id`: its record, its content, its hash entry and its place in the order go. */
  function Removed(s: Store, id: string): Store
    requires id in s.records
  {
    var h := s.records[id].sha256;
    var dedup := if h in s.dedup && s.dedup[h] == id then s.dedup - {h} else s.dedup;
    Store(s.records - {id}, s.contents - {id}, dedup, Without(s.order, id), s.clock)
  }

  /** `delete_blob`: lexical check, lookup, then content, record and hash entry go together. */
  function DeleteStep(s: Store, id: string): (Store, Outcome) {
    if !IsWellFormed(id) then (s, Fail(InvalidBlobId))
    else if id !in s.records then (s, Fail(BlobNotFound))
    else (Removed(s, id), Pass)
  }

  /** The records a listing with these filters matches, in store order. */
  function Matching(s: Store, mimeFilter: Option<string>, tags: seq<string>): seq<BlobRecord> {
    Filter(Enumerate(s.order, s.records), mimeFilter, tags)
  }

  /** `list_blobs`: one page of the matching records, with the total number of matches. */
  function ListStep(s: Store, mimeFilter: Option<string>, tags: seq<string>, page: nat, pageSize: nat): ListResult
    requires page >= 1
  {
    var matching := Matching(s, mimeFilter, tags);
    ListResult(Page(matching, page, pageSize), |matching|, page, pageSize)
  }
}
