/**
  The storage engine as an object: its configuration and hash function are
  fixed at construction, and the content store, metadata index and
  deduplication map are fields its operations update in place. Each method is
  proved to take the object from one abstract store to the next exactly as the
  matching step of `StoreModel` does, and to keep the store invariant.
*/
module Engine {
  import opened Outcomes
  import opened BlobTypes
  import opened BlobIds
  import opened MimeTypes
  import opened Validation
  import opened Listing
  import opened StoreModel
  import opened StoreInvariant

  class BlobStorage {
    const config: Config
    /** SHA-256 of a payload, as lower-case hex; supplied by the caller. */
    const hash: Bytes -> Digest

    var records: map<string, BlobRecord>
    var contents: map<string, Bytes>
    var dedup: map<Digest, string>
    var order: seq<string>
    var clock: nat

    /** The abstract store this object holds. */
    function State(): Store
      reads this
    {
      Store(records, contents, dedup, order, clock)
    }

    ghost predicate Valid()
      reads this
    {
      StoreValid(config, hash, State())
    }

    /** A new engine over an empty storage root. */
    constructor (config: Config, hash: Bytes -> Digest)
      ensures this.config == config && this.hash == hash
      ensures State() == EmptyStore
      ensures Valid()
    {
      this.config := config;
      this.hash := hash;
      records := map[];
      contents := map[];
      dedup := map[];
      order := [];
      clock := 0;
    }

    /**
      `upload_blob`: refuse an oversized payload, then a disallowed MIME type;
      with deduplication on, hand back the record already holding this content;
      otherwise store the content and publish a new record.
    */
    method UploadBlob(data: Bytes, filename: string, tags: seq<string>, ttlHours: Option<nat>)
      returns (r: Result<BlobRecord>)
      requires Valid() && clock < StampLimit
      modifies this
      ensures Valid()
      ensures (State(), r) == UploadStep(config, hash, old(State()), data, filename, tags, ttlHours)
    {
      ghost var s := State();
      var mime := InferMime(filename);
      if |data| > SizeLimit(config) {
        return Err(BlobSizeLimit);
      }
      if !MimeAllowed(mime, config.allowedMimeTypes) {
        return Err(InvalidMimeType);
      }
      var h := hash(data);
      if config.enableDeduplication && h in dedup && dedup[h] in records {
        return Ok(records[dedup[h]]);
      }
      assert !(config.enableDeduplication && h in dedup);
      var id := NewId(clock, h, filename);
      var rec := BlobRecord(id, filename, mime, |data|, h, tags, ttlHours.GetOr(config.defaultTtlHours), clock);
      UploadFreshIsPublished(config, hash, s, data, filename, tags, ttlHours);
      UploadPreservesValid(config, hash, s, data, filename, tags, ttlHours);
      Publish(id, rec, data);
      r := Ok(rec);
    }

    /** Keep `data` as the content of `id`, index `rec` under it, and advance the clock. */
    method Publish(id: string, rec: BlobRecord, data: Bytes)
      modifies this
      ensures State() == Published(config, old(State()), id, rec, data)
    {
      contents := contents[id := data];
      records := records[id := rec];
      if config.enableDeduplication {
        dedup := dedup[rec.sha256 := id];
      }
      order := order + [id];
      clock := clock + 1;
    }

    /** `get_metadata`: the record stored under `id`, or why there is none. */
    method GetMetadata(id: string) returns (r: Result<BlobRecord>)
      ensures r == StoreModel.GetMetadata(State(), id)
      ensures r.Err? <==> !IsWellFormed(id) || id !in records
      ensures Valid() && r.Ok? ==> r.value.blobId == id && id in contents && r.value.sizeBytes == |contents[id]|
    {
      if !IsWellFormed(id) {
        return Err(InvalidBlobId);
      }
      if id !in records {
        return Err(BlobNotFound);
      }
      return Ok(records[id]);
    }

    /** `get_file_path`, with the stored bytes standing for the file they are kept in. */
    method GetFileContent(id: string) returns (r: Result<Bytes>)
      ensures r == StoreModel.GetContent(State(), id)
      ensures Valid() && r.Ok? ==> id in records && hash(r.value) == records[id].sha256
    {
      if !IsWellFormed(id) {
        return Err(InvalidBlobId);
      }
      if id !in contents {
        return Err(BlobNotFound);
      }
      return Ok(contents[id]);
    }

    /** `delete_blob`: remove the content, the record and the hash entry that names it. */
    method DeleteBlob(id: string) returns (r: Outcome)
      requires Valid()
      modifies this
      ensures Valid()
      ensures (State(), r) == DeleteStep(old(State()), id)
    {
      DeletePreservesValid(config, hash, State(), id);
      if !IsWellFormed(id) {
        return Fail(InvalidBlobId);
      }
      if id !in records {
        return Fail(BlobNotFound);
      }
      Remove(id);
      r := Pass;
    }

    /** Drop the content and the record of `id`, the hash entry that names it, and its place in the order. */
    method Remove(id: string)
      requires id in records
      modifies this
      ensures State() == Removed(old(State()), id)
    {
      var h := records[id].sha256;
      contents := contents - {id};
      if h in dedup && dedup[h] == id {
        dedup := dedup - {h};
      }
      records := records - {id};
      order := Without(order, id);
    }

    /**
      `list_blobs`: walk the index in order, keep the records that pass the MIME
      and tag filters, and return page `page` of them with their total count.
    */
    method ListBlobs(mimeFilter: Option<string>, tags: seq<string>, page: nat, pageSize: nat)
      returns (r: ListResult)
      requires page >= 1
      ensures r == ListStep(State(), mimeFilter, tags, page, pageSize)
      ensures r.total == |Matching(State(), mimeFilter, tags)|
      ensures |r.blobs| <= pageSize
    {
      var matching: seq<BlobRecord> := [];
      var i := 0;
      while i < |order|
        invariant 0 <= i <= |order|
        invariant matching == Filter(Enumerate(order[..i], records), mimeFilter, tags)
      {
        ScanStep(order, i, records, mimeFilter, tags);
        var id := order[i];
        if id in records && Matches(records[id], mimeFilter, tags) {
          matching := matching + [records[id]];
        }
        i := i + 1;
      }
      assert order[..|order|] == order;
      r := ListResult(Page(matching, page, pageSize), |matching|, page, pageSize);
    }
  }
}
