/** What the engine promises its callers, stated over the store model. */
module StoreProperties {
  import opened Ascii
  import opened Outcomes
  import opened BlobTypes
  import opened BlobIds
  import opened MimeTypes
  import opened Validation
  import opened Listing
  import opened StoreModel
  import opened StoreInvariant

  /** Size is checked first, then the MIME type; a refused upload leaves the store as it was. */
  lemma UploadOutcome(cfg: Config, hash: Bytes -> Digest, s: Store, data: Bytes,
                      filename: string, tags: seq<string>, ttlHours: Option<nat>)
    ensures var (s', r) := UploadStep(cfg, hash, s, data, filename, tags, ttlHours);
      && (r == Err(BlobSizeLimit) <==> |data| > SizeLimit(cfg))
      && (r == Err(InvalidMimeType) <==>
            |data| <= SizeLimit(cfg) && !MimeAllowed(InferMime(filename), cfg.allowedMimeTypes))
      && (r.Ok? <==> |data| <= SizeLimit(cfg) && MimeAllowed(InferMime(filename), cfg.allowedMimeTypes))
      && (r.Err? ==> s' == s)
  {
  }

  /**
    An accepted upload of content not yet registered creates one new blob: a
    fresh well-formed identifier carrying the current stamp, the hash prefix
    and the file's extension; a record echoing the caller's file name, tags
    and TTL; and exactly the uploaded bytes as content. Nothing else changes.
  */
  lemma UploadCreatesBlob(cfg: Config, hash: Bytes -> Digest, s: Store, data: Bytes,
                          filename: string, tags: seq<string>, ttlHours: Option<nat>)
    requires StoreValid(cfg, hash, s) && s.clock < StampLimit
    requires |data| <= SizeLimit(cfg) && MimeAllowed(InferMime(filename), cfg.allowedMimeTypes)
    requires !cfg.enableDeduplication || hash(data) !in s.dedup
    ensures var (s', r) := UploadStep(cfg, hash, s, data, filename, tags, ttlHours);
      r.Ok? &&
      var rec := r.value;
      var id := rec.blobId;
      && id !in s.records
      && id[..|Scheme|] == Scheme
      && Decode(id) == Some(IdParts(s.clock, hash(data)[..FragmentWidth], IdExtension(filename)))
      && rec.filename == filename
      && rec.mimeType == InferMime(filename)
      && rec.sizeBytes == |data|
      && rec.sha256 == hash(data)
      && rec.tags == tags
      && rec.ttlHours == ttlHours.GetOr(cfg.defaultTtlHours)
      && s'.records == s.records[id := rec]
      && s'.contents == s.contents[id := data]
      && |s'.records| == |s.records| + 1
      && GetMetadata(s', id) == Ok(rec)
      && GetContent(s', id) == Ok(data)
  {
    UploadFreshIsPublished(cfg, hash, s, data, filename, tags, ttlHours);
    var id := NewId(s.clock, hash(data), filename);
    NewIdDecodes(s.clock, hash(data), filename);
  }

  /** With deduplication on, known content returns the record that holds it, and nothing changes. */
  lemma UploadFindsDuplicate(cfg: Config, hash: Bytes -> Digest, s: Store, data: Bytes,
                             filename: string, tags: seq<string>, ttlHours: Option<nat>)
    requires StoreValid(cfg, hash, s)
    requires |data| <= SizeLimit(cfg) && MimeAllowed(InferMime(filename), cfg.allowedMimeTypes)
    requires cfg.enableDeduplication && hash(data) in s.dedup
    ensures var (s', r) := UploadStep(cfg, hash, s, data, filename, tags, ttlHours);
      && s' == s
      && r == Ok(s.records[s.dedup[hash(data)]])
      && r.value.sha256 == hash(data)
  {
  }

  /**
    Whatever path an accepted upload takes, the identifier it returns is
    stored: the metadata read back is the record returned, and the stored
    content has the uploaded content's hash.
  */
  lemma UploadIsReadable(cfg: Config, hash: Bytes -> Digest, s: Store, data: Bytes,
                         filename: string, tags: seq<string>, ttlHours: Option<nat>)
    requires StoreValid(cfg, hash, s) && s.clock < StampLimit
    ensures var (s', r) := UploadStep(cfg, hash, s, data, filename, tags, ttlHours);
      r.Ok? ==>
        && r.value.sha256 == hash(data)
        && r.value.blobId[..|Scheme|] == Scheme
        && GetMetadata(s', r.value.blobId) == Ok(r.value)
        && GetContent(s', r.value.blobId).Ok?
        && hash(GetContent(s', r.value.blobId).value) == hash(data)
  {
    if CheckUpload(cfg, |data|, InferMime(filename)) == Pass {
      if cfg.enableDeduplication && hash(data) in s.dedup {
        UploadFindsDuplicate(cfg, hash, s, data, filename, tags, ttlHours);
        StoredIsReadable(cfg, hash, s, s.dedup[hash(data)]);
      } else {
        UploadCreatesBlob(cfg, hash, s, data, filename, tags, ttlHours);
      }
    }
  }

  /** A stored blob reads back: its record under its own identifier, and content with the recorded hash. */
  lemma StoredIsReadable(cfg: Config, hash: Bytes -> Digest, s: Store, id: string)
    requires StoreValid(cfg, hash, s) && id in s.records
    ensures id[..|Scheme|] == Scheme
    ensures GetMetadata(s, id) == Ok(s.records[id]) && s.records[id].blobId == id
    ensures GetContent(s, id).Ok? && hash(GetContent(s, id).value) == s.records[id].sha256
  {
    assert RecordFits(cfg, hash, s, id);
  }

  /** The name `stem.ext` of a simple lower-case file keeps `.ext` in its identifier. */
  lemma IdKeepsExtension(stem: string, ext: string)
    requires PlainPart(stem) && DotPart(ext) && AllAlnum(ext[1..])
    ensures IdExtension(stem + ext) == ext
  {
    SuffixOfPlainName(stem, ext);
  }

  /** The same for a name in a directory and a stem that may hold dots: `dir/report.v2.png` keeps `.png`. */
  lemma IdKeepsPathExtension(dir: string, stem: string, ext: string)
    requires |stem| > 0 && (forall i :: 0 <= i < |stem| ==> stem[i] != '/')
    requires DotPart(ext) && AllAlnum(ext[1..])
    ensures IdExtension(dir + stem + ext) == ext
  {
    SuffixOfPath(dir, stem, ext);
  }

  /**
    With deduplication on, uploading the same bytes a second time returns the
    same record (so the same identifier and hash) and the store does not grow.
  */
  lemma DedupUploadTwice(cfg: Config, hash: Bytes -> Digest, s: Store, data: Bytes,
                         filename1: string, tags1: seq<string>, ttl1: Option<nat>,
                         filename2: string, tags2: seq<string>, ttl2: Option<nat>)
    requires StoreValid(cfg, hash, s) && s.clock < StampLimit && cfg.enableDeduplication
    requires UploadStep(cfg, hash, s, data, filename1, tags1, ttl1).1.Ok?
    requires MimeAllowed(InferMime(filename2), cfg.allowedMimeTypes)
    ensures var (s1, r1) := UploadStep(cfg, hash, s, data, filename1, tags1, ttl1);
      var (s2, r2) := UploadStep(cfg, hash, s1, data, filename2, tags2, ttl2);
      && r2 == r1
      && r2.value.blobId == r1.value.blobId
      && r2.value.sha256 == r1.value.sha256
      && s2 == s1
  {
    var (s1, r1) := UploadStep(cfg, hash, s, data, filename1, tags1, ttl1);
    UploadPreservesValid(cfg, hash, s, data, filename1, tags1, ttl1);
    if hash(data) !in s.dedup {
      UploadFreshIsPublished(cfg, hash, s, data, filename1, tags1, ttl1);
    }
    assert hash(data) in s1.dedup && s1.records[s1.dedup[hash(data)]] == r1.value;
  }

  /**
    With deduplication off, uploading the same bytes twice creates two blobs
    with different identifiers and the same hash.
  */
  lemma PlainUploadTwice(cfg: Config, hash: Bytes -> Digest, s: Store, data: Bytes,
                         filename1: string, tags1: seq<string>, ttl1: Option<nat>,
                         filename2: string, tags2: seq<string>, ttl2: Option<nat>)
    requires StoreValid(cfg, hash, s) && s.clock + 1 < StampLimit && !cfg.enableDeduplication
    requires UploadStep(cfg, hash, s, data, filename1, tags1, ttl1).1.Ok?
    requires MimeAllowed(InferMime(filename2), cfg.allowedMimeTypes)
    ensures var (s1, r1) := UploadStep(cfg, hash, s, data, filename1, tags1, ttl1);
      var (s2, r2) := UploadStep(cfg, hash, s1, data, filename2, tags2, ttl2);
      && r2.Ok?
      && r2.value.blobId != r1.value.blobId
      && r2.value.sha256 == r1.value.sha256
      && |s2.records| == |s.records| + 2
  {
    UploadCreatesBlob(cfg, hash, s, data, filename1, tags1, ttl1);
    UploadPreservesValid(cfg, hash, s, data, filename1, tags1, ttl1);
    var (s1, r1) := UploadStep(cfg, hash, s, data, filename1, tags1, ttl1);
    UploadCreatesBlob(cfg, hash, s1, data, filename2, tags2, ttl2);
  }

  /**
    The three operations that take an identifier tell a malformed identifier
    (InvalidBlobId, raised before any lookup) from a well-formed one that names
    nothing stored (BlobNotFound); a malformed identifier is never reported as
    not found, and neither error changes the store.
  */
  lemma IdentifierErrors(cfg: Config, hash: Bytes -> Digest, s: Store, id: string)
    requires StoreValid(cfg, hash, s)
    ensures GetMetadata(s, id) == Err(InvalidBlobId) <==> !IsWellFormed(id)
    ensures GetContent(s, id) == Err(InvalidBlobId) <==> !IsWellFormed(id)
    ensures DeleteStep(s, id) == (s, Fail(InvalidBlobId)) <==> !IsWellFormed(id)
    ensures GetMetadata(s, id) == Err(BlobNotFound) <==> IsWellFormed(id) && id !in s.records
    ensures GetContent(s, id) == Err(BlobNotFound) <==> IsWellFormed(id) && id !in s.records
    ensures DeleteStep(s, id) == (s, Fail(BlobNotFound)) <==> IsWellFormed(id) && id !in s.records
    ensures DeleteStep(s, id).1.Fail? ==> DeleteStep(s, id).0 == s
  {
  }

  /** What a successful delete leaves: both maps without the identifier, and the same clock. */
  lemma DeleteShape(cfg: Config, hash: Bytes -> Digest, s: Store, id: string)
    requires StoreValid(cfg, hash, s) && id in s.records
    ensures var (s', o) := DeleteStep(s, id);
      && o == Pass
      && s'.records == s.records - {id}
      && s'.contents == s.contents - {id}
      && s'.clock == s.clock
  {
    assert RecordFits(cfg, hash, s, id);
  }

  /**
    Deleting a stored blob removes its record and its content together, after
    which both lookups report BlobNotFound; every other blob reads back as before.
  */
  lemma DeleteRemovesBlob(cfg: Config, hash: Bytes -> Digest, s: Store, id: string)
    requires StoreValid(cfg, hash, s) && id in s.records
    ensures DeleteStep(s, id).1 == Pass
    ensures var s' := DeleteStep(s, id).0;
      && GetMetadata(s', id) == Err(BlobNotFound)
      && GetContent(s', id) == Err(BlobNotFound)
      && DeleteStep(s', id).1 == Fail(BlobNotFound)
      && |s'.records| == |s.records| - 1
    ensures var s' := DeleteStep(s, id).0;
      forall x :: x != id ==> GetMetadata(s', x) == GetMetadata(s, x) && GetContent(s', x) == GetContent(s, x)
  {
    DeleteShape(cfg, hash, s, id);
    assert RecordFits(cfg, hash, s, id);
    LookupsAfterRemoval(s, DeleteStep(s, id).0, id);
  }

  /** Lookups in a store from which exactly `id` was removed. */
  lemma LookupsAfterRemoval(s: Store, s': Store, id: string)
    requires IsWellFormed(id) && id in s.records && id in s.contents
    requires s'.records == s.records - {id} && s'.contents == s.contents - {id}
    ensures GetMetadata(s', id) == Err(BlobNotFound) && GetContent(s', id) == Err(BlobNotFound)
    ensures DeleteStep(s', id).1 == Fail(BlobNotFound)
    ensures |s'.records| == |s.records| - 1
    ensures forall x :: x != id ==> GetMetadata(s', x) == GetMetadata(s, x) && GetContent(s', x) == GetContent(s, x)
  {
    assert s'.records.Keys == s.records.Keys - {id};
    forall x | x != id
      ensures GetMetadata(s', x) == GetMetadata(s, x) && GetContent(s', x) == GetContent(s, x)
    {
      assert x in s'.records <==> x in s.records;
      assert x in s'.contents <==> x in s.contents;
    }
  }

  /** Upload, then delete, of new content: the blob is gone, and so is its hash entry. */
  lemma UploadThenDelete(cfg: Config, hash: Bytes -> Digest, s: Store, data: Bytes,
                         filename: string, tags: seq<string>, ttlHours: Option<nat>)
    requires StoreValid(cfg, hash, s) && s.clock < StampLimit
    requires |data| <= SizeLimit(cfg) && MimeAllowed(InferMime(filename), cfg.allowedMimeTypes)
    requires !cfg.enableDeduplication || hash(data) !in s.dedup
    ensures var (s1, r) := UploadStep(cfg, hash, s, data, filename, tags, ttlHours);
      var s2 := DeleteStep(s1, r.value.blobId).0;
      && GetMetadata(s2, r.value.blobId) == Err(BlobNotFound)
      && GetContent(s2, r.value.blobId) == Err(BlobNotFound)
      && s2.records == s.records && s2.contents == s.contents && s2.dedup == s.dedup
  {
    var h := hash(data);
    UploadFreshIsPublished(cfg, hash, s, data, filename, tags, ttlHours);
    var id := NewId(s.clock, h, filename);
    var rec := BlobRecord(id, filename, InferMime(filename), |data|, h, tags,
                          ttlHours.GetOr(cfg.defaultTtlHours), s.clock);
    assert s.records.Keys == s.contents.Keys;
    assert h !in s.dedup;
    DeletePublished(cfg, s, id, rec, data);
  }

  /** Deleting what was just published gives back the maps from before the publication. */
  lemma DeletePublished(cfg: Config, s: Store, id: string, rec: BlobRecord, data: Bytes)
    requires IsWellFormed(id) && id !in s.records && id !in s.contents
    requires rec.sha256 !in s.dedup
    ensures var s1 := Published(cfg, s, id, rec, data);
      var s2 := DeleteStep(s1, id).0;
      && GetMetadata(s2, id) == Err(BlobNotFound)
      && GetContent(s2, id) == Err(BlobNotFound)
      && s2.records == s.records && s2.contents == s.contents && s2.dedup == s.dedup
  {
    UpdateThenRemove(s.records, id, rec);
    UpdateThenRemove(s.contents, id, data);
    if cfg.enableDeduplication {
      UpdateThenRemove(s.dedup, rec.sha256, id);
    }
  }

  lemma UpdateThenRemove<K, V>(m: map<K, V>, k: K, v: V)
    requires k !in m
    ensures m[k := v] - {k} == m
  {
    assert (m[k := v] - {k}).Keys == m.Keys;
  }
}
