/** The situations the engine's tests set up, stated over the store model. */
module StoreScenarios {
  import opened Ascii
  import opened Outcomes
  import opened BlobTypes
  import opened BlobIds
  import opened MimeTypes
  import opened Validation
  import opened StoreModel
  import opened StoreInvariant
  import opened StoreProperties

  /**
    Uploading `stem.txt` to a store with no allow-list gives a record of type
    text/plain with the payload's size, under an identifier that starts with the
    scheme and ends with `.txt`, and the record reads back.
  */
  lemma UploadTextFile(cfg: Config, hash: Bytes -> Digest, s: Store, data: Bytes, stem: string,
                       tags: seq<string>, ttlHours: Option<nat>)
    requires StoreValid(cfg, hash, s) && s.clock < StampLimit
    requires cfg.allowedMimeTypes == [] && |data| <= SizeLimit(cfg)
    requires !cfg.enableDeduplication || hash(data) !in s.dedup
    requires PlainPart(stem)
    ensures var (s', r) := UploadStep(cfg, hash, s, data, stem + ".txt", tags, ttlHours);
      && r.Ok?
      && r.value.mimeType == "text/plain"
      && r.value.sizeBytes == |data|
      && r.value.tags == tags
      && r.value.blobId[..|Scheme|] == Scheme
      && |r.value.blobId| >= 4 && r.value.blobId[|r.value.blobId| - 4..] == ".txt"
      && GetMetadata(s', r.value.blobId) == Ok(r.value)
  {
    var filename := stem + ".txt";
    assert AllAlnum(".txt"[1..]);
    TxtName(stem);
    IdKeepsExtension(stem, ".txt");
    UploadCreatesBlob(cfg, hash, s, data, filename, tags, ttlHours);
  }

  /** Under an allow-list holding only the image wildcard, a `.png` upload is accepted. */
  lemma ImageUploadAccepted(cfg: Config, hash: Bytes -> Digest, s: Store, data: Bytes, stem: string,
                            tags: seq<string>, ttlHours: Option<nat>)
    requires cfg.allowedMimeTypes == ["image/*"] && |data| <= SizeLimit(cfg)
    requires PlainPart(stem)
    ensures UploadStep(cfg, hash, s, data, stem + ".png", tags, ttlHours).1.Ok?
  {
    PngName(stem);
    PngIsImage();
    UploadOutcome(cfg, hash, s, data, stem + ".png", tags, ttlHours);
  }

  /** Under the same allow-list a `.txt` upload is refused with InvalidMimeType and changes nothing. */
  lemma TextUploadRefused(cfg: Config, hash: Bytes -> Digest, s: Store, data: Bytes, stem: string,
                          tags: seq<string>, ttlHours: Option<nat>)
    requires cfg.allowedMimeTypes == ["image/*"] && |data| <= SizeLimit(cfg)
    requires PlainPart(stem)
    ensures UploadStep(cfg, hash, s, data, stem + ".txt", tags, ttlHours) == (s, Err(InvalidMimeType))
  {
    TxtName(stem);
    PlainTextIsNotImage();
    UploadOutcome(cfg, hash, s, data, stem + ".txt", tags, ttlHours);
  }

  lemma PngName(stem: string)
    requires PlainPart(stem)
    ensures InferMime(stem + ".png") == "image/png"
  {
    assert DotPart(".png");
    InferMimeOfLowerName(stem, ".png");
  }

  lemma TxtName(stem: string)
    requires PlainPart(stem)
    ensures InferMime(stem + ".txt") == "text/plain"
  {
    assert DotPart(".txt");
    InferMimeOfLowerName(stem, ".txt");
  }

  lemma PngIsImage()
    ensures MimeAllowed("image/png", ["image/*"])
  {
    ImageAllowList("png");
    assert "image/" + "png" == "image/png";
  }

  lemma PlainTextIsNotImage()
    ensures !MimeAllowed("text/plain", ["image/*"])
  {
    ImageAllowList("plain");
    assert "text/" + "plain" == "text/plain";
  }

  /** A 101 MB payload is refused under the default 100 MB ceiling, and the store is untouched. */
  lemma OversizeUpload(root: string, ttl: nat, hash: Bytes -> Digest, s: Store, data: Bytes, filename: string,
                       tags: seq<string>, ttlHours: Option<nat>)
    requires |data| == 101 * 1024 * 1024
    ensures UploadStep(DefaultConfig(root, ttl), hash, s, data, filename, tags, ttlHours) == (s, Err(BlobSizeLimit))
  {
    DefaultCeiling(root, ttl, InferMime(filename));
  }

  /**
    With the well-formed `UnknownId` not stored, all three lookups report
    BlobNotFound; with "invalid" they report InvalidBlobId.
  */
  lemma TestIdentifierErrors(cfg: Config, hash: Bytes -> Digest, s: Store)
    requires StoreValid(cfg, hash, s)
    requires UnknownId !in s.records
    ensures GetMetadata(s, UnknownId) == Err(BlobNotFound)
    ensures GetContent(s, UnknownId) == Err(BlobNotFound)
    ensures DeleteStep(s, UnknownId) == (s, Fail(BlobNotFound))
    ensures GetMetadata(s, "invalid") == Err(InvalidBlobId)
    ensures GetContent(s, "invalid") == Err(InvalidBlobId)
    ensures DeleteStep(s, "invalid") == (s, Fail(InvalidBlobId))
  {
    TestIdentifiers();
    assert UnknownId !in s.contents;
  }
}
