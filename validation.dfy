/** The upload validation policy: size ceiling first, then the MIME allow-list. */
module Validation {
  import opened Outcomes
  import opened BlobTypes
  import opened MimeTypes

  /** The size ceiling in bytes; a payload of exactly this length is accepted. */
  function SizeLimit(cfg: Config): nat {
    cfg.maxSizeMb * 1024 * 1024
  }

  function CheckUpload(cfg: Config, size: nat, mime: string): (o: Outcome)
    ensures o == Fail(BlobSizeLimit) <==> size > SizeLimit(cfg)
    ensures o == Fail(InvalidMimeType) <==> size <= SizeLimit(cfg) && !MimeAllowed(mime, cfg.allowedMimeTypes)
    ensures o == Pass <==> size <= SizeLimit(cfg) && MimeAllowed(mime, cfg.allowedMimeTypes)
  {
    if size > SizeLimit(cfg) then Fail(BlobSizeLimit)
    else if !MimeAllowed(mime, cfg.allowedMimeTypes) then Fail(InvalidMimeType)
    else Pass
  }

  /** Under the default ceiling of 100 MB, 101 MB is refused and exactly 100 MB is not. */
  lemma DefaultCeiling(root: string, ttl: nat, mime: string)
    ensures CheckUpload(DefaultConfig(root, ttl), 101 * 1024 * 1024, mime) == Fail(BlobSizeLimit)
    ensures CheckUpload(DefaultConfig(root, ttl), 100 * 1024 * 1024, mime) == Pass
  {
  }
}
