# Blob storage engine, modelled in Dafny

The engine is a local, single-node, content-addressed blob store. Callers
upload bytes with a file name, optional tags and an optional TTL hint. The
engine validates the upload, checking the size ceiling first and then the
MIME allow-list. It hashes the content. With deduplication on, it either
returns the record already holding that content, or it stores the content
and a metadata record under a fresh identifier of the form
`blob://<10 digits>-<16 hex digits>[.<ext>]`. Records can then be read back,
their content fetched, listed with filters and pagination, and deleted.

The model has two layers.

- **`StoreModel`** describes the store as a value. It has:
  - the metadata index (identifier → record);
  - the content store (identifier → bytes);
  - the deduplication map (hash → identifier);
  - the enumeration order;
  - a logical clock that stamps new identifiers.

  Each public operation is a step function on that value: `UploadStep`,
  `GetMetadata`, `GetContent`, `DeleteStep` and `ListStep`.
  `StoreInvariant` proves that every step keeps the store invariant
  `StoreValid`:
  - records and contents have the same keys;
  - every record fits its content;
  - the order lists every record once;
  - the deduplication map and the records correspond one to one.

  `StoreProperties`, `StoreListing`, `StoreHistory` and `StoreScenarios`
  state what the engine promises its callers.
- **`Engine.BlobStorage`** is the engine as an object. Its configuration and
  hash function are fixed at construction, and its maps are fields that the
  methods update in place. Each method is proved to move the object's
  abstract state exactly as the matching step function does, and to keep
  the invariant.

Supporting modules:
- `BlobIds`: the identifier codec, with decode/encode round trips both ways.
- `MimeTypes`: suffix extraction, MIME inference and wildcard matching.
- `Validation`: the upload policy.
- `Listing`: filtering and page arithmetic.
- `Ascii`: character classes.
- `Outcomes`: the four error classes and the result types.

The implementation file of the engine is not part of this model. Its
behaviour is taken from the engine's test suite, `tests/test_storage.py`.
Where the tests leave a choice open, the model makes one and lists it under "## Left out".

## Model

| member | source | states |
|---|---|---|
| BlobTypes.DefaultConfig | tests/test_storage.py:24-27 | a store built from its root alone has a 100 MB ceiling, no allow-list (everything admitted) and deduplication on |
| Engine.BlobStorage.constructor | tests/test_storage.py:30-44 | the configuration given at construction is echoed back unchanged, and the store starts empty and valid |
| BlobIds.Decode | tests/test_storage.py:200 | decoding accepts only the scheme prefix, ten digits, '-', sixteen lower-case hex digits and an optional alphanumeric extension, and yields valid parts |
| BlobIds.DecodeEncode | tests/test_storage.py:200 | decoding the encoding of any valid stamp, fragment and extension gives them back |
| BlobIds.EncodeDecode | tests/test_storage.py:200 | every well-formed identifier is the encoding of what it decodes to |
| BlobIds.EncodeInjective | tests/test_storage.py:200 | distinct valid parts give distinct identifiers |
| BlobIds.ValueOfDecimal | tests/test_storage.py:200 | the ten-digit stamp field reads back as the stamp written into it |
| BlobIds.DecimalOfValue | tests/test_storage.py:200 | any digit string is the zero-padded rendering of the number it denotes |
| BlobIds.Encode | tests/test_storage.py:47-58 | lays an identifier out as `blob://`, the zero-padded ten-digit stamp, '-', the fragment and the extension; its round trips with `Decode` are `DecodeEncode` and `EncodeDecode` |
| BlobIds.WellFormedLayout | tests/test_storage.py:200 | any ten digits, fragment and extension laid out after the scheme form a well-formed identifier |
| BlobIds.TestIdentifiers | tests/test_storage.py:197-206 | "invalid" is malformed; blob://9999999999-0123456789abcdef.txt is well-formed |
| MimeTypes.Suffix | tests/test_storage.py:61-68 | the suffix ends the file name and is empty or a '.' with no further '.' or '/'; it is non-empty exactly when the last path component has a '.' that is neither its first nor its last character and has no '.' after it |
| MimeTypes.SuffixOfPlainName | tests/test_storage.py:61-68 | the suffix of `stem.ext` is `.ext` |
| MimeTypes.SuffixOfPath | tests/test_storage.py:61-68 | a name ending in a non-empty stem without '/' and a simple extension has that extension as its suffix, whatever directory precedes it and whatever dots the stem holds |
| MimeTypes.InferMimeOfPath | tests/test_storage.py:47-56 | the MIME type of such a name is the table entry of its lower-cased extension |
| MimeTypes.MimeForSuffix | tests/test_storage.py:47-56 | the extension-to-MIME table: `.txt`, `.png`, `.jpg`/`.jpeg`, else `application/octet-stream`; stated for names by `InferMimeOfLowerName` |
| MimeTypes.InferMimeOfPlainName | tests/test_storage.py:47-56 | the MIME type of `stem.ext` is looked up from `.ext` regardless of case |
| MimeTypes.InferMimeOfLowerName | tests/test_storage.py:47-56 | for a lower-case extension the table is consulted with the extension as written |
| MimeTypes.InferMime | tests/test_storage.py:47-56 | the MIME type of an upload is the table entry of its lower-cased suffix, `application/octet-stream` when there is none; stated for concrete names by `InferMimeOfPlainName` and `InferMimeOfLowerName` |
| MimeTypes.MimeMatches | tests/test_storage.py:232-253 | a MIME type matches a pattern, ignoring case, by type part for a `type/*` wildcard and by equality otherwise; stated by `WildcardMatches` and `ExactMatches` |
| MimeTypes.MimeAllowed | tests/test_storage.py:109-128 | an empty allow-list admits every type, otherwise some pattern must match; stated for the image wildcard by `ImageAllowList` |
| MimeTypes.WildcardMatches | tests/test_storage.py:109-128 | `t/*` matches a MIME type exactly when its type part is `t`, ignoring case |
| MimeTypes.ExactMatches | tests/test_storage.py:232-241 | a pattern that is not a wildcard matches by case-insensitive equality |
| MimeTypes.TwoPartMatching | tests/test_storage.py:244-253 | `image/x` matches `image/*` but not `images/*`: matching is on the type part, not on a string prefix |
| MimeTypes.ImageAllowList | tests/test_storage.py:109-128 | with `["image/*"]` as the allow-list, `image/x` is admitted and `text/x` is not |
| Validation.CheckUpload | tests/test_storage.py:97-128 | an upload fails with BlobSizeLimit exactly when longer than `max_size_mb*1024*1024` bytes, else with InvalidMimeType exactly when its type is not allowed, else passes |
| Validation.SizeLimit | tests/test_storage.py:97-106 | the byte ceiling `max_size_mb * 1024 * 1024`; stated by `CheckUpload` and `DefaultCeiling` |
| Validation.DefaultCeiling | tests/test_storage.py:97-106 | under the default config 101 MB is refused and exactly 100 MB is not |
| Listing.Filter | tests/test_storage.py:232-264 | the filtered listing is no longer than its input and holds only matching records drawn from it |
| Listing.FilterMembers | tests/test_storage.py:232-264 | a record is in the filtered listing exactly when it is in the input and matches |
| Listing.FilterKeepsMatches | tests/test_storage.py:232-264 | no matching record is dropped by the filter |
| Listing.FilterWithoutFilters | tests/test_storage.py:219-229 | with neither a MIME nor a tag filter the listing is the whole enumeration |
| Listing.Matches | tests/test_storage.py:232-264 | the listing predicate: the MIME filter, when given, matches the record's type, and the record carries every requested tag; stated by `FilterMembers` and `StoreListing.ListFilters` |
| Listing.HasAllTags | tests/test_storage.py:256-264 | the tag filter: a record passes when it carries every requested tag; stated by `StoreListing.ListFilterTotals` and `StoreListing.TagFilterIsConjunctive` |
| Listing.FilterSnoc | tests/test_storage.py:232-264 | filtering one more record appends it exactly when it matches |
| Listing.ScanStep | tests/test_storage.py:219-264 | scanning one more identifier adds its record exactly when it is stored and matches |
| Listing.EnumerateAll | tests/test_storage.py:219-229 | when every identifier has a record, the enumeration is those records in that order |
| Listing.Enumerate | tests/test_storage.py:219-229 | the stored records for a sequence of identifiers, in that order; stated by `EnumerateAll` and `StoreListing.EnumerationIsComplete` |
| Listing.Page | tests/test_storage.py:267-287 | page k of size P over N items has `min(P, max(0, N-(k-1)*P))` items, the ones from position (k-1)*P on |
| Listing.PagesCover | tests/test_storage.py:267-287 | pages 1..k together are the first `min(k*P, N)` items, each once and in order |
| Listing.PagesPartition | tests/test_storage.py:267-287 | once k*P reaches N, the pages together are the whole listing |
| Listing.PaginationOfTwentyFive | tests/test_storage.py:267-287 | 25 items at page size 10 give pages of 10, 10 and 5, then nothing, and the three cover all 25 |
| StoreModel.IdExtension | tests/test_storage.py:61-68 | the identifier keeps the file's suffix whenever that suffix is a valid extension (a dot and alphanumerics), and otherwise no extension |
| StoreModel.NewId | tests/test_storage.py:47-68 | mints an identifier from the clock as stamp, the first 16 characters of the hash as fragment and the kept suffix as extension; stated by `StoreInvariant.NewIdDecodes` and `StoreInvariant.NewIdIsFresh` |
| StoreModel.Without | tests/test_storage.py:290-307 | removing an identifier from the order keeps every other entry and keeps the order free of repeats |
| StoreModel.StoreValid | tests/test_storage.py:47-307 | the store invariant: records and contents share their keys, each record fits its content, the order lists each record once, and the hash map corresponds one to one with the records; kept by `UploadPreservesValid` and `DeletePreservesValid` |
| StoreModel.Published | tests/test_storage.py:47-94 | the state after a fresh upload: content and record stored under the new identifier, its hash registered when deduplication is on, the identifier appended to the order, the clock advanced |
| StoreModel.UploadStep | tests/test_storage.py:47-174 | `upload_blob`: size check, then MIME check, then a deduplication hit or a fresh publication; stated by `StoreProperties.UploadOutcome`, `UploadCreatesBlob` and `UploadFindsDuplicate` |
| StoreModel.GetMetadata | tests/test_storage.py:177-206 | `get_metadata`: InvalidBlobId for a malformed identifier, BlobNotFound for an unstored one, else the record; stated by `StoreProperties.IdentifierErrors` and `StoredIsReadable` |
| StoreModel.GetContent | tests/test_storage.py:322-348 | `get_file_path`, with the bytes standing for the file: the same two errors, else the stored content; stated by `StoreProperties.IdentifierErrors` and `StoredIsReadable` |
| StoreModel.DeleteStep | tests/test_storage.py:290-319 | `delete_blob`: the same two errors, else the blob's record, content, hash entry and place in the order go; stated by `StoreProperties.DeleteShape` and `DeleteRemovesBlob` |
| StoreModel.ListStep | tests/test_storage.py:209-287 | `list_blobs`: the requested page of the matching records, their total, and the page and page size; stated by `StoreListing.ListPage`, `ListMembers` and `ListTotalCountsMatches` |
| StoreInvariant.NewIdDecodes | tests/test_storage.py:47-58 | a minted identifier is well-formed and decodes to the current stamp, the hash prefix and the kept extension |
| StoreInvariant.NewIdIsFresh | tests/test_storage.py:154-174 | the identifier minted at the current clock names nothing stored |
| StoreInvariant.UploadFreshIsPublished | tests/test_storage.py:47-94 | an accepted upload of unregistered content stores it and its fitting record under the new identifier and advances the clock |
| StoreInvariant.UploadPreservesValid | tests/test_storage.py:47-174 | every upload keeps the store invariant |
| StoreInvariant.DeletePreservesValid | tests/test_storage.py:290-319 | every delete keeps the store invariant |
| StoreProperties.UploadOutcome | tests/test_storage.py:97-128 | size is checked before MIME, each error arises exactly under its condition, and a refused upload leaves the store unchanged |
| StoreProperties.UploadCreatesBlob | tests/test_storage.py:47-94 | a new upload returns a fresh `blob://` identifier whose record echoes file name, inferred MIME, size, hash, tags and TTL; exactly one record and its bytes are added, and both read back |
| StoreProperties.UploadFindsDuplicate | tests/test_storage.py:131-151 | with deduplication on, known content returns the record holding it and the store is unchanged |
| StoreProperties.UploadIsReadable | tests/test_storage.py:177-194 | whichever path an accepted upload takes, its record reads back and its content has the uploaded bytes' hash |
| StoreProperties.StoredIsReadable | tests/test_storage.py:177-194 | a stored blob's record reads back under its own identifier and its content matches the recorded hash |
| StoreProperties.IdKeepsExtension | tests/test_storage.py:61-68 | `stem.png`-style names keep `.png` in the identifier |
| StoreProperties.IdKeepsPathExtension | tests/test_storage.py:61-68 | a name such as `dir/report.v2.png` keeps `.png` in its identifier |
| StoreProperties.DedupUploadTwice | tests/test_storage.py:131-151 | with deduplication on, a second upload of the same bytes returns the same record, identifier and hash, and the store does not change |
| StoreProperties.PlainUploadTwice | tests/test_storage.py:154-174 | with deduplication off, two uploads of the same bytes give different identifiers with equal hashes and two new records |
| StoreProperties.IdentifierErrors | tests/test_storage.py:197-206 | the three lookups fail with InvalidBlobId exactly for malformed identifiers and with BlobNotFound exactly for well-formed unstored ones; neither changes the store |
| StoreProperties.DeleteShape | tests/test_storage.py:290-307 | deleting a stored blob passes and removes exactly that identifier from records and contents |
| StoreProperties.DeleteRemovesBlob | tests/test_storage.py:290-307 | after deleting a stored blob both lookups and a second delete report BlobNotFound, the store has one record fewer, and every other blob reads as before |
| StoreProperties.LookupsAfterRemoval | tests/test_storage.py:290-307 | in a store with exactly one identifier removed, lookups of it report BlobNotFound and all other lookups are unchanged |
| StoreProperties.UploadThenDelete | tests/test_storage.py:290-307 | uploading new content and deleting it restores the records, contents and deduplication map |
| StoreProperties.DeletePublished | tests/test_storage.py:290-307 | deleting what was just published gives back the maps from before |
| StoreListing.ListEmptyStore | tests/test_storage.py:209-216 | an empty store lists no blobs, total 0, page 1, page size 20 by default |
| StoreListing.EnumerationIsComplete | tests/test_storage.py:219-229 | the enumeration lists every stored record once each, and nothing else |
| StoreListing.ListTotalIsStoreSize | tests/test_storage.py:219-229 | without filters the total is the number of stored blobs |
| StoreListing.ListMembers | tests/test_storage.py:232-264 | a listing holds exactly the stored records that pass both filters |
| StoreListing.ListFilters | tests/test_storage.py:232-264 | a wildcard filter keeps the records of that type; a tag filter keeps the records carrying every requested tag |
| StoreListing.FilteredCount | tests/test_storage.py:232-264 | over identifiers without repeats the filtered enumeration has exactly one record per stored identifier whose record matches |
| StoreListing.ListTotalCountsMatches | tests/test_storage.py:232-264 | under the store invariant a listing's total is the number of stored blobs that pass both filters |
| StoreListing.ListFilterTotals | tests/test_storage.py:244-264 | the total of a `t/*` filter is the number of stored blobs whose type part is `t`, and the total of a tag filter the number carrying every requested tag |
| StoreListing.ListPage | tests/test_storage.py:267-287 | each page has the pagination-formula length and the right slice; total, page and page size are echoed |
| StoreListing.ListTwentyFive | tests/test_storage.py:267-287 | over 25 stored blobs, pages 1-3 of size 10 hold 10, 10 and 5 records, with total 25 each time |
| StoreListing.TagFilterIsConjunctive | tests/test_storage.py:256-264 | of records tagged [tag1], [tag1, tag2] and [tag2], filtering on tag1 keeps the first two and on both tags keeps only the second |
| StoreHistory.StepMints | tests/test_storage.py:154-174 | each operation keeps the invariant and mints at most one identifier, stamped with the clock it then advances |
| StoreHistory.RunStamps | tests/test_storage.py:267-271 | over a run of operations the i-th minted identifier carries stamp clock+i and the clock ends advanced by the number minted |
| StoreHistory.IdsNeverReused | tests/test_storage.py:154-174 | within any run of uploads and deletes no identifier is minted twice, and none names a blob stored when the run began |
| StoreScenarios.UploadTextFile | tests/test_storage.py:47-58 | uploading `stem.txt` with no allow-list gives a text/plain record of the payload's size, under a `blob://` identifier ending in `.txt`, that reads back |
| StoreScenarios.ImageUploadAccepted | tests/test_storage.py:109-121 | under `["image/*"]` a `.png` upload is accepted |
| StoreScenarios.TextUploadRefused | tests/test_storage.py:123-128 | under `["image/*"]` a `.txt` upload is refused with InvalidMimeType and the store is unchanged |
| StoreScenarios.OversizeUpload | tests/test_storage.py:97-106 | a 101 MB payload under the default config is refused with BlobSizeLimit and the store is unchanged |
| StoreScenarios.TestIdentifierErrors | tests/test_storage.py:197-206 | with the test's unknown identifier not stored, all three lookups report BlobNotFound; with "invalid" all three report InvalidBlobId |
| Engine.BlobStorage.UploadBlob | tests/test_storage.py:47-174 | the method moves the store exactly as `UploadStep` does and keeps the invariant |
| Engine.BlobStorage.GetMetadata | tests/test_storage.py:177-206 | returns `GetMetadata` of the current state: an error exactly for a malformed or unstored identifier, otherwise the record, which carries that identifier and the stored content's size |
| Engine.BlobStorage.GetFileContent | tests/test_storage.py:322-348 | returns `GetContent` of the current state; returned bytes have the recorded hash |
| Engine.BlobStorage.DeleteBlob | tests/test_storage.py:290-319 | the method moves the store exactly as `DeleteStep` does and keeps the invariant |
| Engine.BlobStorage.ListBlobs | tests/test_storage.py:209-287 | the loop over the index returns exactly `ListStep` of the current state: total is the number of matches and no page exceeds the page size |

## Left out

- Filesystem I/O is not modelled. The temporary storage root, on-disk layout, write-then-rename and `Path.exists` are replaced by two maps. The content map takes the place of the files, and `get_file_path` is modelled as `GetFileContent`, which returns the stored bytes instead of a path.
- SHA-256 is not computed. It is a function `Bytes -> Digest` fixed at construction, deterministic but not assumed injective.
- The real clock is replaced by a logical counter in the state. It stamps each new identifier and advances once per new blob. `created_at` is that stamp.
- Engine.BlobStorage.UploadBlob: requires `clock < 10^10`, the range of the ten-digit stamp field. What the engine does once stamps overflow the field is not captured.
- StoreHistory.IdsNeverReused: holds for runs that fit the ten-digit stamp range (`clock + |ops| <= 10^10`).
- The 16-hex fragment of a new identifier is the first 16 characters of the content hash. The tests only require the field's shape.
- The order of `list_blobs` is modelled as upload order. The tests pin the count of listed records, not their order.
- `page` must be at least 1, because the tests never use a smaller page number. The page size may be 0, which gives empty pages.
- The extension-to-MIME table has entries only for `.txt`, `.png`, `.jpg` and `.jpeg`. Every other suffix maps to `application/octet-stream`.
- A caller-supplied MIME type at upload is not modelled. The tests always infer the type from the file name.
- The default TTL is a configuration parameter, not a fixed constant, because the tests do not pin its value. TTL is stored and returned only; expiry and eviction are not modelled.
- On a deduplication hit the engine returns the existing record as it is. The new file name, tags and TTL are discarded.
- Concurrency is not modelled. That covers the race between simultaneous first uploads of the same content and listing snapshots, since every call is sequential here.
- The pytest fixtures at tests/test_storage.py:17-27 are not modelled, beyond the default configuration they construct.
- The reading of a 100 MB payload is not modelled. Only its length enters the model.
- An identifier keeps a file's suffix only when the suffix is a '.' followed by ASCII letters and digits. A suffix such as `.tar-gz` is dropped from the identifier, and the record keeps the full file name.
- Case is ignored only for ASCII letters, in the suffix lookup and in MIME matching. Other characters are compared as written, whereas a full Unicode case fold would also fold non-ASCII letters.
- The fragment of an identifier must be lower-case hex, which is what a hex digest prints. An identifier with upper-case hex digits is read as malformed.
- A MIME pattern counts as a wildcard only when it is a type, a '/' and a '*', with no other '/'. Any other pattern is compared as an exact type.
- A file name ending in '/' has an empty base name and so no suffix. A path library would first strip the trailing '/'.
