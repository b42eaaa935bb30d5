/** Every step of the store keeps the store invariant. */
module StoreInvariant {
  import opened Outcomes
  import opened BlobTypes
  import opened BlobIds
  import opened MimeTypes
  import opened Validation
  import opened StoreModel

  /** A freshly minted identifier decodes to the stamp it was minted at. */
  lemma NewIdDecodes(stamp: nat, h: Digest, filename: string)
    requires stamp < StampLimit
    ensures IsWellFormed(NewId(stamp, h, filename))
    ensures Decode(NewId(stamp, h, filename)) == Some(IdParts(stamp, h[..FragmentWidth], IdExtension(filename)))
    ensures StampOf(NewId(stamp, h, filename)) == stamp
  {
    var p := IdParts(stamp, h[..FragmentWidth], IdExtension(filename));
    assert IsFragment(p.fragment);
    DecodeEncode(p);
  }

  /** The identifier minted at the current clock names nothing stored. */
  lemma NewIdIsFresh(cfg: Config, hash: Bytes -> Digest, s: Store, h: Digest, filename: string)
    requires StoreValid(cfg, hash, s) && s.clock < StampLimit
    ensures NewId(s.clock, h, filename) !in s.records
    ensures NewId(s.clock, h, filename) !in s.order
  {
    NewIdDecodes(s.clock, h, filename);
  }

  lemma PublishedRecordsFit(cfg: Config, hash: Bytes -> Digest, s: Store, id: string, rec: BlobRecord, data: Bytes)
    requires RecordsFit(cfg, hash, s) && id !in s.records && Fits(cfg, hash, id, rec, data, s.clock + 1)
    ensures RecordsFit(cfg, hash, Published(cfg, s, id, rec, data))
  {
    var s' := Published(cfg, s, id, rec, data);
    forall x | x in s'.records
      ensures x in s'.contents && RecordFits(cfg, hash, s', x)
    {
      if x != id {
        assert RecordFits(cfg, hash, s, x);
      }
    }
  }

  lemma PublishedOrder(cfg: Config, s: Store, id: string, rec: BlobRecord, data: Bytes)
    requires OrderListsRecords(s) && id !in s.records
    ensures OrderListsRecords(Published(cfg, s, id, rec, data))
  {
    assert id !in s.order;
  }

  lemma PublishedDedup(cfg: Config, s: Store, id: string, rec: BlobRecord, data: Bytes)
    requires DedupConsistent(cfg, s) && id !in s.records
    requires cfg.enableDeduplication ==> rec.sha256 !in s.dedup
    ensures DedupConsistent(cfg, Published(cfg, s, id, rec, data))
  {
    var s' := Published(cfg, s, id, rec, data);
    if cfg.enableDeduplication {
      forall h | h in s'.dedup
        ensures s'.dedup[h] in s'.records && s'.records[s'.dedup[h]].sha256 == h
      {
        if h != rec.sha256 {
          assert s.dedup[h] in s.records;
        }
      }
      forall x | x in s'.records
        ensures s'.records[x].sha256 in s'.dedup && s'.dedup[s'.records[x].sha256] == x
      {
        if x != id {
          assert s.records[x].sha256 in s.dedup;
        }
      }
    }
  }

  /** A fresh upload is a publication of a fitting record under the new identifier. */
  lemma UploadFreshIsPublished(cfg: Config, hash: Bytes -> Digest, s: Store, data: Bytes,
                               filename: string, tags: seq<string>, ttlHours: Option<nat>)
    requires StoreValid(cfg, hash, s) && s.clock < StampLimit
    requires CheckUpload(cfg, |data|, InferMime(filename)) == Pass
    requires !(cfg.enableDeduplication && hash(data) in s.dedup)
    ensures var id := NewId(s.clock, hash(data), filename);
      var rec := BlobRecord(id, filename, InferMime(filename), |data|, hash(data), tags,
                            ttlHours.GetOr(cfg.defaultTtlHours), s.clock);
      && id !in s.records
      && Fits(cfg, hash, id, rec, data, s.clock + 1)
      && UploadStep(cfg, hash, s, data, filename, tags, ttlHours) == (Published(cfg, s, id, rec, data), Ok(rec))
  {
    NewIdIsFresh(cfg, hash, s, hash(data), filename);
    NewIdDecodes(s.clock, hash(data), filename);
  }

  lemma UploadPreservesValid(cfg: Config, hash: Bytes -> Digest, s: Store, data: Bytes,
                             filename: string, tags: seq<string>, ttlHours: Option<nat>)
    requires StoreValid(cfg, hash, s) && s.clock < StampLimit
    ensures StoreValid(cfg, hash, UploadStep(cfg, hash, s, data, filename, tags, ttlHours).0)
  {
    var h := hash(data);
    if CheckUpload(cfg, |data|, InferMime(filename)) == Pass && !(cfg.enableDeduplication && h in s.dedup) {
      UploadFreshIsPublished(cfg, hash, s, data, filename, tags, ttlHours);
      var id := NewId(s.clock, h, filename);
      var rec := BlobRecord(id, filename, InferMime(filename), |data|, h, tags,
                            ttlHours.GetOr(cfg.defaultTtlHours), s.clock);
      PublishedRecordsFit(cfg, hash, s, id, rec, data);
      PublishedOrder(cfg, s, id, rec, data);
      PublishedDedup(cfg, s, id, rec, data);
    }
  }

  lemma RemovedRecordsFit(cfg: Config, hash: Bytes -> Digest, s: Store, id: string)
    requires RecordsFit(cfg, hash, s) && IsWellFormed(id) && id in s.records
    ensures RecordsFit(cfg, hash, DeleteStep(s, id).0)
  {
    var s' := DeleteStep(s, id).0;
    assert s'.records == s.records - {id} && s'.contents == s.contents - {id} && s'.clock == s.clock;
    forall x | x in s'.records
      ensures x in s'.contents && RecordFits(cfg, hash, s', x)
    {
      assert RecordFits(cfg, hash, s, x);
    }
  }

  lemma RemovedDedup(cfg: Config, s: Store, id: string)
    requires DedupConsistent(cfg, s) && IsWellFormed(id) && id in s.records
    ensures DedupConsistent(cfg, DeleteStep(s, id).0)
  {
    var s' := DeleteStep(s, id).0;
    assert s'.records == s.records - {id};
    if cfg.enableDeduplication {
      var hd := s.records[id].sha256;
      assert s'.dedup == s.dedup - {hd};
      forall h | h in s'.dedup
        ensures s'.dedup[h] in s'.records && s'.records[s'.dedup[h]].sha256 == h
      {
        assert s.dedup[h] != id;
      }
      forall x | x in s'.records
        ensures s'.records[x].sha256 in s'.dedup && s'.dedup[s'.records[x].sha256] == x
      {
        assert s.dedup[s.records[x].sha256] == x != id;
      }
    }
  }

  lemma RemovedOrder(s: Store, id: string)
    requires OrderListsRecords(s) && IsWellFormed(id) && id in s.records
    ensures OrderListsRecords(DeleteStep(s, id).0)
  {
    var s' := DeleteStep(s, id).0;
    assert s'.records == s.records - {id} && s'.order == Without(s.order, id);
    forall i | 0 <= i < |s'.order|
      ensures s'.order[i] in s'.records
    {
      assert s'.order[i] in s'.order;
    }
  }

  lemma DeletePreservesValid(cfg: Config, hash: Bytes -> Digest, s: Store, id: string)
    requires StoreValid(cfg, hash, s)
    ensures StoreValid(cfg, hash, DeleteStep(s, id).0)
  {
    if DeleteStep(s, id).1.Pass? {
      RemovedRecordsFit(cfg, hash, s, id);
      RemovedDedup(cfg, s, id);
      RemovedOrder(s, id);
    }
  }
}
