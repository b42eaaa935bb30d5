/**
  Runs of operations against one store. An identifier is minted only by an
  upload that stores new content, it carries the clock at that moment, and the
  clock then moves on: so no identifier is ever minted twice, not even one
  whose blob has since been deleted.
*/
module StoreHistory {
  import opened Outcomes
  import opened BlobTypes
  import opened BlobIds
  import opened MimeTypes
  import opened Validation
  import opened StoreModel
  import opened StoreInvariant

  /** A call on the public interface that can change the store. */
  datatype Op =
    | UploadOp(data: Bytes, filename: string, tags: seq<string>, ttlHours: Option<nat>)
    | DeleteOp(id: string)

  /** One operation: the store after it, and the identifiers it minted (none or one). */
  function Step(cfg: Config, hash: Bytes -> Digest, s: Store, op: Op): (Store, seq<string>) {
    match op
    case UploadOp(data, filename, tags, ttlHours) =>
      var (s', r) := UploadStep(cfg, hash, s, data, filename, tags, ttlHours);
      (s', if r.Ok? && s'.clock != s.clock then [r.value.blobId] else [])
    case DeleteOp(id) =>
      (DeleteStep(s, id).0, [])
  }

  /** The operations one after another: the final store and every identifier minted, in order. */
  function Run(cfg: Config, hash: Bytes -> Digest, s: Store, ops: seq<Op>): (Store, seq<string>)
    decreases |ops|
  {
    if ops == [] then (s, [])
    else
      var (s1, minted1) := Step(cfg, hash, s, ops[0]);
      var (s2, minted2) := Run(cfg, hash, s1, ops[1..]);
      (s2, minted1 + minted2)
  }

  /** A step keeps the invariant, and mints at most one identifier, stamped with the clock it then advances. */
  lemma StepMints(cfg: Config, hash: Bytes -> Digest, s: Store, op: Op)
    requires StoreValid(cfg, hash, s) && s.clock < StampLimit
    ensures var (s', minted) := Step(cfg, hash, s, op);
      && StoreValid(cfg, hash, s')
      && |minted| <= 1
      && s'.clock == s.clock + |minted|
      && forall id :: id in minted ==> IsWellFormed(id) && StampOf(id) == s.clock
  {
    match op
    case UploadOp(data, filename, tags, ttlHours) =>
      UploadPreservesValid(cfg, hash, s, data, filename, tags, ttlHours);
      UploadMints(cfg, hash, s, data, filename, tags, ttlHours);
    case DeleteOp(id) =>
      DeletePreservesValid(cfg, hash, s, id);
  }

  lemma UploadMints(cfg: Config, hash: Bytes -> Digest, s: Store, data: Bytes,
                    filename: string, tags: seq<string>, ttlHours: Option<nat>)
    requires s.clock < StampLimit
    ensures var (s', minted) := Step(cfg, hash, s, UploadOp(data, filename, tags, ttlHours));
      && |minted| <= 1
      && s'.clock == s.clock + |minted|
      && forall id :: id in minted ==> IsWellFormed(id) && StampOf(id) == s.clock
  {
    var id := NewId(s.clock, hash(data), filename);
    UploadCases(cfg, hash, s, data, filename, tags, ttlHours);
    NewIdDecodes(s.clock, hash(data), filename);
    var st := Step(cfg, hash, s, UploadOp(data, filename, tags, ttlHours));
    assert st.1 == [] || st.1 == [id];
  }

  /** An upload either leaves the store as it is or mints the identifier for the current clock and advances it. */
  lemma UploadCases(cfg: Config, hash: Bytes -> Digest, s: Store, data: Bytes,
                    filename: string, tags: seq<string>, ttlHours: Option<nat>)
    ensures var (s', r) := UploadStep(cfg, hash, s, data, filename, tags, ttlHours);
      || s' == s
      || (r.Ok? && r.value.blobId == NewId(s.clock, hash(data), filename) && s'.clock == s.clock + 1)
  {
  }

  /**
    Over a run that fits the stamp range, the i-th identifier minted carries
    stamp `s.clock + i`, and the clock ends advanced by the number minted.
  */
  lemma {:induction false} RunStamps(cfg: Config, hash: Bytes -> Digest, s: Store, ops: seq<Op>)
    requires StoreValid(cfg, hash, s) && s.clock + |ops| <= StampLimit
    ensures var (s', minted) := Run(cfg, hash, s, ops);
      && StoreValid(cfg, hash, s')
      && s'.clock == s.clock + |minted|
      && forall i :: 0 <= i < |minted| ==> IsWellFormed(minted[i]) && StampOf(minted[i]) == s.clock + i
    decreases |ops|
  {
    if ops != [] {
      StepMints(cfg, hash, s, ops[0]);
      var (s1, minted1) := Step(cfg, hash, s, ops[0]);
      RunStamps(cfg, hash, s1, ops[1..]);
      var (s2, minted2) := Run(cfg, hash, s1, ops[1..]);
      assert Run(cfg, hash, s, ops) == (s2, minted1 + minted2);
      forall i | 0 <= i < |minted1 + minted2|
        ensures IsWellFormed((minted1 + minted2)[i]) && StampOf((minted1 + minted2)[i]) == s.clock + i
      {
        if i >= |minted1| {
          assert (minted1 + minted2)[i] == minted2[i - |minted1|];
        } else {
          assert (minted1 + minted2)[i] in minted1;
        }
      }
    }
  }

  /**
    Identifiers are never reused: within a run no identifier is minted twice,
    and none of them names a blob the store held when the run began, whatever
    was deleted in between.
  */
  lemma IdsNeverReused(cfg: Config, hash: Bytes -> Digest, s: Store, ops: seq<Op>)
    requires StoreValid(cfg, hash, s) && s.clock + |ops| <= StampLimit
    ensures Distinct(Run(cfg, hash, s, ops).1)
    ensures forall id :: id in Run(cfg, hash, s, ops).1 ==> id !in s.records
  {
    RunStamps(cfg, hash, s, ops);
  }
}
