/**
  The listing side of the metadata index: which records a filter keeps, the
  enumeration of records in store order, and 1-indexed pagination.
*/
module Listing {
  import opened Outcomes
  import opened BlobTypes
  import opened MimeTypes

  const DefaultPage: nat := 1
  const DefaultPageSize: nat := 20

  function Min(a: int, b: int): int { if a <= b then a else b }

  function Max(a: int, b: int): int { if a >= b then a else b }

  /** The record carries every requested tag (AND across the requested tags). */
  predicate HasAllTags(r: BlobRecord, tags: seq<string>) {
    forall t :: t in tags ==> t in r.tags
  }

  /** The listing predicate: an optional MIME filter (exact or wildcard) and a tag filter. */
  predicate Matches(r: BlobRecord, mimeFilter: Option<string>, tags: seq<string>) {
    (mimeFilter.None? || MimeMatches(r.mimeType, mimeFilter.value)) && HasAllTags(r, tags)
  }

  /** The records of `rs` that match, in their original order. */
  function Filter(rs: seq<BlobRecord>, mimeFilter: Option<string>, tags: seq<string>): (out: seq<BlobRecord>)
    ensures |out| <= |rs|
    ensures forall i :: 0 <= i < |out| ==> out[i] in rs && Matches(out[i], mimeFilter, tags)
  {
    if rs == [] then []
    else
      var init := Filter(rs[..|rs| - 1], mimeFilter, tags);
      var last := rs[|rs| - 1];
      if Matches(last, mimeFilter, tags) then init + [last] else init
  }

  /** Everything that matches is kept: the filter loses no matching record. */
  lemma {:induction false} FilterKeepsMatches(rs: seq<BlobRecord>, mimeFilter: Option<string>, tags: seq<string>, r: BlobRecord)
    requires r in rs && Matches(r, mimeFilter, tags)
    ensures r in Filter(rs, mimeFilter, tags)
  {
    var init := rs[..|rs| - 1];
    if r != rs[|rs| - 1] {
      assert r in init;
      FilterKeepsMatches(init, mimeFilter, tags, r);
    }
  }

  /** Membership in a filtered listing, both directions. */
  lemma FilterMembers(rs: seq<BlobRecord>, mimeFilter: Option<string>, tags: seq<string>, r: BlobRecord)
    ensures r in Filter(rs, mimeFilter, tags) <==> r in rs && Matches(r, mimeFilter, tags)
  {
    if r in rs && Matches(r, mimeFilter, tags) {
      FilterKeepsMatches(rs, mimeFilter, tags, r);
    }
  }

  /** With neither filter the listing is the whole enumeration. */
  lemma {:induction false} FilterWithoutFilters(rs: seq<BlobRecord>)
    ensures Filter(rs, None, []) == rs
  {
    if rs != [] {
      FilterWithoutFilters(rs[..|rs| - 1]);
      assert rs == rs[..|rs| - 1] + [rs[|rs| - 1]];
    }
  }

  /** Filtering one more record appends it exactly when it matches. */
  lemma FilterSnoc(rs: seq<BlobRecord>, r: BlobRecord, mimeFilter: Option<string>, tags: seq<string>)
    ensures Filter(rs + [r], mimeFilter, tags)
         == Filter(rs, mimeFilter, tags) + (if Matches(r, mimeFilter, tags) then [r] else [])
  {
    assert (rs + [r])[..|rs|] == rs;
  }

  /** The stored records for `ids`, in that order; ids without a record are skipped. */
  function Enumerate(ids: seq<string>, records: map<string, BlobRecord>): (out: seq<BlobRecord>)
    ensures |out| <= |ids|
  {
    if ids == [] then []
    else
      var init := Enumerate(ids[..|ids| - 1], records);
      var id := ids[|ids| - 1];
      if id in records then init + [records[id]] else init
  }

  /** Scanning one more identifier adds its record to the listing exactly when it is stored and matches. */
  lemma ScanStep(ids: seq<string>, i: nat, records: map<string, BlobRecord>, mimeFilter: Option<string>, tags: seq<string>)
    requires i < |ids|
    ensures Filter(Enumerate(ids[..i + 1], records), mimeFilter, tags)
         == Filter(Enumerate(ids[..i], records), mimeFilter, tags)
            + (if ids[i] in records && Matches(records[ids[i]], mimeFilter, tags) then [records[ids[i]]] else [])
  {
    assert ids[..i + 1][..i] == ids[..i];
    if ids[i] in records {
      FilterSnoc(Enumerate(ids[..i], records), records[ids[i]], mimeFilter, tags);
    }
  }

  /** When every id has a record, the enumeration is exactly those records. */
  lemma {:induction false} EnumerateAll(ids: seq<string>, records: map<string, BlobRecord>)
    requires forall i :: 0 <= i < |ids| ==> ids[i] in records
    ensures |Enumerate(ids, records)| == |ids|
    ensures forall i :: 0 <= i < |ids| ==> Enumerate(ids, records)[i] == records[ids[i]]
  {
    if ids != [] {
      EnumerateAll(ids[..|ids| - 1], records);
    }
  }

  /** The `width` items from position `start` on, fewer when the items run out. */
  function Slice<T>(xs: seq<T>, start: nat, width: nat): seq<T> {
    if start >= |xs| then [] else xs[start..Min(start + width, |xs|)]
  }

  /**
    Page `page` (counted from 1) of size `pageSize`: over N items it holds
    min(pageSize, max(0, N - (page - 1) * pageSize)) of them, taken in order
    from position (page - 1) * pageSize.
  */
  function Page<T>(xs: seq<T>, page: nat, pageSize: nat): (r: seq<T>)
    requires page >= 1
    ensures |r| == Min(pageSize, Max(0, |xs| - (page - 1) * pageSize))
    ensures forall j :: 0 <= j < |r| ==> r[j] == xs[(page - 1) * pageSize + j]
  {
    Slice(xs, (page - 1) * pageSize, pageSize)
  }

  /** Pages 1 to k, one after another (page k is the slice at (k - 1) * pageSize). */
  function Pages<T>(xs: seq<T>, pageSize: nat, k: nat): seq<T> {
    if k == 0 then [] else Pages(xs, pageSize, k - 1) + Slice(xs, (k - 1) * pageSize, pageSize)
  }

  /** Pages 1 to k cover a prefix of the items, each exactly once and in order. */
  lemma {:induction false} PagesCover<T>(xs: seq<T>, pageSize: nat, k: nat)
    ensures Pages(xs, pageSize, k) == xs[..Min(k * pageSize, |xs|)]
  {
    if k > 0 {
      PagesCover(xs, pageSize, k - 1);
      var start := (k - 1) * pageSize;
      assert k * pageSize == start + pageSize;
      SliceExtends(xs, start, pageSize);
    }
  }

  /** The prefix up to `start`, followed by the slice there, is the longer prefix. */
  lemma SliceExtends<T>(xs: seq<T>, start: nat, width: nat)
    ensures xs[..Min(start, |xs|)] + Slice(xs, start, width) == xs[..Min(start + width, |xs|)]
  {
    if start < |xs| {
      assert xs[..start] + xs[start..Min(start + width, |xs|)] == xs[..Min(start + width, |xs|)];
    }
  }

  /** Once the pages reach past the end, together they are the whole listing. */
  lemma PagesPartition<T>(xs: seq<T>, pageSize: nat, k: nat)
    requires k * pageSize >= |xs|
    ensures Pages(xs, pageSize, k) == xs
  {
    PagesCover(xs, pageSize, k);
  }

  /** Twenty-five matches at page size 10 give pages of 10, 10 and 5, and nothing after. */
  lemma PaginationOfTwentyFive<T>(xs: seq<T>)
    requires |xs| == 25
    ensures |Page(xs, 1, 10)| == 10 && |Page(xs, 2, 10)| == 10 && |Page(xs, 3, 10)| == 5
    ensures Page(xs, 4, 10) == []
    ensures Pages(xs, 10, 3) == xs
  {
    PagesPartition(xs, 10, 3);
  }
}
