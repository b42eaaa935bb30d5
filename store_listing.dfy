/** What `list_blobs` promises, stated over the store model. */
module StoreListing {
  import opened Ascii
  import opened Outcomes
  import opened BlobTypes
  import opened MimeTypes
  import opened Listing
  import opened StoreModel

  /** An empty store lists nothing, on page 1 of size 20 by default. */
  lemma ListEmptyStore()
    ensures ListStep(EmptyStore, None, [], DefaultPage, DefaultPageSize) == ListResult([], 0, 1, 20)
  {
  }

  /** A sequence without repetitions has as many elements as the set of its elements. */
  lemma {:induction false} DistinctCardinality(ids: seq<string>)
    requires Distinct(ids)
    ensures |set x | x in ids| == |ids|
  {
    if ids != [] {
      var init := ids[..|ids| - 1];
      var last := ids[|ids| - 1];
      DistinctCardinality(init);
      assert (set x | x in ids) == (set x | x in init) + {last};
      assert last !in init;
    }
  }

  /** The set of identifiers the order lists is the set of stored identifiers. */
  lemma OrderCoversRecords(s: Store)
    requires OrderListsRecords(s)
    ensures |s.order| == |s.records|
  {
    DistinctCardinality(s.order);
    assert (set x | x in s.order) == s.records.Keys;
  }

  /** When the order lists the records, the enumeration lists every stored record, once each, in store order. */
  lemma EnumerationIsComplete(s: Store)
    requires OrderListsRecords(s)
    ensures |Enumerate(s.order, s.records)| == |s.records|
    ensures forall r :: r in Enumerate(s.order, s.records) <==> r in s.records.Values
  {
    EnumerateAll(s.order, s.records);
    OrderCoversRecords(s);
    var rs := Enumerate(s.order, s.records);
    forall r | r in s.records.Values
      ensures r in rs
    {
      var id :| id in s.records && s.records[id] == r;
      var i :| 0 <= i < |s.order| && s.order[i] == id;
      assert rs[i] == r;
    }
  }

  /** Without filters the total is the number of stored blobs. */
  lemma ListTotalIsStoreSize(cfg: Config, hash: Bytes -> Digest, s: Store, page: nat, pageSize: nat)
    requires StoreValid(cfg, hash, s) && page >= 1
    ensures ListStep(s, None, [], page, pageSize).total == |s.records|
  {
    EnumerationIsComplete(s);
    FilterWithoutFilters(Enumerate(s.order, s.records));
  }

  /** A listing holds exactly the stored records that pass both filters. */
  lemma ListMembers(cfg: Config, hash: Bytes -> Digest, s: Store, mimeFilter: Option<string>,
                    tags: seq<string>, r: BlobRecord)
    requires StoreValid(cfg, hash, s)
    ensures r in Matching(s, mimeFilter, tags) <==> r in s.records.Values && Matches(r, mimeFilter, tags)
  {
    EnumerationIsComplete(s);
    FilterMembers(Enumerate(s.order, s.records), mimeFilter, tags, r);
  }

  /** The identifiers of `ids` that are stored and whose record matches. */
  ghost function MatchingIds(ids: seq<string>, records: map<string, BlobRecord>,
                             mimeFilter: Option<string>, tags: seq<string>): set<string> {
    set id | id in ids && id in records && Matches(records[id], mimeFilter, tags)
  }

  /** One more identifier, not listed before, adds itself to the matching ones exactly when it matches. */
  lemma MatchingIdsSnoc(ids: seq<string>, last: string, records: map<string, BlobRecord>,
                        mimeFilter: Option<string>, tags: seq<string>)
    requires last !in ids
    ensures |MatchingIds(ids + [last], records, mimeFilter, tags)|
         == |MatchingIds(ids, records, mimeFilter, tags)|
            + (if last in records && Matches(records[last], mimeFilter, tags) then 1 else 0)
  {
    var before := MatchingIds(ids, records, mimeFilter, tags);
    var after := MatchingIds(ids + [last], records, mimeFilter, tags);
    assert forall id :: id in ids + [last] <==> id in ids || id == last;
    if last in records && Matches(records[last], mimeFilter, tags) {
      assert after == before + {last};
    } else {
      assert after == before;
    }
  }

  /**
    Over identifiers without repeats, the filtered enumeration holds one record
    for each identifier that is stored and whose record matches.
  */
  lemma {:induction false} FilteredCount(ids: seq<string>, records: map<string, BlobRecord>,
                                         mimeFilter: Option<string>, tags: seq<string>)
    requires Distinct(ids)
    ensures |Filter(Enumerate(ids, records), mimeFilter, tags)| == |MatchingIds(ids, records, mimeFilter, tags)|
  {
    if ids != [] {
      var n := |ids| - 1;
      var init, last := ids[..n], ids[n];
      assert ids == init + [last];
      assert ids[..n + 1] == ids;
      assert last !in init;
      FilteredCount(init, records, mimeFilter, tags);
      ScanStep(ids, n, records, mimeFilter, tags);
      MatchingIdsSnoc(init, last, records, mimeFilter, tags);
    }
  }

  /** A listing's total is the number of stored blobs that pass both filters. */
  lemma ListTotalCountsMatches(cfg: Config, hash: Bytes -> Digest, s: Store, mimeFilter: Option<string>,
                               tags: seq<string>, page: nat, pageSize: nat)
    requires StoreValid(cfg, hash, s) && page >= 1
    ensures ListStep(s, mimeFilter, tags, page, pageSize).total
         == |set id | id in s.records && Matches(s.records[id], mimeFilter, tags)|
  {
    FilteredCount(s.order, s.records, mimeFilter, tags);
    OrderMatchingIds(s, mimeFilter, tags);
  }

  /** When the order lists the records, its matching identifiers are the stored ones that match. */
  lemma OrderMatchingIds(s: Store, mimeFilter: Option<string>, tags: seq<string>)
    requires OrderListsRecords(s)
    ensures MatchingIds(s.order, s.records, mimeFilter, tags)
         == (set id | id in s.records && Matches(s.records[id], mimeFilter, tags))
  {
  }

  /**
    A wildcard MIME filter keeps the stored records whose type part is the
    wildcard's type; a tag filter keeps those that carry every requested tag.
  */
  lemma ListFilters(cfg: Config, hash: Bytes -> Digest, s: Store, t: string, tags: seq<string>, r: BlobRecord)
    requires StoreValid(cfg, hash, s)
    requires forall i :: 0 <= i < |t| ==> t[i] != '/'
    ensures r in Matching(s, Some(t + "/*"), []) <==>
              r in s.records.Values && TypeOf(Lower(r.mimeType)) == Some(Lower(t))
    ensures r in Matching(s, None, tags) <==>
              r in s.records.Values && forall tag :: tag in tags ==> tag in r.tags
  {
    ListMembers(cfg, hash, s, Some(t + "/*"), [], r);
    ListMembers(cfg, hash, s, None, tags, r);
    WildcardMatches(r.mimeType, t);
  }

  /**
    The totals of the two filters: a wildcard filter counts the stored blobs of
    that type, a tag filter those carrying every requested tag.
  */
  lemma ListFilterTotals(cfg: Config, hash: Bytes -> Digest, s: Store, t: string, tags: seq<string>,
                         page: nat, pageSize: nat)
    requires StoreValid(cfg, hash, s) && page >= 1
    requires forall i :: 0 <= i < |t| ==> t[i] != '/'
    ensures ListStep(s, Some(t + "/*"), [], page, pageSize).total
         == |set id | id in s.records && TypeOf(Lower(s.records[id].mimeType)) == Some(Lower(t))|
    ensures ListStep(s, None, tags, page, pageSize).total
         == |set id | id in s.records && HasAllTags(s.records[id], tags)|
  {
    ListTotalCountsMatches(cfg, hash, s, Some(t + "/*"), [], page, pageSize);
    ListTotalCountsMatches(cfg, hash, s, None, tags, page, pageSize);
    WildcardIds(s.records, t);
    TagIds(s.records, tags);
  }

  lemma WildcardIds(records: map<string, BlobRecord>, t: string)
    requires forall i :: 0 <= i < |t| ==> t[i] != '/'
    ensures (set id | id in records && Matches(records[id], Some(t + "/*"), []))
         == (set id | id in records && TypeOf(Lower(records[id].mimeType)) == Some(Lower(t)))
  {
    forall id | id in records
      ensures Matches(records[id], Some(t + "/*"), []) <==> TypeOf(Lower(records[id].mimeType)) == Some(Lower(t))
    {
      WildcardMatches(records[id].mimeType, t);
    }
  }

  lemma TagIds(records: map<string, BlobRecord>, tags: seq<string>)
    ensures (set id | id in records && Matches(records[id], None, tags))
         == (set id | id in records && HasAllTags(records[id], tags))
  {
  }

  /**
    Page `page` of size P over N matching records holds
    min(P, max(0, N - (page - 1) * P)) records, the ones at positions
    (page - 1) * P onwards; the total is N and page and page size are echoed.
  */
  lemma ListPage(s: Store, mimeFilter: Option<string>, tags: seq<string>, page: nat, pageSize: nat)
    requires page >= 1
    ensures var res := ListStep(s, mimeFilter, tags, page, pageSize);
      var all := Matching(s, mimeFilter, tags);
      && res.total == |all|
      && res.page == page && res.pageSize == pageSize
      && |res.blobs| == Min(pageSize, Max(0, |all| - (page - 1) * pageSize))
      && forall j :: 0 <= j < |res.blobs| ==> res.blobs[j] == all[(page - 1) * pageSize + j]
  {
  }

  /** Over 25 stored blobs, pages of 10 hold 10, 10 and 5 records, with total 25 each time. */
  lemma ListTwentyFive(cfg: Config, hash: Bytes -> Digest, s: Store)
    requires StoreValid(cfg, hash, s) && |s.records| == 25
    ensures |ListStep(s, None, [], 1, 10).blobs| == 10 && ListStep(s, None, [], 1, 10).total == 25
    ensures |ListStep(s, None, [], 2, 10).blobs| == 10 && ListStep(s, None, [], 2, 10).total == 25
    ensures |ListStep(s, None, [], 3, 10).blobs| == 5 && ListStep(s, None, [], 3, 10).total == 25
  {
    ListTotalIsStoreSize(cfg, hash, s, 1, 10);
    PaginationOfTwentyFive(Matching(s, None, []));
  }

  /** Tagged `[tag1]`, `[tag1, tag2]` and `[tag2]`, filtering on `tag1` keeps the first two. */
  lemma TagFilterIsConjunctive(a: BlobRecord, b: BlobRecord, c: BlobRecord)
    requires a.tags == ["tag1"] && b.tags == ["tag1", "tag2"] && c.tags == ["tag2"]
    ensures Filter([a, b, c], None, ["tag1"]) == [a, b]
    ensures Filter([a, b, c], None, ["tag1", "tag2"]) == [b]
  {
    var one, both := ["tag1"], ["tag1", "tag2"];
    assert "tag1" != "tag2";
    assert "tag1" in one && "tag1" !in c.tags;
    assert "tag2" in both && "tag2" !in a.tags;
    assert [a, b, c] == [a, b] + [c] && [a, b] == [a] + [b] && [a] == [] + [a];
    FilterSnoc([], a, None, one);
    FilterSnoc([a], b, None, one);
    FilterSnoc([a, b], c, None, one);
    FilterSnoc([], a, None, both);
    FilterSnoc([a], b, None, both);
    FilterSnoc([a, b], c, None, both);
  }
}
