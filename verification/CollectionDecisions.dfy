/** Which records a collection holds, in what order, and which of them a query finds, field by field. */
module CollectionDecisions {
  import opened Words
  import opened Wrappers
  import opened Sorting
  import opened Collection
  import opened CollectionTheorems

  // ----- what a collection holds

  /** `ref` is entry `i` of the archive's index. */
  predicate IsEntry(ref: Ref, archive: Archive, i: nat) {
    i < |archive.index|
    && var e := archive.index[i];
       ref == Ref(archive.path, archive.ordinal, e.offset, e.time, e.payload, e.device, e.sequence)
  }

  ghost predicate Indexes(archive: Archive, ref: Ref) {
    exists i: nat :: IsEntry(ref, archive, i)
  }

  lemma RefsIndexed(archive: Archive, ref: Ref)
    ensures ref in RefsOf(archive, |archive.index|) <==> Indexes(archive, ref)
  {
    var refs := RefsOf(archive, |archive.index|);
    if Indexes(archive, ref) {
      var i: nat :| IsEntry(ref, archive, i);
      assert refs[i] == ref;
    }
    if ref in refs {
      var i :| 0 <= i < |refs| && refs[i] == ref;
      assert IsEntry(ref, archive, i);
    }
  }

  lemma {:induction false} AllRefsIndexed(archives: seq<Archive>, ref: Ref)
    ensures ref in AllRefs(archives) <==> exists k :: 0 <= k < |archives| && Indexes(archives[k], ref)
    decreases |archives|
  {
    if |archives| > 0 {
      var n := |archives| - 1;
      AllRefsIndexed(archives[..n], ref);
      RefsIndexed(archives[n], ref);
      assert forall k | 0 <= k < n :: archives[..n][k] == archives[k];
    }
  }

  /** A record is in the built collection if and only if some archive indexes it, field by field. */
  lemma HeldExactly(archives: seq<Archive>, ref: Ref)
    ensures ref in Built(archives).records <==> exists k :: 0 <= k < |archives| && Indexes(archives[k], ref)
  {
    AllRefsIndexed(archives, ref);
    GatheredIndexed(archives);
    SortPermutes(Gathered(archives).records, ByTime);
    assert ref in Built(archives).records <==> ref in multiset(Built(archives).records);
    assert ref in AllRefs(archives) <==> ref in multiset(AllRefs(archives));
  }

  /** By time, then by archive, then by offset. */
  predicate ComesFirst(a: Ref, b: Ref) {
    || a.time < b.time
    || (a.time == b.time && (a.ordinal < b.ordinal || (a.ordinal == b.ordinal && a.offset <= b.offset)))
  }

  lemma InOrderExactly(archives: seq<Archive>, i: nat, j: nat)
    requires i < j < |Built(archives).records|
    ensures ComesFirst(Built(archives).records[i], Built(archives).records[j])
  {
    BuiltIsIndexed(archives);
    assert !Less(ByTime(Built(archives).records[j]), ByTime(Built(archives).records[i]));
  }

  // ----- what a query finds

  predicate InTime(ref: Ref, query: Query) {
    (query.start.Some? ==> query.start.value <= ref.time) && (query.end.Some? ==> ref.time <= query.end.value)
  }

  predicate OfTheDevice(ref: Ref, query: Query) {
    query.device.Some? ==> ref.device == query.device.value
  }

  predicate InSize(ref: Ref, query: Query) {
    && (query.minPayload.Some? ==> query.minPayload.value <= ref.payload)
    && (query.maxPayload.Some? ==> ref.payload <= query.maxPayload.value)
  }

  /** A record matches when it is within every bound that the query sets, and is otherwise counted against the
      first of time, device and payload that it misses. */
  lemma JudgedExactly(ref: Ref, query: Query)
    ensures var v := Judged(ref, query);
      && (v == SkippedByTime <==> !InTime(ref, query))
      && (v == SkippedByDevice <==> InTime(ref, query) && !OfTheDevice(ref, query))
      && (v == SkippedByPayload <==> InTime(ref, query) && OfTheDevice(ref, query) && !InSize(ref, query))
      && (v == Matches <==> InTime(ref, query) && OfTheDevice(ref, query) && InSize(ref, query))
  {
  }

  /** The search finds, in order, exactly the records that match and are of the queried kind: all of them, or as
      many as the limit allows. */
  lemma FoundExactly(archives: seq<Archive>, query: Query, kinds: Kinds, ref: Ref)
    ensures var c, p := Built(archives), SelectsKind(query, kinds);
      var all, found := Filter(c.records, p), Limited(Filter(Source(c, query), p), query.limit);
      && (ref in all <==> && ref in c.records && InTime(ref, query) && OfTheDevice(ref, query) && InSize(ref, query)
                          && (query.kind.Some? ==> kinds(ref) == query.kind))
      && |found| == (if query.limit == 0 then |all| else Min(query.limit, |all|))
      && found == all[..|found|]
  {
    var c, p := Built(archives), SelectsKind(query, kinds);
    IndexFindsWhatAScanFinds(archives, query, kinds);
    FilterMember(c.records, p, ref);
    JudgedExactly(ref, query);
  }
}
