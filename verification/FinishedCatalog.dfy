/** The same selection over an immutable store of finished segments
    (crates/kronika-query/src/finished_dataset.rs). */
module FinishedCatalog {
  import opened Machine
  import opened Journal
  import opened Ordering
  import opened Discovery

  datatype PredecessorSelection = NoPredecessor | Closest | ForLayouts(types: set<nat>)

  /** This component's own test: neither wholly before the start nor wholly after the end. */
  predicate ResourceOverlaps(range: Range, minTs: i64, maxTs: i64) {
    !BeforeStart(range, maxTs) && !AfterEnd(range, minTs)
  }

  /** Where the two overlap tests agree: everywhere except on a range without instants and on a
      segment with inverted bounds, which only this component accepts. */
  lemma {:induction false} OverlapTestsCompared(range: Range, minTs: i64, maxTs: i64)
    ensures Overlaps(range, minTs, maxTs)
       <==> ResourceOverlaps(range, minTs, maxTs) && minTs <= maxTs && HasInstants(range)
  {
  }

  /** A range that denotes nothing, yet selects a segment here and none in the reader. */
  lemma {:induction false} EmptyRangeDisagrees()
    ensures var range := Range(Included(10), Excluded(10));
            ResourceOverlaps(range, 0, 20) && !Overlaps(range, 0, 20)
  {
  }

  // ----- the selection keyed by segment id -----

  /** Ordered-map insertion: replaces an entry with the same id. */
  function Put<Row>(selected: seq<Segment<Row>>, s: Segment<Row>): seq<Segment<Row>> {
    if selected == [] || s.id < selected[0].id then [s] + selected
    else if s.id == selected[0].id then [s] + selected[1..]
    else [selected[0]] + Put(selected[1..], s)
  }

  function PutIfAbsent<Row>(selected: seq<Segment<Row>>, s: Segment<Row>): seq<Segment<Row>> {
    if HasId(selected, s.id) then selected else Put(selected, s)
  }

  lemma {:induction false} PutMember<Row>(selected: seq<Segment<Row>>, s: Segment<Row>, o: Segment<Row>)
    requires forall x :: x in selected && x.id == s.id ==> x == s
    ensures o in Put(selected, s) <==> o in selected || o == s
  {
    if selected == [] {
    } else {
      assert selected == [selected[0]] + selected[1..];
      if s.id == selected[0].id {
        assert selected[0] in selected;
      } else if s.id > selected[0].id {
        PutMember(selected[1..], s, o);
      }
    }
  }

  lemma {:induction false} PutAdds<Row>(selected: seq<Segment<Row>>, s: Segment<Row>)
    requires StrictlySorted(selected, ById)
    requires forall o :: o in selected && o.id == s.id ==> o == s
    ensures StrictlySorted(Put(selected, s), ById)
    ensures forall o :: o in Put(selected, s) <==> o in selected || o == s
  {
    forall o
      ensures o in Put(selected, s) <==> o in selected || o == s
    {
      PutMember(selected, s, o);
    }
    if selected == [] {
    } else {
      assert selected == [selected[0]] + selected[1..];
      forall k | 0 < k < |selected|
        ensures selected[0].id < selected[k].id
      {
        assert Less(ById(selected[0]), ById(selected[k]));
      }
      if s.id > selected[0].id {
        var rest := selected[1..];
        PutAdds(rest, s);
        var put := Put(rest, s);
        forall k | 0 <= k < |put|
          ensures put[k].id > selected[0].id
        {
          PutMember(rest, s, put[k]);
        }
      }
    }
  }

  // ----- what a selection must contain -----

  ghost predicate ResourceInRange<Row>(all: seq<Segment<Row>>, range: Range, s: Segment<Row>) {
    s in all && ResourceOverlaps(range, s.minTs, s.maxTs)
  }

  ghost predicate Chosen<Row>(all: seq<Segment<Row>>, range: Range, wanted: PredecessorSelection, s: Segment<Row>) {
    match wanted
    case NoPredecessor => false
    case Closest => IsClosest(all, range, s)
    case ForLayouts(types) => SomePredecessor(all, range, types, s)
  }

  method ClosestPredecessor<Row>(resources: seq<Unit<Row>>, range: Range) returns (best: Option<Segment<Row>>)
    requires DistinctKeys(SegmentsOf(resources), ById)
    ensures forall s :: best == Some(s) <==> IsClosest(SegmentsOf(resources), range, s)
  {
    best := LatestBefore(SegmentsOf(resources), range);
  }

  method Segments<Row>(resources: seq<Unit<Row>>, range: Range, wanted: PredecessorSelection, bits: nat -> set<nat>)
    returns (segments: seq<Segment<Row>>)
    requires ValidUnits(resources, bits)
    requires DistinctIds(resources)
    ensures StrictlySorted(segments, ById)
    ensures forall s :: s in segments <==> ResourceInRange(SegmentsOf(resources), range, s)
                                           || Chosen(SegmentsOf(resources), range, wanted, s)
  {
    segments := [];
    ghost var all := SegmentsOf(resources);
    DistinctSegments(resources);
    for i := 0 to |resources|
      invariant StrictlySorted(segments, ById)
      invariant forall s :: s in segments <==> ResourceInRange(all[..i], range, s)
    {
      var s := resources[i].segment;
      assert all[..i + 1] == all[..i] + [s];
      if ResourceOverlaps(range, s.minTs, s.maxTs) {
        SubsetOfUnique(all, segments, s);
        PutAdds(segments, s);
        segments := Put(segments, s);
      }
    }
    assert all[..|resources|] == all;
    match wanted {
      case NoPredecessor =>
      case Closest =>
        var best := ClosestPredecessor(resources, range);
        if best.Some? {
          SubsetOfUnique(all, segments, best.value);
          EarlierIsNew(segments, range, best.value);
          PutAdds(segments, best.value);
          segments := PutIfAbsent(segments, best.value);
        }
      case ForLayouts(types) =>
        segments := AddLayoutPredecessors(resources, segments, range, types, bits);
    }
  }

  lemma {:induction false} DistinctSegments<Row>(resources: seq<Unit<Row>>)
    requires DistinctIds(resources)
    ensures DistinctKeys(SegmentsOf(resources), ById)
  {
  }

  lemma {:induction false} EarlierIsNew<Row>(segments: seq<Segment<Row>>, range: Range, s: Segment<Row>)
    requires forall o :: o in segments ==> ResourceOverlaps(range, o.minTs, o.maxTs)
    requires BeforeStart(range, s.maxTs) && forall o :: o in segments && o.id == s.id ==> o == s
    ensures !HasId(segments, s.id)
  {
    forall i | 0 <= i < |segments|
      ensures segments[i].id != s.id
    {
      assert segments[i] in segments;
    }
  }

  lemma {:induction false} SubsetOfUnique<Row>(all: seq<Segment<Row>>, selected: seq<Segment<Row>>, s: Segment<Row>)
    requires DistinctKeys(all, ById) && s in all && forall o :: o in selected ==> o in all
    ensures forall o :: o in selected && o.id == s.id ==> o == s
  {
    forall o | o in selected && o.id == s.id
      ensures o == s
    {
      SameIdSameSegment(all, o, s);
    }
  }

  /** Here the loop stops at the top, before the first candidate nobody asks for. */
  method AddLayoutPredecessors<Row>(resources: seq<Unit<Row>>, inRange: seq<Segment<Row>>, range: Range,
                                    types: set<nat>, bits: nat -> set<nat>)
    returns (segments: seq<Segment<Row>>)
    requires ValidUnits(resources, bits)
    requires DistinctKeys(SegmentsOf(resources), ById) && StrictlySorted(inRange, ById)
    requires forall s :: s in inRange <==> ResourceInRange(SegmentsOf(resources), range, s)
    ensures StrictlySorted(segments, ById)
    ensures forall s :: s in segments <==> ResourceInRange(SegmentsOf(resources), range, s)
                                           || SomePredecessor(SegmentsOf(resources), range, types, s)
  {
    hide SegmentsOf, Listed, Unanswered, Holds, ById, Less, NewestFirst, BeforeStart, Put, Tried, SomePredecessor;
    segments := inRange;
    var remaining := types;
    ghost var all, base := SegmentsOf(resources), inRange;
    assert all + Optional(None) == all;
    var cands := EarlierCandidates(resources, None, range, bits);
    var i := 0;
    ListedAtFirst(base, cands, types);
    while i < |cands| && remaining != {}
      invariant i <= |cands| && Unanswered(cands, types, i, remaining)
      invariant StrictlySorted(segments, ById)
      invariant Listed(segments, base, cands, types, i)
    {
      var c := cands[i];
      var matched := {};
      if c.bloom.None? || MayContainAny(c.bloom.value, remaining, bits) {
        matched := MatchedTypes(c.segment, remaining);
      } else {
        SkippedHoldsNothing(c, remaining, bits);
      }
      ghost var before := segments;
      if matched != {} {
        ListedAreStored(segments, base, all, range, cands, types, i);
        SubsetOfUnique(all, segments, c.segment);
        PutAdds(segments, c.segment);
        segments := Put(segments, c.segment);
      }
      ListedNext(before, base, cands, types, i, remaining, matched, segments);
      remaining := remaining - matched;
      i := i + 1;
    }
    ListedAtLast(segments, base, all, range, cands, types, i, remaining);
    ReadAsResources(segments, base, all, range, types);
  }

  lemma {:induction false} ReadAsResources<Row>(segments: seq<Segment<Row>>, base: seq<Segment<Row>>,
                                        all: seq<Segment<Row>>,
                             range: Range, types: set<nat>)
    requires forall s :: s in base <==> ResourceInRange(all, range, s)
    requires forall s :: s in segments <==> s in base || SomePredecessor(all, range, types, s)
    ensures forall s :: s in segments <==> ResourceInRange(all, range, s) || SomePredecessor(all, range, types, s)
  {
    hide ResourceInRange, SomePredecessor;
    forall s
      ensures s in segments <==> ResourceInRange(all, range, s) || SomePredecessor(all, range, types, s)
    {
      assert s in base <==> ResourceInRange(all, range, s);
    }
  }

  lemma {:induction false} ListedAreStored<Row>(segments: seq<Segment<Row>>, base: seq<Segment<Row>>,
                                        all: seq<Segment<Row>>, range: Range,
                             cands: seq<Candidate<Row>>, types: set<nat>, i: nat)
    requires Tried(cands, all, range) && Listed(segments, base, cands, types, i)
    requires forall s :: s in base ==> ResourceInRange(all, range, s)
    ensures forall s :: s in segments ==> s in all
    ensures forall j :: 0 <= j < |cands| ==> cands[j].segment in all
  {
    hide ResourceOverlaps, BeforeStart, Holds;
  }

  // ----- the two selections compared -----

  /** What the reader's listing for the same selection contains. */
  ghost predicate ReaderSelects<Row>(scan: Scan<Row>, range: Range, wanted: PredecessorSelection, s: Segment<Row>) {
    match wanted
    case NoPredecessor => Lists(scan, range, Catalog, s)
    case Closest => Lists(scan, range, CatalogWithPredecessor, s)
    case ForLayouts(types) => Selected(Canonical(scan), range, types, s)
  }

  /** On a store of finished segments the reader and this component list the same segments, whichever
      predecessors are wanted, exactly when every segment accepted here has ordered bounds and the
      range denotes an instant. */
  lemma {:induction false} SelectionsAgree<Row>(finished: seq<Unit<Row>>, range: Range, wanted: PredecessorSelection,
                                                reader: seq<Segment<Row>>, catalog: seq<Segment<Row>>)
    requires StrictlySorted(reader, ById) && StrictlySorted(catalog, ById)
    requires forall s :: s in reader <==> ReaderSelects(Scan(finished, []), range, wanted, s)
    requires forall s :: s in catalog <==> ResourceInRange(SegmentsOf(finished), range, s)
                                           || Chosen(SegmentsOf(finished), range, wanted, s)
    ensures reader == catalog
       <==> forall s :: s in SegmentsOf(finished) && ResourceOverlaps(range, s.minTs, s.maxTs)
                        ==> s.minTs <= s.maxTs && HasInstants(range)
  {
    var all := SegmentsOf(finished);
    forall s
      ensures s in reader <==> InRange(all, range, s) || Chosen(all, range, wanted, s)
      ensures InRange(all, range, s)
         <==> ResourceInRange(all, range, s) && s.minTs <= s.maxTs && HasInstants(range)
      ensures ResourceInRange(all, range, s) ==> !Chosen(all, range, wanted, s)
    {
      FinishedOnly(finished, range, wanted, s);
      OverlapTestsCompared(range, s.minTs, s.maxTs);
      ChosenIsEarlier(all, range, wanted, s);
    }
    if forall s :: s in all && ResourceOverlaps(range, s.minTs, s.maxTs) ==> s.minTs <= s.maxTs && HasInstants(range) {
      forall s
        ensures s in reader <==> s in catalog
      {
        assert ResourceInRange(all, range, s) <==> InRange(all, range, s);
      }
      StrictIsUnique(reader, catalog, ById);
    } else {
      var s :| s in all && ResourceOverlaps(range, s.minTs, s.maxTs) && !(s.minTs <= s.maxTs && HasInstants(range));
      assert s in catalog;
      assert s !in reader;
    }
  }

  lemma {:induction false} FinishedOnly<Row>(finished: seq<Unit<Row>>, range: Range, wanted: PredecessorSelection,
                                             s: Segment<Row>)
    ensures var all := SegmentsOf(finished);
            ReaderSelects(Scan(finished, []), range, wanted, s)
            <==> InRange(all, range, s) || Chosen(all, range, wanted, s)
  {
    assert Canonical(Scan(finished, [])) == SegmentsOf(finished);
  }

  /** A wanted predecessor ends before the range, so it is not also in it. */
  lemma {:induction false} ChosenIsEarlier<Row>(all: seq<Segment<Row>>, range: Range, wanted: PredecessorSelection,
                                                s: Segment<Row>)
    ensures Chosen(all, range, wanted, s) ==> !ResourceInRange(all, range, s)
  {
  }
}
