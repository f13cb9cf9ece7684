/** Finding the segments a query needs: those overlapping its time range and, per requested
    layout, the closest earlier segment that holds rows of it
    (crates/kronika-reader/src/discovery.rs, crates/kronika-store/src/catalog_summary.rs). */
module Discovery {
  import opened Machine
  import opened Journal
  import opened Ordering

  datatype Bound = Unbounded | Included(at: i64) | Excluded(at: i64)
  datatype Range = Range(start: Bound, end: Bound)

  // ----- time ranges -----

  /** The first whole microsecond the start bound admits, unless there is none. */
  function FirstInstant(start: Bound): Option<i64> {
    match start
    case Unbounded => Some(I64_MIN)
    case Included(at) => Some(at)
    case Excluded(at) => if at == I64_MAX then None else Some(at + 1)
  }

  function LastInstant(end: Bound): Option<i64> {
    match end
    case Unbounded => Some(I64_MAX)
    case Included(at) => Some(at)
    case Excluded(at) => if at == I64_MIN then None else Some(at - 1)
  }

  function Later(a: i64, b: i64): i64 { if a < b then b else a }

  function Sooner(a: i64, b: i64): i64 { if b < a then b else a }

  /** The reader's test: both bounds become inclusive before comparing. */
  predicate Overlaps(range: Range, minTs: i64, maxTs: i64) {
    var start, end := FirstInstant(range.start), LastInstant(range.end);
    start.Some? && end.Some? && Later(minTs, start.value) <= Sooner(maxTs, end.value)
  }

  predicate BeforeStart(range: Range, maxTs: i64) {
    match range.start
    case Unbounded => false
    case Included(at) => maxTs < at
    case Excluded(at) => maxTs <= at
  }

  predicate AfterEnd(range: Range, minTs: i64) {
    match range.end
    case Unbounded => false
    case Included(at) => minTs > at
    case Excluded(at) => minTs >= at
  }

  /** The instants a range denotes, said without closing its ends. */
  predicate Contains(range: Range, t: i64) {
    && (match range.start case Unbounded => true case Included(at) => at <= t case Excluded(at) => at < t)
    && (match range.end case Unbounded => true case Included(at) => t <= at case Excluded(at) => t < at)
  }

  /** A segment ends before a range when the range's start admits none of its instants. */
  lemma {:induction false} EndsBefore(range: Range, maxTs: i64)
    ensures BeforeStart(range, maxTs) <==> forall t: i64 :: t <= maxTs ==> !Contains(Range(range.start, Unbounded), t)
    ensures BeforeStart(range, maxTs) ==> forall t: i64 :: Contains(range, t) ==> maxTs < t
  {
    assert !BeforeStart(range, maxTs) ==> Contains(Range(range.start, Unbounded), maxTs);
  }

  predicate HasInstants(range: Range) {
    Overlaps(range, I64_MIN, I64_MAX)
  }

  /** A segment overlaps exactly when one of its instants lies in the range. */
  lemma {:induction false} OverlapsIsASharedInstant(range: Range, minTs: i64, maxTs: i64)
    ensures Overlaps(range, minTs, maxTs)
       <==> exists t: i64 :: minTs <= t <= maxTs && Contains(range, t)
  {
    if Overlaps(range, minTs, maxTs) {
      var t := Later(minTs, FirstInstant(range.start).value);
      assert minTs <= t <= maxTs && Contains(range, t);
    }
  }

  // ----- segments and their summaries -----

  /** A listed segment: a finished file is one part, the active one is the journal's parts. */
  datatype Segment<+Row> = Segment(id: int, minTs: i64, maxTs: i64, parts: seq<Part<Row>>)

  /** A finished segment with the filter kept in its summary. */
  datatype Unit<+Row> = Unit(segment: Segment<Row>, bloom: set<nat>)

  datatype ActivePart<+Row> = ActivePart(segmentId: int, minTs: i64, maxTs: i64, part: Part<Row>)

  /** One captured directory scan. */
  datatype Scan<+Row> = Scan(finished: seq<Unit<Row>>, active: seq<ActivePart<Row>>)

  predicate Holds<Row>(s: Segment<Row>, typeId: nat) {
    |Rows(s.parts, typeId)| > 0
  }

  function BitsOf<Row>(entries: seq<Entry<Row>>, bits: nat -> set<nat>): set<nat> {
    if entries == [] then {}
    else BitsOf(entries[..|entries| - 1], bits)
         + if |entries[|entries| - 1].rows| != 0 then bits(entries[|entries| - 1].typeId) else {}
  }

  /** The summary's filter over the types that carry rows; `bits` is the hash. */
  method NonemptyTypeBloom<Row>(entries: seq<Entry<Row>>, bits: nat -> set<nat>) returns (bloom: set<nat>)
    ensures bloom == BitsOf(entries, bits)
  {
    bloom := {};
    for i := 0 to |entries|
      invariant bloom == BitsOf(entries[..i], bits)
    {
      assert entries[..i + 1][..i] == entries[..i];
      if |entries[i].rows| != 0 {
        bloom := bloom + bits(entries[i].typeId);
      }
    }
    assert entries[..|entries|] == entries;
  }

  /** A bit is set exactly by a type that carries rows. */
  lemma {:induction false} BloomIsUnion<Row>(entries: seq<Entry<Row>>, bits: nat -> set<nat>, b: nat)
    ensures b in BitsOf(entries, bits)
       <==> exists i :: 0 <= i < |entries| && |entries[i].rows| != 0 && b in bits(entries[i].typeId)
  {
    if entries == [] {
    } else {
      var n := |entries| - 1;
      BloomIsUnion(entries[..n], bits, b);
      assert forall i :: 0 <= i < n ==> entries[..n][i] == entries[i];
    }
  }

  predicate MayContainAny(bloom: set<nat>, types: set<nat>, bits: nat -> set<nat>) {
    exists t :: t in types && bits(t) <= bloom
  }

  ghost predicate ValidUnit<Row>(u: Unit<Row>, bits: nat -> set<nat>) {
    && |u.segment.parts| == 1
    && ValidParts(u.segment.parts)
    && u.bloom == BitsOf(u.segment.parts[0].entries, bits)
  }

  ghost predicate ValidUnits<Row>(units: seq<Unit<Row>>, bits: nat -> set<nat>) {
    forall i :: 0 <= i < |units| ==> ValidUnit(units[i], bits)
  }

  function PartsOf<Row>(active: seq<ActivePart<Row>>): (parts: seq<Part<Row>>)
    ensures |parts| == |active|
    ensures forall i :: 0 <= i < |parts| ==> parts[i] == active[i].part
  {
    if active == [] then [] else PartsOf(active[..|active| - 1]) + [active[|active| - 1].part]
  }

  ghost predicate DistinctIds<Row>(finished: seq<Unit<Row>>) {
    forall i, j :: 0 <= i < j < |finished| ==> finished[i].segment.id != finished[j].segment.id
  }

  ghost predicate ValidScan<Row>(scan: Scan<Row>, bits: nat -> set<nat>) {
    && ValidUnits(scan.finished, bits)
    && DistinctIds(scan.finished)
    && ValidParts(PartsOf(scan.active))
  }

  lemma {:induction false} FoundBits<Row>(entries: seq<Entry<Row>>, bits: nat -> set<nat>, typeId: nat)
    requires UniqueTypes(entries) && Find(entries, typeId).Some? && |Find(entries, typeId).value| > 0
    ensures bits(typeId) <= BitsOf(entries, bits)
  {
    var n := |entries| - 1;
    assert entries[..n] + [entries[n]] == entries;
    FindAppend(entries[..n], entries[n], typeId);
    if Find(entries[..n], typeId).Some? {
      FoundBits(entries[..n], bits, typeId);
    }
  }

  /** The filter never hides a segment that carries rows of a requested type. */
  lemma {:induction false} FilterNeverHides<Row>(u: Unit<Row>, types: set<nat>, bits: nat -> set<nat>, typeId: nat)
    requires ValidUnit(u, bits) && typeId in types && Holds(u.segment, typeId)
    ensures MayContainAny(u.bloom, types, bits)
  {
    var parts := u.segment.parts;
    assert Rows(parts, typeId) == Rows(parts[..0], typeId) + PartRows(parts[0], typeId);
    FoundBits(parts[0].entries, bits, typeId);
  }

  // ----- the active segment -----

  function LeastMin<Row>(active: seq<ActivePart<Row>>): i64 {
    if active == [] then I64_MAX else Sooner(LeastMin(active[..|active| - 1]), active[|active| - 1].minTs)
  }

  function GreatestMax<Row>(active: seq<ActivePart<Row>>): i64 {
    if active == [] then I64_MIN else Later(GreatestMax(active[..|active| - 1]), active[|active| - 1].maxTs)
  }

  /** `lo` and `hi` enclose every part, and each of them is the bound of some part. */
  ghost predicate Enclose<Row>(active: seq<ActivePart<Row>>, lo: i64, hi: i64) {
    && (forall i :: 0 <= i < |active| ==> lo <= active[i].minTs && active[i].maxTs <= hi)
    && (exists i :: 0 <= i < |active| && active[i].minTs == lo)
    && (exists i :: 0 <= i < |active| && active[i].maxTs == hi)
  }

  lemma {:induction false} FoldsEnclose<Row>(active: seq<ActivePart<Row>>)
    requires active != []
    ensures Enclose(active, LeastMin(active), GreatestMax(active))
  {
    var n := |active| - 1;
    if n == 0 {
      assert active[..0] == [] && LeastMin(active) == active[0].minTs && GreatestMax(active) == active[0].maxTs;
    } else {
      var init := active[..n];
      FoldsEnclose(init);
      var i :| 0 <= i < n && init[i].minTs == LeastMin(init);
      var j :| 0 <= j < n && init[j].maxTs == GreatestMax(init);
      assert active[i].minTs == LeastMin(init) && active[j].maxTs == GreatestMax(init);
      assert active[if active[n].minTs < LeastMin(init) then n else i].minTs == LeastMin(active);
      assert active[if GreatestMax(init) < active[n].maxTs then n else j].maxTs == GreatestMax(active);
      assert forall k :: 0 <= k < n ==> active[k] == init[k];
    }
  }

  /** The epoch stands for an inverted pair. */
  function Upright(lo: i64, hi: i64): (i64, i64) { if lo > hi then (0, 0) else (lo, hi) }

  /** The tightest bounds around all parts, or the epoch when every part lies the wrong way round. */
  method ActiveBounds<Row>(active: seq<ActivePart<Row>>) returns (bounds: Option<(i64, i64)>)
    ensures bounds.None? <==> active == []
    ensures bounds.Some? ==>
              exists lo, hi :: Enclose(active, lo, hi) && bounds.value == if lo > hi then (0, 0) else (lo, hi)
    ensures (exists k :: 0 <= k < |active| && active[k].minTs <= active[k].maxTs)
            ==> Enclose(active, bounds.value.0, bounds.value.1)
    ensures bounds == BoundsOf(active)
  {
    if active == [] {
      return None;
    }
    var minTs: i64, maxTs: i64 := I64_MAX, I64_MIN;
    for i := 0 to |active|
      invariant minTs == LeastMin(active[..i]) && maxTs == GreatestMax(active[..i])
    {
      assert active[..i + 1][..i] == active[..i];
      minTs, maxTs := Sooner(minTs, active[i].minTs), Later(maxTs, active[i].maxTs);
    }
    assert active[..|active|] == active;
    FoldsEnclose(active);
    if minTs > maxTs {
      return Some((0, 0));
    }
    return Some((minTs, maxTs));
  }

  function BoundsOf<Row>(active: seq<ActivePart<Row>>): Option<(i64, i64)> {
    if active == [] then None else Some(Upright(LeastMin(active), GreatestMax(active)))
  }

  predicate HasFinished<Row>(finished: seq<Unit<Row>>, id: int) {
    exists i :: 0 <= i < |finished| && finished[i].segment.id == id
  }

  /** The active segment counts only while no finished file carries its id. */
  function CanonicalActive<Row>(scan: Scan<Row>): Option<Segment<Row>> {
    if scan.active != [] && HasFinished(scan.finished, scan.active[0].segmentId) then None else ActiveSegment(scan)
  }

  function ActiveSegment<Row>(scan: Scan<Row>): Option<Segment<Row>> {
    var bounds := BoundsOf(scan.active);
    if bounds.None? then None
    else Some(Segment(scan.active[0].segmentId, bounds.value.0, bounds.value.1, PartsOf(scan.active)))
  }

  /** The active segment has the id and the rows of its parts and, unless every part lies the wrong
      way round, their tightest bounds. */
  lemma {:induction false} ActiveSegmentSpans<Row>(scan: Scan<Row>)
    requires scan.active != []
    ensures ActiveSegment(scan).Some?
    ensures var s := ActiveSegment(scan).value;
            && s.id == scan.active[0].segmentId
            && |s.parts| == |scan.active| && (forall i :: 0 <= i < |s.parts| ==> s.parts[i] == scan.active[i].part)
            && ((exists k :: 0 <= k < |scan.active| && scan.active[k].minTs <= scan.active[k].maxTs)
                ==> Enclose(scan.active, s.minTs, s.maxTs))
  {
    FoldsEnclose(scan.active);
  }

  /** `regardless` looks at the active segment even when a finished file has its id. */
  method FindActive<Row>(scan: Scan<Row>, regardless: bool) returns (active: Option<Segment<Row>>)
    ensures active == if regardless then ActiveSegment(scan) else CanonicalActive(scan)
  {
    var bounds := ActiveBounds(scan.active);
    if bounds.None? || (!regardless && HasFinished(scan.finished, scan.active[0].segmentId)) {
      return None;
    }
    return Some(Segment(scan.active[0].segmentId, bounds.value.0, bounds.value.1, PartsOf(scan.active)));
  }

  function SegmentsOf<Row>(units: seq<Unit<Row>>): (r: seq<Segment<Row>>)
    ensures |r| == |units|
    ensures forall i :: 0 <= i < |r| ==> r[i] == units[i].segment
  {
    if units == [] then [] else SegmentsOf(units[..|units| - 1]) + [units[|units| - 1].segment]
  }

  /** Every segment the store holds, each id once. */
  function Canonical<Row>(scan: Scan<Row>): seq<Segment<Row>> {
    SegmentsOf(scan.finished) + if CanonicalActive(scan).Some? then [CanonicalActive(scan).value] else []
  }

  function ById<Row>(s: Segment<Row>): Key { Key(s.id, 0, 0) }

  lemma {:induction false} CanonicalIdsAreUnique<Row>(scan: Scan<Row>)
    requires DistinctIds(scan.finished)
    ensures DistinctKeys(Canonical(scan), ById)
  {
    var all := Canonical(scan);
    forall i, j | 0 <= i < j < |all|
      ensures ById(all[i]) != ById(all[j])
    {
      if j == |scan.finished| { assert scan.finished[i].segment.id != scan.active[0].segmentId; }
    }
  }

  // ----- what a listing of `all` segments must contain -----

  predicate NotNewer<Row>(a: Segment<Row>, b: Segment<Row>) {
    a.maxTs < b.maxTs || (a.maxTs == b.maxTs && a.id <= b.id)
  }

  predicate EarlierHolder<Row>(range: Range, typeId: nat, s: Segment<Row>) {
    BeforeStart(range, s.maxTs) && Holds(s, typeId)
  }

  /** The latest segment, by end and then by id, that ends before the range with rows of a type. */
  ghost predicate Predecessor<Row>(all: seq<Segment<Row>>, range: Range, typeId: nat, s: Segment<Row>) {
    && s in all && EarlierHolder(range, typeId, s)
    && forall o :: o in all && EarlierHolder(range, typeId, o) ==> NotNewer(o, s)
  }

  /** Said over the rows: it ends before the range with rows of the type, and every other segment that
      does ends earlier or, at the same instant, has a smaller id. */
  lemma {:induction false} PredecessorIsLatest<Row>(all: seq<Segment<Row>>, range: Range, typeId: nat, s: Segment<Row>)
    ensures Predecessor(all, range, typeId, s)
       <==> && s in all && BeforeStart(range, s.maxTs) && Rows(s.parts, typeId) != []
            && forall o :: o in all && BeforeStart(range, o.maxTs) && Rows(o.parts, typeId) != [] ==>
                 o.maxTs < s.maxTs || (o.maxTs == s.maxTs && o.id <= s.id)
  {
    if Predecessor(all, range, typeId, s) {
      forall o | o in all && BeforeStart(range, o.maxTs) && Rows(o.parts, typeId) != []
        ensures o.maxTs < s.maxTs || (o.maxTs == s.maxTs && o.id <= s.id)
      {
        assert EarlierHolder(range, typeId, o);
      }
    }
  }

  ghost predicate SomePredecessor<Row>(all: seq<Segment<Row>>, range: Range, types: set<nat>, s: Segment<Row>) {
    exists t :: t in types && Predecessor(all, range, t, s)
  }

  ghost predicate InRange<Row>(all: seq<Segment<Row>>, range: Range, s: Segment<Row>) {
    s in all && Overlaps(range, s.minTs, s.maxTs)
  }

  // ----- the listing -----

  lemma {:induction false} CollectOne<Row>(segments: seq<Segment<Row>>, s: Segment<Row>)
    requires DistinctKeys(segments, ById) && forall k :: 0 <= k < |segments| ==> segments[k].id != s.id
    ensures DistinctKeys(segments + [s], ById)
    ensures forall o :: o in segments + [s] <==> o in segments || o == s
  {
  }

  /** The latest segment, by end and then by id, that ends before the range. */
  ghost predicate IsClosest<Row>(all: seq<Segment<Row>>, range: Range, s: Segment<Row>) {
    && s in all && BeforeStart(range, s.maxTs)
    && forall o :: o in all && BeforeStart(range, o.maxTs) ==> NotNewer(o, s)
  }

  /** Said over the bounds: every other segment that ends before the range ends earlier or, at the same
      instant, has a smaller id. */
  lemma {:induction false} ClosestIsLatest<Row>(all: seq<Segment<Row>>, range: Range, s: Segment<Row>)
    ensures IsClosest(all, range, s)
       <==> && s in all && BeforeStart(range, s.maxTs)
            && forall o :: o in all && BeforeStart(range, o.maxTs) ==>
                 o.maxTs < s.maxTs || (o.maxTs == s.maxTs && o.id <= s.id)
  {
  }

  method LatestBefore<Row>(all: seq<Segment<Row>>, range: Range) returns (best: Option<Segment<Row>>)
    requires DistinctKeys(all, ById)
    ensures forall s :: best == Some(s) <==> IsClosest(all, range, s)
  {
    best := None;
    for i := 0 to |all|
      invariant best.Some? ==> IsClosest(all[..i], range, best.value)
      invariant best.None? ==> forall s :: s in all[..i] ==> !BeforeStart(range, s.maxTs)
    {
      var s := all[i];
      assert all[..i + 1] == all[..i] + [s];
      if BeforeStart(range, s.maxTs) && (best.None? || NotNewer(best.value, s)) {
        best := Some(s);
      }
    }
    assert all[..|all|] == all;
    OnlyOneClosest(all, range, best);
  }

  lemma {:induction false} OnlyOneClosest<Row>(all: seq<Segment<Row>>, range: Range, best: Option<Segment<Row>>)
    requires DistinctKeys(all, ById)
    requires best.Some? ==> IsClosest(all, range, best.value)
    requires best.None? ==> forall s :: s in all ==> !BeforeStart(range, s.maxTs)
    ensures forall s :: best == Some(s) <==> IsClosest(all, range, s)
  {
    forall s
      ensures best == Some(s) <==> IsClosest(all, range, s)
    {
      if IsClosest(all, range, s) && best.Some? {
        assert NotNewer(best.value, s) && NotNewer(s, best.value);
        SameIdSameSegment(all, s, best.value);
      }
    }
  }

  /** `usable` tells, by id, which finished files pass validation. */
  datatype Mode = Catalog | CatalogWithPredecessor | Validated(usable: int -> bool)

  ghost predicate UsableInRange<Row>(finished: seq<Segment<Row>>, range: Range, usable: int -> bool, s: Segment<Row>) {
    InRange(finished, range, s) && usable(s.id)
  }

  /** What a listing contains: the segments in the range, with the closest one before it if asked
      for; with validation, the usable files and the active segment unless one of them has its id. */
  ghost predicate Lists<Row>(scan: Scan<Row>, range: Range, mode: Mode, s: Segment<Row>) {
    match mode
    case Catalog => InRange(Canonical(scan), range, s)
    case CatalogWithPredecessor => InRange(Canonical(scan), range, s) || IsClosest(Canonical(scan), range, s)
    case Validated(usable) =>
      var finished := SegmentsOf(scan.finished);
      || UsableInRange(finished, range, usable, s)
      || (ActiveSegment(scan) == Some(s) && Overlaps(range, s.minTs, s.maxTs)
          && forall f :: f in finished && f.id == s.id ==> !UsableInRange(finished, range, usable, f))
  }

  /** The active segment is listed exactly when an instant between two of its parts' bounds lies in
      the range; a finished file with its id stands for it. */
  lemma {:induction false} ActiveListing<Row>(scan: Scan<Row>, range: Range, s: Segment<Row>)
    requires scan.active != [] && ActiveSegment(scan) == Some(s)
    requires exists k :: 0 <= k < |scan.active| && scan.active[k].minTs <= scan.active[k].maxTs
    ensures (forall f :: 0 <= f < |scan.finished| ==> scan.finished[f].segment.id != scan.active[0].segmentId)
        ==> (Lists(scan, range, Catalog, s) <==> exists t: i64 :: Contains(range, t) && BetweenParts(scan.active, t))
    ensures (exists f :: 0 <= f < |scan.finished| && scan.finished[f].segment.id == scan.active[0].segmentId)
        ==> forall o :: Lists(scan, range, Catalog, o) ==> o in SegmentsOf(scan.finished)
  {
    ActiveSegmentSpans(scan);
    OverlapsIsASharedInstant(range, s.minTs, s.maxTs);
    forall t: i64
      ensures BetweenParts(scan.active, t) <==> s.minTs <= t <= s.maxTs
    {
      BetweenIsWithin(scan.active, s.minTs, s.maxTs, t);
    }
    if forall f :: 0 <= f < |scan.finished| ==> scan.finished[f].segment.id != scan.active[0].segmentId {
      assert Canonical(scan)[|scan.finished|] == s;
    }
  }

  /** Not before every part and not after every part. */
  ghost predicate BetweenParts<Row>(active: seq<ActivePart<Row>>, t: i64) {
    (exists i :: 0 <= i < |active| && active[i].minTs <= t) && (exists j :: 0 <= j < |active| && t <= active[j].maxTs)
  }

  lemma {:induction false} BetweenIsWithin<Row>(active: seq<ActivePart<Row>>, lo: i64, hi: i64, t: i64)
    requires Enclose(active, lo, hi)
    ensures BetweenParts(active, t) <==> lo <= t <= hi
  {
    var i :| 0 <= i < |active| && active[i].minTs == lo;
    var j :| 0 <= j < |active| && active[j].maxTs == hi;
  }

  predicate Wanted<Row>(range: Range, predecessor: Option<int>, s: Segment<Row>) {
    Overlaps(range, s.minTs, s.maxTs) || predecessor == Some(s.id)
  }

  predicate Takes<Row>(range: Range, mode: Mode, predecessor: Option<int>, s: Segment<Row>) {
    Wanted(range, predecessor, s) && (mode.Validated? ==> mode.usable(s.id))
  }

  /** The listing in id order, for each of its modes. */
  method ListSegments<Row>(scan: Scan<Row>, range: Range, mode: Mode, ghost bits: nat -> set<nat>)
    returns (segments: seq<Segment<Row>>)
    requires ValidScan(scan, bits)
    ensures StrictlySorted(segments, ById)
    ensures forall s :: s in segments <==> Lists(scan, range, mode, s)
  {
    hide Overlaps, BeforeStart, IsClosest, Wanted, ById, Less, ValidParts, ValidUnits, Lists, CanonicalActive;
    ghost var finished := SegmentsOf(scan.finished);
    var active := FindActive(scan, mode.Validated?);
    var predecessor := ClosestId(scan, range, mode, active);
    FilesAreUnique(scan);
    segments := [];
    for i := 0 to |scan.finished|
      invariant DistinctKeys(segments, ById)
      invariant forall s :: s in segments <==> s in finished[..i] && Takes(range, mode, predecessor, s)
    {
      var s := scan.finished[i].segment;
      assert finished[..i + 1] == finished[..i] + [s];
      if Takes(range, mode, predecessor, s) {
        Fresh(finished, i, segments);
        CollectOne(segments, s);
        segments := segments + [s];
      }
    }
    assert finished[..|scan.finished|] == finished;
    ghost var files := segments;
    if active.Some? && !HasId(segments, active.value.id) && Wanted(range, predecessor, active.value) {
      CollectOne(segments, active.value);
      segments := segments + [active.value];
    }
    forall s
      ensures s in segments <==> Lists(scan, range, mode, s)
    {
      ListedOne(scan, range, mode, active, predecessor, files, s);
    }
    SortStrict(segments, ById);
    segments := Sort(segments, ById);
  }

  /** Which segment is the closest before the range, where the mode asks for it. */
  method ClosestId<Row>(scan: Scan<Row>, range: Range, mode: Mode, active: Option<Segment<Row>>)
    returns (predecessor: Option<int>)
    requires DistinctIds(scan.finished)
    requires active == if mode.Validated? then ActiveSegment(scan) else CanonicalActive(scan)
    ensures ClosestIs(scan, range, mode, predecessor)
  {
    if !mode.CatalogWithPredecessor? {
      return None;
    }
    CanonicalIdsAreUnique(scan);
    var all := SegmentsOf(scan.finished) + Optional(active);
    var best := LatestBefore(all, range);
    if best.None? {
      return None;
    }
    forall s | s in all
      ensures s.id == best.value.id <==> IsClosest(all, range, s)
    {
      SameIdSameSegment(all, s, best.value);
    }
    return Some(best.value.id);
  }

  ghost predicate ClosestIs<Row>(scan: Scan<Row>, range: Range, mode: Mode, predecessor: Option<int>) {
    if mode.CatalogWithPredecessor? then
      forall s :: s in Canonical(scan) ==> (predecessor == Some(s.id) <==> IsClosest(Canonical(scan), range, s))
    else predecessor == None
  }

  predicate HasId<Row>(segments: seq<Segment<Row>>, id: int) {
    exists i :: 0 <= i < |segments| && segments[i].id == id
  }

  lemma {:induction false} FilesAreUnique<Row>(scan: Scan<Row>)
    requires DistinctIds(scan.finished)
    ensures DistinctKeys(SegmentsOf(scan.finished), ById)
  {
  }

  /** What one segment's place in the collected listing means. */
  lemma {:induction false} ListedOne<Row>(scan: Scan<Row>, range: Range, mode: Mode, active: Option<Segment<Row>>,
                                          predecessor: Option<int>, files: seq<Segment<Row>>, s: Segment<Row>)
    requires active == if mode.Validated? then ActiveSegment(scan) else CanonicalActive(scan)
    requires ClosestIs(scan, range, mode, predecessor)
    requires forall f :: f in files <==> f in SegmentsOf(scan.finished) && Takes(range, mode, predecessor, f)
    ensures Lists(scan, range, mode, s)
       <==> s in files || (active == Some(s) && !HasId(files, s.id) && Wanted(range, predecessor, s))
  {
    hide Overlaps, BeforeStart, ActiveSegment;
    var finished := SegmentsOf(scan.finished);
    assert s in Canonical(scan) <==> s in finished || CanonicalActive(scan) == Some(s);
    HasIdIsMember(files, s.id);
    if !mode.Validated? && active == Some(s) { CanonicalIsNew(scan, s); }
  }

  lemma {:induction false} HasIdIsMember<Row>(segments: seq<Segment<Row>>, id: int)
    ensures HasId(segments, id) <==> exists f :: f in segments && f.id == id
  {
    if HasId(segments, id) {
      var i :| 0 <= i < |segments| && segments[i].id == id;
      assert segments[i] in segments;
    }
  }

  lemma {:induction false} CanonicalIsNew<Row>(scan: Scan<Row>, s: Segment<Row>)
    requires CanonicalActive(scan) == Some(s)
    ensures forall f :: f in SegmentsOf(scan.finished) ==> f.id != s.id
  {
  }

  lemma {:induction false} Fresh<Row>(all: seq<Segment<Row>>, i: nat, segments: seq<Segment<Row>>)
    requires i < |all| && DistinctKeys(all, ById)
    requires forall s :: s in segments ==> s in all[..i]
    ensures forall k :: 0 <= k < |segments| ==> segments[k].id != all[i].id
  {
    forall k | 0 <= k < |segments|
      ensures segments[k].id != all[i].id
    {
      assert segments[k] in segments;
      var j :| 0 <= j < i && all[j] == segments[k];
      assert ById(all[j]) != ById(all[i]);
    }
  }

  // ----- predecessors, newest candidate first -----

  /** An earlier segment still to be tried; a finished one carries its filter. */
  datatype Candidate<+Row> = Candidate(segment: Segment<Row>, bloom: Option<set<nat>>)

  function NewestFirst<Row>(c: Candidate<Row>): Key { Key(-(c.segment.maxTs as int), -c.segment.id, 0) }

  ghost predicate ValidCandidate<Row>(c: Candidate<Row>, bits: nat -> set<nat>) {
    && ValidParts(c.segment.parts)
    && (c.bloom.Some? ==> ValidUnit(Unit(c.segment, c.bloom.value), bits))
  }

  ghost predicate IsCandidate<Row>(cands: seq<Candidate<Row>>, s: Segment<Row>) {
    exists j :: 0 <= j < |cands| && cands[j].segment == s
  }

  /** `cands` are exactly the segments of `all` that end before the range, newest first. */
  ghost predicate Tried<Row>(cands: seq<Candidate<Row>>, all: seq<Segment<Row>>, range: Range) {
    && StrictlySorted(cands, NewestFirst)
    && (forall j :: 0 <= j < |cands| ==> cands[j].segment in all && BeforeStart(range, cands[j].segment.maxTs))
    && (forall s :: s in all && BeforeStart(range, s.maxTs) ==> IsCandidate(cands, s))
  }

  method EarlierCandidates<Row>(finished: seq<Unit<Row>>, active: Option<Segment<Row>>, range: Range,
                                ghost bits: nat -> set<nat>)
    returns (cands: seq<Candidate<Row>>)
    requires ValidUnits(finished, bits)
    requires active.Some? ==> ValidParts(active.value.parts)
    requires DistinctKeys(SegmentsOf(finished) + Optional(active), ById)
    ensures Tried(cands, SegmentsOf(finished) + Optional(active), range)
    ensures forall j :: 0 <= j < |cands| ==> ValidCandidate(cands[j], bits)
  {
    hide BeforeStart, ValidCandidate, ValidUnit, ValidUnits, Gathered, Tried;
    hide NewestFirst, Less, ValidParts, ById, SegmentsOf;
    ghost var all := SegmentsOf(finished) + Optional(active);
    cands := [];
    NoneGathered(all, range, cands);
    for i := 0 to |finished|
      invariant Gathered(cands, all[..i], range)
      invariant forall j :: 0 <= j < |cands| ==> ValidCandidate(cands[j], bits)
    {
      var c := Candidate(finished[i].segment, Some(finished[i].bloom));
      UnitIsValid(finished, i, bits);
      GatherOne(cands, all, i, range, c);
      if BeforeStart(range, c.segment.maxTs) {
        cands := cands + [c];
      }
    }
    if active.Some? {
      var c := Candidate(active.value, None);
      ActiveIsValid(c, bits);
      GatherOne(cands, all, |finished|, range, c);
      if BeforeStart(range, c.segment.maxTs) {
        cands := cands + [c];
      }
    }
    assert all[..|all|] == all;
    GatheredInOrder(cands, all, range, bits);
    cands := Sort(cands, NewestFirst);
  }

  lemma {:induction false} UnitIsValid<Row>(units: seq<Unit<Row>>, i: nat, bits: nat -> set<nat>)
    requires i < |units| && ValidUnits(units, bits)
    ensures ValidCandidate(Candidate(units[i].segment, Some(units[i].bloom)), bits)
  {
    assert ValidUnit(units[i], bits);
  }

  lemma {:induction false} ActiveIsValid<Row>(c: Candidate<Row>, bits: nat -> set<nat>)
    requires c.bloom.None? && ValidParts(c.segment.parts)
    ensures ValidCandidate(c, bits)
  {
  }

  lemma {:induction false} NoneGathered<Row>(all: seq<Segment<Row>>, range: Range, cands: seq<Candidate<Row>>)
    requires cands == []
    ensures Gathered(cands, all[..0], range)
  {
  }

  lemma {:induction false} GatheredInOrder<Row>(cands: seq<Candidate<Row>>, all: seq<Segment<Row>>, range: Range,
                                        bits: nat -> set<nat>)
    requires Gathered(cands, all, range)
    requires forall j :: 0 <= j < |cands| ==> ValidCandidate(cands[j], bits)
    ensures Tried(Sort(cands, NewestFirst), all, range)
    ensures forall j :: 0 <= j < |cands| ==> ValidCandidate(Sort(cands, NewestFirst)[j], bits)
  {
    var sorted := Sort(cands, NewestFirst);
    SortStrict(cands, NewestFirst);
    SortedCandidates(cands, sorted);
    forall j | 0 <= j < |sorted|
      ensures ValidCandidate(sorted[j], bits)
      ensures sorted[j].segment in all && BeforeStart(range, sorted[j].segment.maxTs)
    {
      var c := sorted[j];
      SortMember(cands, NewestFirst, c);
      var k :| 0 <= k < |cands| && cands[k] == c;
    }
  }

  function Optional<T>(o: Option<T>): seq<T> {
    if o.Some? then [o.value] else []
  }

  ghost predicate Gathered<Row>(cands: seq<Candidate<Row>>, all: seq<Segment<Row>>, range: Range) {
    && DistinctKeys(cands, NewestFirst)
    && (forall j :: 0 <= j < |cands| ==> cands[j].segment in all && BeforeStart(range, cands[j].segment.maxTs))
    && (forall s :: s in all && BeforeStart(range, s.maxTs) ==> IsCandidate(cands, s))
  }

  lemma {:induction false} GatheredKeyIsNew<Row>(cands: seq<Candidate<Row>>, all: seq<Segment<Row>>, i: nat,
                                        c: Candidate<Row>)
    requires i < |all| && DistinctKeys(all, ById) && c.segment == all[i]
    requires DistinctKeys(cands, NewestFirst) && forall j :: 0 <= j < |cands| ==> cands[j].segment in all[..i]
    ensures DistinctKeys(cands + [c], NewestFirst)
  {
    forall j | 0 <= j < |cands|
      ensures NewestFirst(cands[j]) != NewestFirst(c)
    {
      var k :| 0 <= k < i && all[k] == cands[j].segment;
      assert ById(all[k]) != ById(all[i]);
    }
  }

  lemma {:induction false} GatherOne<Row>(cands: seq<Candidate<Row>>, all: seq<Segment<Row>>, i: nat, range: Range,
                                        c: Candidate<Row>)
    requires i < |all| && DistinctKeys(all, ById) && c.segment == all[i]
    requires Gathered(cands, all[..i], range)
    ensures Gathered(if BeforeStart(range, c.segment.maxTs) then cands + [c] else cands, all[..i + 1], range)
  {
    hide BeforeStart, Less, NewestFirst, ById, IsCandidate;
    assert all[..i + 1] == all[..i] + [all[i]];
    if BeforeStart(range, c.segment.maxTs) {
      var next := cands + [c];
      GatheredKeyIsNew(cands, all, i, c);
      forall s | s in all[..i + 1] && BeforeStart(range, s.maxTs)
        ensures IsCandidate(next, s)
      {
        if s in all[..i] { assert IsCandidate(cands, s); }
        CandidateStays(cands, c, s);
      }
    }
  }

  lemma {:induction false} CandidateStays<Row>(cands: seq<Candidate<Row>>, c: Candidate<Row>, s: Segment<Row>)
    requires IsCandidate(cands, s) || s == c.segment
    ensures IsCandidate(cands + [c], s)
  {
    var next := cands + [c];
    if s == c.segment {
      assert next[|cands|].segment == s;
    } else {
      var j :| 0 <= j < |cands| && cands[j].segment == s;
      assert next[j].segment == s;
    }
  }

  lemma {:induction false} SortedCandidates<Row>(cands: seq<Candidate<Row>>, sorted: seq<Candidate<Row>>)
    requires forall c :: c in sorted <==> c in cands
    ensures forall s :: IsCandidate(sorted, s) <==> IsCandidate(cands, s)
  {
    forall s
      ensures IsCandidate(sorted, s) <==> IsCandidate(cands, s)
    {
      if IsCandidate(sorted, s) {
        var j :| 0 <= j < |sorted| && sorted[j].segment == s;
        assert sorted[j] in cands;
      }
      if IsCandidate(cands, s) {
        var j :| 0 <= j < |cands| && cands[j].segment == s;
        assert cands[j] in sorted;
      }
    }
  }

  // ----- which candidates the scan keeps -----

  ghost predicate HeldBefore<Row>(cands: seq<Candidate<Row>>, i: nat, typeId: nat) {
    exists j :: 0 <= j < i && j < |cands| && Holds(cands[j].segment, typeId)
  }

  ghost predicate FirstHolder<Row>(cands: seq<Candidate<Row>>, j: nat, typeId: nat) {
    j < |cands| && Holds(cands[j].segment, typeId) && !HeldBefore(cands, j, typeId)
  }

  /** Among the first `i` candidates, `s` is the first to hold some requested type. */
  ghost predicate Kept<Row>(cands: seq<Candidate<Row>>, types: set<nat>, i: nat, s: Segment<Row>) {
    exists j, t :: 0 <= j < i && t in types && FirstHolder(cands, j, t) && cands[j].segment == s
  }

  /** The types still unanswered after `i` candidates. */
  ghost predicate Unanswered<Row>(cands: seq<Candidate<Row>>, types: set<nat>, i: nat, remaining: set<nat>) {
    forall t :: t in remaining <==> t in types && !HeldBefore(cands, i, t)
  }

  lemma {:induction false} TryOne<Row>(cands: seq<Candidate<Row>>, types: set<nat>, i: nat, remaining: set<nat>,
                                       matched: set<nat>)
    requires i < |cands| && Unanswered(cands, types, i, remaining)
    requires forall t :: t in matched <==> t in remaining && Holds(cands[i].segment, t)
    ensures Unanswered(cands, types, i + 1, remaining - matched)
    ensures forall s :: Kept(cands, types, i + 1, s)
                   <==> Kept(cands, types, i, s) || (matched != {} && s == cands[i].segment)
  {
    forall t
      ensures HeldBefore(cands, i + 1, t) <==> HeldBefore(cands, i, t) || Holds(cands[i].segment, t)
    {
    }
    forall s
      ensures Kept(cands, types, i + 1, s)
         <==> Kept(cands, types, i, s) || (matched != {} && s == cands[i].segment)
    {
      if matched != {} && s == cands[i].segment {
        var t :| t in matched;
        assert FirstHolder(cands, i, t);
      }
      if Kept(cands, types, i + 1, s) && !Kept(cands, types, i, s) {
        var j, t :| 0 <= j < i + 1 && t in types && FirstHolder(cands, j, t) && cands[j].segment == s;
        assert j == i && t in matched;
      }
    }
  }

  /** Once every type is answered, later candidates cannot be kept. */
  lemma {:induction false} NothingUnanswered<Row>(cands: seq<Candidate<Row>>, types: set<nat>, i: nat)
    requires i <= |cands| && Unanswered(cands, types, i, {})
    ensures forall s :: Kept(cands, types, |cands|, s) <==> Kept(cands, types, i, s)
  {
    forall s | Kept(cands, types, |cands|, s)
      ensures Kept(cands, types, i, s)
    {
      var j, t :| 0 <= j < |cands| && t in types && FirstHolder(cands, j, t) && cands[j].segment == s;
      assert HeldBefore(cands, i, t);
      var k :| 0 <= k < i && k < |cands| && Holds(cands[k].segment, t);
      assert j <= k;
    }
  }

  /** The first candidate to hold a type is that type's predecessor, and the other way round. */
  lemma {:induction false} KeptArePredecessors<Row>(cands: seq<Candidate<Row>>, all: seq<Segment<Row>>, range: Range,
                                 types: set<nat>, s: Segment<Row>)
    requires Tried(cands, all, range) && DistinctKeys(all, ById)
    ensures Kept(cands, types, |cands|, s) <==> SomePredecessor(all, range, types, s)
  {
    if Kept(cands, types, |cands|, s) {
      var j, t :| 0 <= j < |cands| && t in types && FirstHolder(cands, j, t) && cands[j].segment == s;
      FirstHolderIsPredecessor(cands, all, range, j, t);
    }
    if SomePredecessor(all, range, types, s) {
      var t :| t in types && Predecessor(all, range, t, s);
      assert IsCandidate(cands, s);
      var j :| 0 <= j < |cands| && cands[j].segment == s;
      PredecessorIsFirstHolder(cands, all, range, j, t);
    }
  }

  lemma {:induction false} FirstHolderIsPredecessor<Row>(cands: seq<Candidate<Row>>, all: seq<Segment<Row>>,
                                        range: Range, j: nat, t: nat)
    requires Tried(cands, all, range) && FirstHolder(cands, j, t)
    ensures Predecessor(all, range, t, cands[j].segment)
  {
    var s := cands[j].segment;
    assert IsCandidate(cands, s);
    forall o | o in all && EarlierHolder(range, t, o)
      ensures NotNewer(o, s)
    {
      assert IsCandidate(cands, o);
      var k :| 0 <= k < |cands| && cands[k].segment == o;
      assert k >= j;
      assert k > j ==> Less(NewestFirst(cands[j]), NewestFirst(cands[k]));
    }
  }

  lemma {:induction false} PredecessorIsFirstHolder<Row>(cands: seq<Candidate<Row>>, all: seq<Segment<Row>>,
                                        range: Range, j: nat, t: nat)
    requires Tried(cands, all, range) && DistinctKeys(all, ById)
    requires j < |cands| && Predecessor(all, range, t, cands[j].segment)
    ensures FirstHolder(cands, j, t)
  {
    forall k | 0 <= k < j
      ensures !Holds(cands[k].segment, t)
    {
      assert Less(NewestFirst(cands[k]), NewestFirst(cands[j]));
      assert !NotNewer(cands[k].segment, cands[j].segment);
    }
  }

  /** The overlapping segments together with the closest predecessor of every requested layout. */
  ghost predicate Selected<Row>(all: seq<Segment<Row>>, range: Range, types: set<nat>, s: Segment<Row>) {
    InRange(all, range, s) || SomePredecessor(all, range, types, s)
  }

  lemma {:induction false} EarlierIsNotInRange(range: Range, minTs: i64, maxTs: i64)
    requires BeforeStart(range, maxTs)
    ensures !Overlaps(range, minTs, maxTs)
  {
  }

  lemma {:induction false} CaptureIsValid<Row>(scan: Scan<Row>, bits: nat -> set<nat>)
    requires ValidScan(scan, bits)
    ensures Canonical(scan) == SegmentsOf(scan.finished) + Optional(CanonicalActive(scan))
    ensures DistinctKeys(Canonical(scan), ById)
    ensures ValidUnits(scan.finished, bits)
    ensures CanonicalActive(scan).Some? ==> ValidParts(CanonicalActive(scan).value.parts)
  {
    CanonicalIdsAreUnique(scan);
  }

  lemma {:induction false} NothingRequested<Row>(all: seq<Segment<Row>>, range: Range)
    ensures forall s :: Selected(all, range, {}, s) <==> InRange(all, range, s)
  {
  }

  /** After `i` candidates the listing holds the segments of `base` and the candidates kept. */
  ghost predicate Listed<Row>(segments: seq<Segment<Row>>, base: seq<Segment<Row>>,
                              cands: seq<Candidate<Row>>, types: set<nat>, i: nat) {
    && (forall s :: s in segments ==> s in base || Kept(cands, types, i, s))
    && (forall s :: s in base ==> s in segments)
    && (forall j :: 0 <= j < |cands| && Kept(cands, types, i, cands[j].segment) ==> cands[j].segment in segments)
  }

  lemma {:induction false} ListedAtFirst<Row>(base: seq<Segment<Row>>, cands: seq<Candidate<Row>>, types: set<nat>)
    ensures Listed(base, base, cands, types, 0) && Unanswered(cands, types, 0, types)
  {
    NoneKept(cands, types);
  }

  lemma {:induction false} ListedNext<Row>(segments: seq<Segment<Row>>, base: seq<Segment<Row>>,
                                        cands: seq<Candidate<Row>>,
                        types: set<nat>, i: nat, remaining: set<nat>, matched: set<nat>, next: seq<Segment<Row>>)
    requires i < |cands| && Unanswered(cands, types, i, remaining)
    requires forall t :: t in matched <==> t in remaining && Holds(cands[i].segment, t)
    requires Listed(segments, base, cands, types, i)
    requires forall s :: s in next <==> s in segments || (matched != {} && s == cands[i].segment)
    ensures Unanswered(cands, types, i + 1, remaining - matched)
    ensures Listed(next, base, cands, types, i + 1)
  {
    hide Kept, Unanswered, Holds;
    TryOne(cands, types, i, remaining, matched);
  }

  /** A scan that stops early, with no type unanswered, has listed what a full scan would. */
  lemma {:induction false} ListedAtLast<Row>(segments: seq<Segment<Row>>, base: seq<Segment<Row>>,
                                        all: seq<Segment<Row>>, range: Range,
                          cands: seq<Candidate<Row>>, types: set<nat>, i: nat, remaining: set<nat>)
    requires Tried(cands, all, range) && DistinctKeys(all, ById)
    requires i <= |cands| && Unanswered(cands, types, i, remaining) && (i == |cands| || remaining == {})
    requires Listed(segments, base, cands, types, i)
    ensures forall s :: s in segments <==> s in base || SomePredecessor(all, range, types, s)
  {
    if i < |cands| { NothingUnanswered(cands, types, i); }
    forall s
      ensures s in segments <==> s in base || SomePredecessor(all, range, types, s)
    {
      KeptArePredecessors(cands, all, range, types, s);
      if SomePredecessor(all, range, types, s) {
        assert s in all && BeforeStart(range, s.maxTs);
        assert IsCandidate(cands, s);
      }
    }
  }

  lemma {:induction false} ReadAsSelected<Row>(segments: seq<Segment<Row>>, base: seq<Segment<Row>>,
                                        all: seq<Segment<Row>>,
                            range: Range, types: set<nat>)
    requires forall s :: s in base <==> InRange(all, range, s)
    requires forall s :: s in segments <==> s in base || SomePredecessor(all, range, types, s)
    ensures forall s :: s in segments <==> Selected(all, range, types, s)
  {
    hide InRange, SomePredecessor;
    forall s
      ensures s in segments <==> Selected(all, range, types, s)
    {
      assert s in base <==> InRange(all, range, s);
    }
  }

  lemma {:induction false} SortedSelection<Row>(segments: seq<Segment<Row>>)
    requires DistinctKeys(segments, ById)
    ensures StrictlySorted(Sort(segments, ById), ById)
    ensures forall s :: s in Sort(segments, ById) <==> s in segments
  {
    SortStrict(segments, ById);
  }

  method SegmentsWithPredecessorsFor<Row>(scan: Scan<Row>, range: Range, types: set<nat>, bits: nat -> set<nat>)
    returns (segments: seq<Segment<Row>>)
    requires ValidScan(scan, bits)
    ensures StrictlySorted(segments, ById)
    ensures forall s :: s in segments <==> Selected(Canonical(scan), range, types, s)
  {
    segments := ListSegments(scan, range, Catalog, bits);
    ghost var all, base := Canonical(scan), segments;
    CaptureIsValid(scan, bits);
    if types == {} {
      NothingRequested(all, range);
      return;
    }
    var active := FindActive(scan, false);
    var cands := EarlierCandidates(scan.finished, active, range, bits);
    StrictIsDistinct(segments, ById);
    segments := AddPredecessors(segments, cands, types, bits, all, range);
    ReadAsSelected(segments, base, all, range, types);
    SortedSelection(segments);
    segments := Sort(segments, ById);
  }

  /** Tries the candidates until every requested layout is answered. */
  method AddPredecessors<Row>(listed: seq<Segment<Row>>, cands: seq<Candidate<Row>>, types: set<nat>,
                              bits: nat -> set<nat>, ghost all: seq<Segment<Row>>, ghost range: Range)
    returns (segments: seq<Segment<Row>>)
    requires Tried(cands, all, range) && DistinctKeys(all, ById) && DistinctKeys(listed, ById)
    requires forall j :: 0 <= j < |cands| ==> ValidCandidate(cands[j], bits)
    requires forall s :: s in listed <==> InRange(all, range, s)
    ensures DistinctKeys(segments, ById)
    ensures forall s :: s in segments <==> s in listed || SomePredecessor(all, range, types, s)
  {
    hide *;
    var remaining, i := types, 0;
    segments := listed;
    ListedAtFirst(listed, cands, types);
    while i < |cands|
      invariant i <= |cands| && Unanswered(cands, types, i, remaining)
      invariant DistinctKeys(segments, ById)
      invariant Listed(segments, listed, cands, types, i)
    {
      var c := cands[i];
      assert ValidCandidate(c, bits);
      var matched := {};
      if c.bloom.None? || MayContainAny(c.bloom.value, remaining, bits) {
        CandidateParts(c, bits);
        matched := MatchedTypes(c.segment, remaining);
      } else {
        SkippedHoldsNothing(c, remaining, bits);
      }
      ghost var before := segments;
      if matched != {} {
        NewId(cands, all, range, types, i, listed, segments);
        CollectOne(segments, c.segment);
        segments := segments + [c.segment];
      }
      ListedNext(before, listed, cands, types, i, remaining, matched, segments);
      remaining := remaining - matched;
      i := i + 1;
      if remaining == {} {
        break;
      }
    }
    ListedAtLast(segments, listed, all, range, cands, types, i, remaining);
  }

  lemma {:induction false} CandidateParts<Row>(c: Candidate<Row>, bits: nat -> set<nat>)
    requires ValidCandidate(c, bits)
    ensures ValidParts(c.segment.parts)
  {
  }

  method MatchedTypes<Row>(s: Segment<Row>, remaining: set<nat>) returns (matched: set<nat>)
    requires ValidParts(s.parts)
    ensures forall t :: t in matched <==> t in remaining && Holds(s, t)
  {
    var sections := SectionsOf(s.parts);
    forall t | t !in sections
      ensures !Holds(s, t)
    {
      AbsentMeansNoRows(s.parts, t);
    }
    matched := set t | t in remaining && t in sections && sections[t] > 0;
  }

  lemma {:induction false} NoneKept<Row>(cands: seq<Candidate<Row>>, types: set<nat>)
    ensures Unanswered(cands, types, 0, types)
    ensures forall s :: !Kept(cands, types, 0, s)
  {
  }

  lemma {:induction false} StrictIsDistinct<T>(s: seq<T>, key: T -> Key)
    requires StrictlySorted(s, key)
    ensures DistinctKeys(s, key)
  {
  }

  lemma {:induction false} SkippedHoldsNothing<Row>(c: Candidate<Row>, remaining: set<nat>, bits: nat -> set<nat>)
    requires ValidCandidate(c, bits) && c.bloom.Some? && !MayContainAny(c.bloom.value, remaining, bits)
    ensures forall t :: t in remaining ==> !Holds(c.segment, t)
  {
    forall t | t in remaining
      ensures !Holds(c.segment, t)
    {
      if Holds(c.segment, t) {
        FilterNeverHides(Unit(c.segment, c.bloom.value), remaining, bits, t);
      }
    }
  }

  /** A candidate being tried is not in the listing yet, under any id. */
  lemma {:induction false} NewId<Row>(cands: seq<Candidate<Row>>, all: seq<Segment<Row>>, range: Range,
                                      types: set<nat>, i: nat,
                   base: seq<Segment<Row>>, segments: seq<Segment<Row>>)
    requires i < |cands| && Tried(cands, all, range) && DistinctKeys(all, ById)
    requires forall s :: s in base ==> InRange(all, range, s)
    requires Listed(segments, base, cands, types, i)
    ensures forall k :: 0 <= k < |segments| ==> segments[k].id != cands[i].segment.id
  {
    var s := cands[i].segment;
    assert IsCandidate(cands, s);
    EarlierIsNotInRange(range, s.minTs, s.maxTs);
    forall k | 0 <= k < |segments|
      ensures segments[k].id != s.id
    {
      var o := segments[k];
      assert o in segments;
      if Kept(cands, types, i, o) {
        var j, t :| 0 <= j < i && t in types && FirstHolder(cands, j, t) && cands[j].segment == o;
        assert Less(NewestFirst(cands[j]), NewestFirst(cands[i]));
        assert IsCandidate(cands, o);
      }
      assert o in all && o != s;
      SameIdSameSegment(all, o, s);
    }
  }

  lemma {:induction false} SameIdSameSegment<Row>(all: seq<Segment<Row>>, a: Segment<Row>, b: Segment<Row>)
    requires DistinctKeys(all, ById) && a in all && b in all
    ensures a.id == b.id ==> a == b
  {
    var i :| 0 <= i < |all| && all[i] == a;
    var j :| 0 <= j < |all| && all[j] == b;
    assert i < j ==> ById(all[i]) != ById(all[j]);
    assert j < i ==> ById(all[j]) != ById(all[i]);
  }
}
