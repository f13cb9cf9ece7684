/** One recorded row addressed by its locator, and the reading its counters are compared with
    (crates/kronika-query/src/row_detail.rs). */
module RowDetail {
  import opened Machine
  import opened Journal
  import opened Ordering
  import opened Discovery

  datatype Locator<!Ident> = Locator(typeId: nat, at: i64, identity: Ident, ordinal: nat)

  /** How a row of the located layout reads: its timestamp, and its identity or an error. */
  datatype Contract<!Row, !Ident> = Contract(
    stamp: Row -> Option<i64>, identity: Row -> Option<Ident>, eventStream: bool)

  // ----- locating the row itself -----

  datatype Located = Found(ordinal: nat) | NotUnique | BadIdentity | NoSuchRow

  ghost predicate Matches<Row, Ident>(c: Contract<Row, Ident>, l: Locator<Ident>, row: Row) {
    c.stamp(row) == Some(l.at) && c.identity(row) == Some(l.identity)
  }

  ghost predicate Unreadable<Row, Ident>(c: Contract<Row, Ident>, l: Locator<Ident>, row: Row) {
    c.stamp(row) == Some(l.at) && c.identity(row) == None
  }

  ghost predicate NoMatch<Row, Ident>(c: Contract<Row, Ident>, l: Locator<Ident>, rows: seq<Row>, from: nat,
                                      to: nat) {
    forall k :: from <= k < to && k < |rows| ==> !Matches(c, l, rows[k])
  }

  ghost predicate AllReadable<Row, Ident>(c: Contract<Row, Ident>, l: Locator<Ident>, rows: seq<Row>, to: nat) {
    forall k :: 0 <= k < to && k < |rows| ==> !Unreadable(c, l, rows[k])
  }

  /** Exactly one match in the first `n` rows, at `k`. */
  ghost predicate OnlyMatch<Row, Ident>(c: Contract<Row, Ident>, l: Locator<Ident>, rows: seq<Row>, k: nat, n: nat) {
    && k < n <= |rows| && Matches(c, l, rows[k])
    && NoMatch(c, l, rows, 0, k) && NoMatch(c, l, rows, k + 1, n)
  }

  method LocateRow<Row, Ident(==)>(c: Contract<Row, Ident>, l: Locator<Ident>,
                                   rows: seq<Row>) returns (located: Located)
    ensures located == NoSuchRow <==> NoMatch(c, l, rows, 0, |rows|) && AllReadable(c, l, rows, |rows|)
    ensures located == NoSuchRow <==> forall k :: 0 <= k < |rows| && c.stamp(rows[k]) == Some(l.at) ==>
                                        c.identity(rows[k]).Some? && c.identity(rows[k]).value != l.identity
    ensures located.Found? ==>
              && located.ordinal < |rows| && c.stamp(rows[located.ordinal]) == Some(l.at)
              && c.identity(rows[located.ordinal]) == Some(l.identity)
    ensures located.Found? && !c.eventStream ==>
              forall k :: 0 <= k < |rows| && k != located.ordinal && c.stamp(rows[k]) == Some(l.at) ==>
                c.identity(rows[k]).Some? && c.identity(rows[k]).value != l.identity
    ensures located.Found? && !c.eventStream ==>
              OnlyMatch(c, l, rows, located.ordinal, |rows|) && AllReadable(c, l, rows, |rows|)
    ensures located.Found? && c.eventStream ==>
              && AllReadable(c, l, rows, |rows|) && located.ordinal < |rows| && Matches(c, l, rows[located.ordinal])
              && (l.ordinal < |rows| && Matches(c, l, rows[l.ordinal]) ==> located.ordinal == l.ordinal)
              && (l.ordinal >= |rows| || !Matches(c, l, rows[l.ordinal]) ==> NoMatch(c, l, rows, 0, located.ordinal))
    ensures located == NotUnique ==>
              && !c.eventStream
              && exists j, k :: 0 <= k && k < j < |rows| && OnlyMatch(c, l, rows, k, j) && Matches(c, l, rows[j])
                                && AllReadable(c, l, rows, j)
    ensures located == BadIdentity ==>
              exists j :: 0 <= j < |rows| && Unreadable(c, l, rows[j]) && AllReadable(c, l, rows, j)
                          && (c.eventStream || NoMatch(c, l, rows, 0, j)
                              || exists k :: 0 <= k < j && OnlyMatch(c, l, rows, k, j))
  {
    var resolved: Option<nat>, hinted: Option<nat> := None, None;
    for i := 0 to |rows|
      invariant AllReadable(c, l, rows, i)
      invariant resolved.None? ==> NoMatch(c, l, rows, 0, i)
      invariant resolved.Some? ==> resolved.value < i && Matches(c, l, rows[resolved.value])
                                   && NoMatch(c, l, rows, 0, resolved.value)
      invariant resolved.Some? && !c.eventStream ==> OnlyMatch(c, l, rows, resolved.value, i)
      invariant hinted.Some? ==> hinted.value == l.ordinal < i && Matches(c, l, rows[l.ordinal])
      invariant hinted.None? ==> l.ordinal >= i || !Matches(c, l, rows[l.ordinal])
    {
      if c.stamp(rows[i]) == Some(l.at) {
        match c.identity(rows[i])
        case None => return BadIdentity;
        case Some(identity) =>
          if identity == l.identity {
            if i == l.ordinal {
              hinted := Some(i);
            }
            if resolved.None? {
              resolved := Some(i);
            } else if !c.eventStream {
              return NotUnique;
            }
          }
      }
    }
    if hinted.Some? {
      return Found(hinted.value);
    }
    return if resolved.Some? then Found(resolved.value) else NoSuchRow;
  }

  // ----- the previous reading of the same identity -----

  datatype Reading<+Row> = Reading(at: i64, row: Row)

  /** The reading a row offers: strictly before the locator, of its identity. */
  ghost function ReadingOf<Row, Ident>(c: Contract<Row, Ident>, l: Locator<Ident>, row: Row): Option<Reading<Row>> {
    match c.stamp(row)
    case Some(at) =>
      if at < l.at && c.identity(row) == Some(l.identity) then Some(Reading(at, row)) else None
    case None => None
  }

  /** `r` is the latest reading among the rows, the first of them when several share its instant. */
  ghost predicate IsLatest<Row, Ident>(c: Contract<Row, Ident>, l: Locator<Ident>, rows: seq<Row>,
                                       r: Option<Reading<Row>>) {
    match r
    case None => forall k :: 0 <= k < |rows| ==> ReadingOf(c, l, rows[k]).None?
    case Some(best) => exists k :: 0 <= k < |rows| && FirstLatest(c, l, rows, k, best)
  }

  ghost predicate FirstLatest<Row, Ident>(c: Contract<Row, Ident>, l: Locator<Ident>, rows: seq<Row>, k: nat,
                                        best: Reading<Row>)
    requires k < |rows|
  {
    && ReadingOf(c, l, rows[k]) == Some(best)
    && forall j :: 0 <= j < |rows| && ReadingOf(c, l, rows[j]).Some?
         ==> if j < k then ReadingOf(c, l, rows[j]).value.at < best.at
             else ReadingOf(c, l, rows[j]).value.at <= best.at
  }

  lemma {:induction false} OneMoreRow<Row, Ident>(c: Contract<Row, Ident>, l: Locator<Ident>, rows: seq<Row>,
                                        row: Row,
                                   before: Option<Reading<Row>>)
    requires IsLatest(c, l, rows, before)
    ensures var found := ReadingOf(c, l, row);
            IsLatest(c, l, rows + [row],
                     if found.Some? && (before.None? || before.value.at < found.value.at) then found else before)
  {
    var more := rows + [row];
    var found := ReadingOf(c, l, row);
    assert more[|rows|] == row;
    if found.Some? && (before.None? || before.value.at < found.value.at) {
      assert FirstLatest(c, l, more, |rows|, found.value);
    } else if before.Some? {
      var k :| 0 <= k < |rows| && FirstLatest(c, l, rows, k, before.value);
      assert FirstLatest(c, l, more, k, before.value);
    }
  }

  method ScanPredecessor<Row, Ident(==)>(c: Contract<Row, Ident>, l: Locator<Ident>, rows: seq<Row>,
                                         before: Option<Reading<Row>>, ghost seen: seq<Row>)
    returns (previous: Option<Reading<Row>>)
    requires IsLatest(c, l, seen, before)
    ensures IsLatest(c, l, seen + rows, previous)
  {
    previous := before;
    assert seen + rows[..0] == seen;
    for i := 0 to |rows|
      invariant IsLatest(c, l, seen + rows[..i], previous)
    {
      OneMoreRow(c, l, seen + rows[..i], rows[i], previous);
      assert (seen + rows[..i]) + [rows[i]] == seen + rows[..i + 1];
      var stored := c.stamp(rows[i]);
      if stored.Some? && stored.value < l.at {
        if c.identity(rows[i]) == Some(l.identity) {
          if previous.None? || previous.value.at < stored.value {
            previous := Some(Reading(stored.value, rows[i]));
          }
        }
      }
    }
    assert rows[..|rows|] == rows;
  }

  // ----- over segments, newest first, stopping early -----

  function NewestSegmentFirst<Row>(s: Segment<Row>): Key { Key(-(s.maxTs as int), -s.id, 0) }

  function AllRows<Row>(segments: seq<Segment<Row>>, typeId: nat): seq<Row> {
    if segments == [] then []
    else AllRows(segments[..|segments| - 1], typeId) + Rows(segments[|segments| - 1].parts, typeId)
  }

  ghost predicate WithinBounds<Row, Ident>(c: Contract<Row, Ident>, typeId: nat, s: Segment<Row>) {
    forall k :: 0 <= k < |Rows(s.parts, typeId)| && c.stamp(Rows(s.parts, typeId)[k]).Some?
      ==> s.minTs <= c.stamp(Rows(s.parts, typeId)[k]).value <= s.maxTs
  }

  lemma {:induction false} AllRowsLast<Row>(segments: seq<Segment<Row>>, typeId: nat)
    ensures AllRows(segments, typeId)
         == if segments == [] then []
            else AllRows(segments[..|segments| - 1], typeId) + Rows(segments[|segments| - 1].parts, typeId)
  {
  }

  lemma {:induction false} AllRowsAppend<Row>(a: seq<Segment<Row>>, b: seq<Segment<Row>>, typeId: nat)
    ensures AllRows(a + b, typeId) == AllRows(a, typeId) + AllRows(b, typeId)
  {
    hide Rows, AllRows;
    AllRowsLast(b, typeId);
    if b == [] {
      assert a + b == a && AllRows(a, typeId) + [] == AllRows(a, typeId);
    } else {
      var n := |b| - 1;
      AllRowsAppend(a, b[..n], typeId);
      var all := a + b;
      assert all[..|all| - 1] == a + b[..n] && all[|all| - 1] == b[n];
      AllRowsLast(all, typeId);
    }
  }

  /** Rows that offer nothing as late as `best` do not change it. */
  lemma {:induction false} OlderRowsChangeNothing<Row, Ident>(c: Contract<Row, Ident>, l: Locator<Ident>,
                                        rows: seq<Row>, more: seq<Row>,
                                               best: Reading<Row>)
    requires IsLatest(c, l, rows, Some(best))
    requires forall j :: 0 <= j < |more| && ReadingOf(c, l, more[j]).Some? ==>
               ReadingOf(c, l, more[j]).value.at < best.at
    ensures IsLatest(c, l, rows + more, Some(best))
  {
    var k :| 0 <= k < |rows| && FirstLatest(c, l, rows, k, best);
    var all := rows + more;
    forall j | 0 <= j < |all| && ReadingOf(c, l, all[j]).Some?
      ensures if j < k then ReadingOf(c, l, all[j]).value.at < best.at else ReadingOf(c, l, all[j]).value.at <= best.at
    {
      if j < |rows| { assert all[j] == rows[j]; } else { assert all[j] == more[j - |rows|]; }
    }
    assert FirstLatest(c, l, all, k, best);
  }

  lemma {:induction false} RowsEndBefore<Row, Ident>(c: Contract<Row, Ident>, l: Locator<Ident>,
                                        segments: seq<Segment<Row>>, at: i64)
    requires forall s :: s in segments ==> WithinBounds(c, l.typeId, s) && s.maxTs < at
    ensures forall j :: 0 <= j < |AllRows(segments, l.typeId)| && ReadingOf(c, l, AllRows(segments, l.typeId)[j]).Some?
                        ==> ReadingOf(c, l, AllRows(segments, l.typeId)[j]).value.at < at
  {
    if segments == [] {
    } else {
      var n := |segments| - 1;
      RowsEndBefore(c, l, segments[..n], at);
      assert segments[n] in segments;
    }
  }

  lemma {:induction false} NoRowsYet<Row, Ident>(c: Contract<Row, Ident>, l: Locator<Ident>,
                                                 candidates: seq<Segment<Row>>)
    ensures IsLatest(c, l, AllRows(candidates[..0], l.typeId), None)
  {
  }

  method PreviousAmong<Row, Ident(==)>(c: Contract<Row, Ident>, l: Locator<Ident>, candidates: seq<Segment<Row>>)
    returns (previous: Option<Reading<Row>>)
    requires Sorted(candidates, NewestSegmentFirst)
    requires forall s :: s in candidates ==> WithinBounds(c, l.typeId, s)
    ensures IsLatest(c, l, AllRows(candidates, l.typeId), previous)
  {
    hide IsLatest, AllRows, Rows, WithinBounds, NewestSegmentFirst, Less;
    previous := None;
    var i := 0;
    NoRowsYet(c, l, candidates);
    while i < |candidates|
      invariant i <= |candidates|
      invariant IsLatest(c, l, AllRows(candidates[..i], l.typeId), previous)
    {
      if previous.Some? && candidates[i].maxTs < previous.value.at {
        OlderSegments(c, l, candidates, i, previous.value);
        return;
      }
      assert candidates[..i + 1][..i] == candidates[..i];
      AllRowsLast(candidates[..i + 1], l.typeId);
      ghost var seen := AllRows(candidates[..i], l.typeId);
      previous := ScanPredecessor(c, l, Rows(candidates[i].parts, l.typeId), previous, seen);
      i := i + 1;
    }
    assert candidates[..i] == candidates;
  }

  lemma {:induction false} OlderSegments<Row, Ident>(c: Contract<Row, Ident>, l: Locator<Ident>,
                                        candidates: seq<Segment<Row>>, i: nat, best: Reading<Row>)
    requires i < |candidates| && Sorted(candidates, NewestSegmentFirst) && candidates[i].maxTs < best.at
    requires forall s :: s in candidates ==> WithinBounds(c, l.typeId, s)
    requires IsLatest(c, l, AllRows(candidates[..i], l.typeId), Some(best))
    ensures IsLatest(c, l, AllRows(candidates, l.typeId), Some(best))
  {
    hide WithinBounds, IsLatest, AllRows, ReadingOf;
    var later := candidates[i..];
    forall s | s in later
      ensures WithinBounds(c, l.typeId, s) && s.maxTs < best.at
    {
      var k :| 0 <= k < |later| && later[k] == s;
      assert candidates[i + k] == s;
      assert k > 0 ==> !Less(NewestSegmentFirst(candidates[i + k]), NewestSegmentFirst(candidates[i]));
    }
    RowsEndBefore(c, l, later, best.at);
    OlderRowsChangeNothing(c, l, AllRows(candidates[..i], l.typeId), AllRows(later, l.typeId), best);
    AllRowsAppend(candidates[..i], later, l.typeId);
    assert candidates[..i] + later == candidates;
  }

  /** The anchor and every other segment with no greater id, when they list the layout. */
  function Candidates<Row>(anchor: Segment<Row>, others: seq<Segment<Row>>, typeId: nat): seq<Segment<Row>> {
    (if Present(anchor.parts, typeId) then [anchor] else []) + NotAfter(anchor.id, others, typeId)
  }

  function NotAfter<Row>(id: int, others: seq<Segment<Row>>, typeId: nat): seq<Segment<Row>> {
    if others == [] then []
    else
      var last := others[|others| - 1];
      NotAfter(id, others[..|others| - 1], typeId)
      + if last.id <= id && Present(last.parts, typeId) then [last] else []
  }

  lemma {:induction false} NotAfterMembers<Row>(id: int, others: seq<Segment<Row>>, typeId: nat, s: Segment<Row>)
    ensures s in NotAfter(id, others, typeId) <==> s in others && s.id <= id && Present(s.parts, typeId)
  {
    if others == [] {
    } else {
      var n := |others| - 1;
      assert others == others[..n] + [others[n]];
      NotAfterMembers(id, others[..n], typeId, s);
    }
  }

  ghost predicate StoredIn<Row, Ident>(c: Contract<Row, Ident>, l: Locator<Ident>, s: Segment<Row>,
                                       reading: Reading<Row>) {
    exists k :: 0 <= k < |Rows(s.parts, l.typeId)| && ReadingOf(c, l, Rows(s.parts, l.typeId)[k]) == Some(reading)
  }

  /** A row offers a reading exactly when it is of the identity and strictly before the locator; the
      reading is its instant and the row itself. */
  lemma {:induction false} ReadingMeans<Row, Ident>(c: Contract<Row, Ident>, l: Locator<Ident>, row: Row,
                                                    r: Reading<Row>)
    ensures ReadingOf(c, l, row) == Some(r)
       <==> && r.row == row && c.stamp(row) == Some(r.at) && r.at < l.at && c.identity(row) == Some(l.identity)
  {
  }

  /** Segments are searched from the latest end down, then from the greatest id down. */
  lemma {:induction false} NewestOrder<Row>(candidates: seq<Segment<Row>>)
    ensures var sorted := Sort(candidates, NewestSegmentFirst);
            forall i, j :: 0 <= i < j < |sorted| ==>
              sorted[i].maxTs > sorted[j].maxTs
              || (sorted[i].maxTs == sorted[j].maxTs && sorted[i].id >= sorted[j].id)
  {
    SortSorts(candidates, NewestSegmentFirst);
    var sorted := Sort(candidates, NewestSegmentFirst);
    forall i, j | 0 <= i < j < |sorted|
      ensures sorted[i].maxTs > sorted[j].maxTs
              || (sorted[i].maxTs == sorted[j].maxTs && sorted[i].id >= sorted[j].id)
    {
      assert !Less(NewestSegmentFirst(sorted[j]), NewestSegmentFirst(sorted[i]));
    }
  }

  /** A reading stored in the anchor or in any segment with no greater id. */
  ghost predicate Stored<Row, Ident>(c: Contract<Row, Ident>, l: Locator<Ident>, anchor: Segment<Row>,
                                     others: seq<Segment<Row>>, reading: Reading<Row>) {
    || StoredIn(c, l, anchor, reading)
    || exists i :: 0 <= i < |others| && others[i].id <= anchor.id && StoredIn(c, l, others[i], reading)
  }

  method PreviousReadings<Row, Ident(==)>(c: Contract<Row, Ident>, l: Locator<Ident>, hasCounters: bool,
                                          anchor: Segment<Row>, others: seq<Segment<Row>>)
    returns (previous: Option<Reading<Row>>)
    requires WithinBounds(c, l.typeId, anchor)
    requires forall i :: 0 <= i < |others| ==> WithinBounds(c, l.typeId, others[i])
    ensures !hasCounters ==> previous.None?
    ensures hasCounters ==>
              var candidates := Sort(Candidates(anchor, others, l.typeId), NewestSegmentFirst);
              IsLatest(c, l, AllRows(candidates, l.typeId), previous)
    ensures hasCounters && previous.None? ==> forall r :: !Stored(c, l, anchor, others, r)
    ensures previous.Some? ==>
              && Stored(c, l, anchor, others, previous.value)
              && forall r :: Stored(c, l, anchor, others, r) ==> r.at <= previous.value.at
  {
    if !hasCounters {
      return None;
    }
    var candidates := Candidates(anchor, others, l.typeId);
    var sorted := Sort(candidates, NewestSegmentFirst);
    SortSorts(candidates, NewestSegmentFirst);
    forall s | s in sorted
      ensures WithinBounds(c, l.typeId, s)
    {
      SortMember(candidates, NewestSegmentFirst, s);
      NotAfterMembers(anchor.id, others, l.typeId, s);
    }
    previous := PreviousAmong(c, l, sorted);
    LatestOfStored(c, l, anchor, others, sorted, previous);
  }

  lemma {:induction false} LatestOfStored<Row, Ident>(c: Contract<Row, Ident>, l: Locator<Ident>,
                                        anchor: Segment<Row>, others: seq<Segment<Row>>,
                                       sorted: seq<Segment<Row>>, previous: Option<Reading<Row>>)
    requires sorted == Sort(Candidates(anchor, others, l.typeId), NewestSegmentFirst)
    requires IsLatest(c, l, AllRows(sorted, l.typeId), previous)
    ensures previous.None? ==> forall r :: !Stored(c, l, anchor, others, r)
    ensures previous.Some? ==>
              && Stored(c, l, anchor, others, previous.value)
              && forall r :: Stored(c, l, anchor, others, r) ==> r.at <= previous.value.at
  {
    var rows := AllRows(sorted, l.typeId);
    forall r
      ensures Stored(c, l, anchor, others, r) <==> Offered(c, l, rows, r)
    {
      hide Stored, AllRows, Sort, Candidates;
      StoredMeansOffered(c, l, anchor, others, sorted, r);
    }
    if previous.Some? {
      var k :| 0 <= k < |rows| && FirstLatest(c, l, rows, k, previous.value);
      assert Offered(c, l, rows, previous.value);
    }
  }

  ghost predicate Offered<Row, Ident>(c: Contract<Row, Ident>, l: Locator<Ident>, rows: seq<Row>,
                                      reading: Reading<Row>) {
    exists k :: 0 <= k < |rows| && ReadingOf(c, l, rows[k]) == Some(reading)
  }

  lemma {:induction false} OfferedBySegment<Row, Ident>(c: Contract<Row, Ident>, l: Locator<Ident>,
                                        segments: seq<Segment<Row>>,
                                                            reading: Reading<Row>)
    ensures Offered(c, l, AllRows(segments, l.typeId), reading)
       <==> exists i :: 0 <= i < |segments| && StoredIn(c, l, segments[i], reading)
  {
    if segments == [] {
    } else {
      var n := |segments| - 1;
      var init := segments[..n];
      OfferedBySegment(c, l, init, reading);
      var a, b := AllRows(init, l.typeId), Rows(segments[n].parts, l.typeId);
      OfferedByEither(c, l, a, b, reading);
      assert forall i :: 0 <= i < n ==> init[i] == segments[i];
      if StoredIn(c, l, segments[n], reading) { assert Offered(c, l, b, reading); }
    }
  }

  lemma {:induction false} OfferedByEither<Row, Ident>(c: Contract<Row, Ident>, l: Locator<Ident>, a: seq<Row>,
                                        b: seq<Row>, reading: Reading<Row>)
    ensures Offered(c, l, a + b, reading) <==> Offered(c, l, a, reading) || Offered(c, l, b, reading)
  {
    if Offered(c, l, b, reading) {
      var k :| 0 <= k < |b| && ReadingOf(c, l, b[k]) == Some(reading);
      assert (a + b)[|a| + k] == b[k];
    }
    if Offered(c, l, a, reading) {
      var k :| 0 <= k < |a| && ReadingOf(c, l, a[k]) == Some(reading);
      assert (a + b)[k] == a[k];
    }
  }

  lemma {:induction false} StoredMeansOffered<Row, Ident>(c: Contract<Row, Ident>, l: Locator<Ident>,
                                        anchor: Segment<Row>, others: seq<Segment<Row>>,
                                           sorted: seq<Segment<Row>>, reading: Reading<Row>)
    requires sorted == Sort(Candidates(anchor, others, l.typeId), NewestSegmentFirst)
    ensures Stored(c, l, anchor, others, reading) <==> Offered(c, l, AllRows(sorted, l.typeId), reading)
  {
    hide Offered, AllRows;
    OfferedBySegment(c, l, sorted, reading);
    if Stored(c, l, anchor, others, reading) {
      if StoredIn(c, l, anchor, reading) {
        StoredInCandidate(c, l, anchor, others, sorted, anchor, reading);
      } else {
        var i :| 0 <= i < |others| && others[i].id <= anchor.id && StoredIn(c, l, others[i], reading);
        StoredInCandidate(c, l, anchor, others, sorted, others[i], reading);
      }
    }
    if exists i :: 0 <= i < |sorted| && StoredIn(c, l, sorted[i], reading) {
      var i :| 0 <= i < |sorted| && StoredIn(c, l, sorted[i], reading);
      var s := sorted[i];
      SortMember(Candidates(anchor, others, l.typeId), NewestSegmentFirst, s);
      NotAfterMembers(anchor.id, others, l.typeId, s);
      if s != anchor {
        var j :| 0 <= j < |others| && others[j] == s;
      }
    }
  }

  lemma {:induction false} StoredInCandidate<Row, Ident>(c: Contract<Row, Ident>, l: Locator<Ident>,
                                        anchor: Segment<Row>, others: seq<Segment<Row>>,
                                          sorted: seq<Segment<Row>>, s: Segment<Row>, reading: Reading<Row>)
    requires sorted == Sort(Candidates(anchor, others, l.typeId), NewestSegmentFirst)
    requires s == anchor || (s in others && s.id <= anchor.id)
    requires StoredIn(c, l, s, reading)
    ensures exists i :: 0 <= i < |sorted| && StoredIn(c, l, sorted[i], reading)
  {
    if !Present(s.parts, l.typeId) { AbsentMeansNoRows(s.parts, l.typeId); }
    NotAfterMembers(anchor.id, others, l.typeId, s);
    SortMember(Candidates(anchor, others, l.typeId), NewestSegmentFirst, s);
    var i :| 0 <= i < |sorted| && sorted[i] == s;
  }
}
