/** Bounded retention of the earliest event occurrences (crates/kronika-query/src/events.rs). */
module Events {
  import opened Machine
  import opened Ordering

  /** One observed occurrence; `rank` is the position of its source in the query. */
  datatype Occurrence<+Row> = Occurrence(timestamp: int, rank: nat, row: Row)

  /** An occurrence with the number of earlier ones from its source. */
  datatype Keyed<+Row> = Keyed(occurrence: Occurrence<Row>, encounter: nat)

  function KeyOf<Row>(k: Keyed<Row>): Key {
    Key(k.occurrence.timestamp, k.occurrence.rank, k.encounter)
  }

  function SaturatingInc(n: nat, max: nat): nat {
    if n < max then n + 1 else n
  }

  function Capacity(limit: nat): nat {
    SaturatingInc(limit, USIZE_MAX)
  }

  /** Ordered-map insertion: an equal key is replaced. */
  function Put<Row>(rows: seq<Keyed<Row>>, x: Keyed<Row>): seq<Keyed<Row>> {
    if rows == [] || Less(KeyOf(x), KeyOf(rows[0])) then [x] + rows
    else if KeyOf(x) == KeyOf(rows[0]) then [x] + rows[1..]
    else [rows[0]] + Put(rows[1..], x)
  }

  function Take<T>(s: seq<T>, n: nat): seq<T> {
    if |s| <= n then s else s[..n]
  }

  // ----- the unbounded collection -----

  function FromSource<Row>(history: seq<Occurrence<Row>>, rank: nat): nat {
    if history == [] then 0
    else FromSource(history[..|history| - 1], rank) + if history[|history| - 1].rank == rank then 1 else 0
  }

  /** Every observation with its encounter number, in arrival order. */
  function AllKeyed<Row>(history: seq<Occurrence<Row>>): (r: seq<Keyed<Row>>)
    ensures |r| == |history|
  {
    if history == [] then []
    else
      var before, last := history[..|history| - 1], history[|history| - 1];
      AllKeyed(before) + [Keyed(last, FromSource(before, last.rank))]
  }

  /** All observations by timestamp, then source rank, then arrival within the source. */
  function InOrder<Row>(history: seq<Occurrence<Row>>): (r: seq<Keyed<Row>>)
    ensures |r| == |history|
  {
    Sort(AllKeyed(history), KeyOf)
  }

  /** Fewer observations than the counters can number. */
  ghost predicate Countable<Row>(history: seq<Occurrence<Row>>) {
    |history| <= U64_MAX
  }

  lemma {:induction false} FromSourceBound<Row>(history: seq<Occurrence<Row>>, rank: nat)
    ensures FromSource(history, rank) <= |history|
  {
    if history == [] {
    } else {
      FromSourceBound(history[..|history| - 1], rank);
    }
  }

  /** Encounter numbers of one source stay below its count. */
  lemma {:induction false} EncountersBelow<Row>(history: seq<Occurrence<Row>>, i: nat)
    requires i < |history|
    ensures AllKeyed(history)[i].occurrence == history[i]
    ensures AllKeyed(history)[i].encounter < FromSource(history, history[i].rank)
  {
    var n := |history| - 1;
    if i >= n {
    } else {
      EncountersBelow(history[..n], i);
    }
  }

  lemma {:induction false} KeysAreDistinct<Row>(history: seq<Occurrence<Row>>)
    ensures DistinctKeys(AllKeyed(history), KeyOf)
  {
    if history == [] {
    } else {
      var n := |history| - 1;
      var before := history[..n];
      KeysAreDistinct(before);
      forall i | 0 <= i < n
        ensures KeyOf(AllKeyed(history)[i]) != KeyOf(AllKeyed(history)[n])
      {
        EncountersBelow(before, i);
        assert AllKeyed(history)[i] == AllKeyed(before)[i];
      }
    }
  }

  lemma {:induction false} PutIsInsert<Row>(rows: seq<Keyed<Row>>, x: Keyed<Row>)
    requires forall i :: 0 <= i < |rows| ==> KeyOf(rows[i]) != KeyOf(x)
    ensures Put(rows, x) == Insert(x, rows, KeyOf)
  {
    if rows == [] {
    } else {
      PutIsInsert(rows[1..], x);
    }
  }

  /** Inserting at or after the cut leaves the first `n` alone. */
  lemma {:induction false} InsertBeyond<T>(x: T, s: seq<T>, key: T -> Key, n: nat)
    requires 0 < n <= |s| && !Less(key(x), key(s[n - 1])) && Sorted(s, key)
    ensures Insert(x, s, key)[..n] == s[..n]
  {
    assert n > 1 ==> !Less(key(s[n - 1]), key(s[0]));
    if n > 1 {
      InsertBeyond(x, s[1..], key, n - 1);
      assert Insert(x, s, key)[..n] == [s[0]] + Insert(x, s[1..], key)[..n - 1];
    }
    assert s[..n] == [s[0]] + s[1..][..n - 1];
  }

  /** Inserting before the cut pushes exactly the last one out. */
  lemma {:induction false} InsertWithin<T>(x: T, s: seq<T>, key: T -> Key, n: nat)
    requires 0 < n <= |s| && Less(key(x), key(s[n - 1]))
    ensures Insert(x, s, key)[..n] == Insert(x, s[..n - 1], key)
  {
    var cut := s[..n - 1];
    if Less(key(x), key(s[0])) {
      assert ([x] + s)[..n] == [x] + cut;
    } else {
      InsertWithin(x, s[1..], key, n - 1);
      assert s[1..][..n - 2] == cut[1..];
      assert Insert(x, s, key)[..n] == [s[0]] + Insert(x, s[1..], key)[..n - 1];
    }
  }

  /** What one more observation does to the retained rows. */
  function Retain<Row>(rows: seq<Keyed<Row>>, x: Keyed<Row>, capacity: nat): seq<Keyed<Row>> {
    if |rows| != capacity || rows == [] then Put(rows, x)
    else if !Less(KeyOf(x), KeyOf(rows[|rows| - 1])) then rows
    else Put(rows[..|rows| - 1], x)
  }

  lemma {:induction false} RetainKeepsTheFirst<Row>(history: seq<Occurrence<Row>>, o: Occurrence<Row>, capacity: nat)
    requires capacity > 0
    ensures var x := Keyed(o, FromSource(history, o.rank));
            Retain(Take(InOrder(history), capacity), x, capacity) == Take(InOrder(history + [o]), capacity)
  {
    var now := history + [o];
    assert now[..|now| - 1] == history;
    var x := Keyed(o, FromSource(history, o.rank));
    var all, s := AllKeyed(now), InOrder(history);
    assert all == AllKeyed(history) + [x];
    assert all[..|all| - 1] == AllKeyed(history);
    assert InOrder(now) == Insert(x, s, KeyOf);
    NewKeyIsNew(history, o);
    SortSorts(AllKeyed(history), KeyOf);
    RetainInsert(s, x, capacity);
  }

  lemma {:induction false} RetainInsert<Row>(s: seq<Keyed<Row>>, x: Keyed<Row>, capacity: nat)
    requires capacity > 0 && Sorted(s, KeyOf)
    requires forall i :: 0 <= i < |s| ==> KeyOf(s[i]) != KeyOf(x)
    ensures Retain(Take(s, capacity), x, capacity) == Take(Insert(x, s, KeyOf), capacity)
  {
    hide Put, Insert, Less, Sorted;
    if |s| < capacity {
      PutIsInsert(s, x);
    } else if Less(KeyOf(x), KeyOf(s[capacity - 1])) {
      var cut := s[..capacity - 1];
      InsertWithin(x, s, KeyOf, capacity);
      assert s[..capacity][..capacity - 1] == cut && s[..capacity][capacity - 1] == s[capacity - 1];
      PutIsInsert(cut, x);
    } else {
      InsertBeyond(x, s, KeyOf, capacity);
    }
  }

  lemma {:induction false} NewKeyIsNew<Row>(history: seq<Occurrence<Row>>, o: Occurrence<Row>)
    ensures var x := Keyed(o, FromSource(history, o.rank));
            forall i :: 0 <= i < |InOrder(history)| ==> KeyOf(InOrder(history)[i]) != KeyOf(x)
  {
    var x := Keyed(o, FromSource(history, o.rank));
    var s := InOrder(history);
    forall i | 0 <= i < |s|
      ensures KeyOf(s[i]) != KeyOf(x)
    {
      SortMember(AllKeyed(history), KeyOf, s[i]);
      var j :| 0 <= j < |AllKeyed(history)| && AllKeyed(history)[j] == s[i];
      EncountersBelow(history, j);
    }
  }

  // ----- the accumulator -----

  class OccurrenceAccumulator<Row> {
    const limit: nat
    var encounters: seq<nat>
    var rows: seq<Keyed<Row>>
    ghost var history: seq<Occurrence<Row>>

    ghost predicate Valid()
      reads this
    {
      && limit <= USIZE_MAX
      && |rows| <= Capacity(limit)
      && (Countable(history) ==>
            && rows == Take(InOrder(history), Capacity(limit))
            && forall r :: 0 <= r < |encounters| ==> encounters[r] == FromSource(history, r))
    }

    constructor (limit: nat, sources: nat)
      requires limit <= USIZE_MAX
      ensures Valid() && history == [] && this.limit == limit && |encounters| == sources
    {
      this.limit := limit;
      encounters := seq(sources, _ => 0);
      rows := [];
      history := [];
    }

    method Observe(rank: nat, o: Occurrence<Row>)
      requires Valid() && rank < |encounters| && o.rank == rank
      modifies this
      ensures Valid() && history == old(history) + [o]
      ensures |encounters| == old(|encounters|)
      ensures |rows| <= limit + 1
    {
      var encounter := encounters[rank];
      var counts := encounters[rank := SaturatingInc(encounter, U64_MAX)];
      var key := Keyed(o, encounter);
      ghost var before := history;
      RetainSize(rows, key, Capacity(limit));
      if Countable(before + [o]) {
        RetainKeepsTheFirst(before, o, Capacity(limit));
        CountsFollow(before, o, encounters, counts);
      }
      encounters, history := counts, history + [o];
      var capacity := Capacity(limit);
      if |rows| == capacity {
        if !Less(KeyOf(key), KeyOf(rows[|rows| - 1])) {
          return;
        }
        rows := rows[..|rows| - 1];
      }
      rows := Put(rows, key);
    }

    /** The earliest `limit` of everything observed, and whether anything was left out. */
    method Finish() returns (occurrences: seq<Occurrence<Row>>, truncated: bool)
      requires Valid()
      ensures |occurrences| <= limit
      ensures Countable(history) ==> occurrences == Occurrences(Take(InOrder(history), limit))
      ensures Countable(history) ==> (truncated <==> |history| > limit)
    {
      truncated := |rows| > limit;
      TakeTwice(InOrder(history), Capacity(limit), limit);
      occurrences := Occurrences(Take(rows, limit));
    }
  }

  function Occurrences<Row>(rows: seq<Keyed<Row>>): (r: seq<Occurrence<Row>>)
    ensures |r| == |rows|
    ensures forall i :: 0 <= i < |r| ==> r[i] == rows[i].occurrence
  {
    if rows == [] then [] else [rows[0].occurrence] + Occurrences(rows[1..])
  }

  lemma {:induction false} TakeTwice<T>(s: seq<T>, n: nat, m: nat)
    requires m <= n
    ensures Take(Take(s, n), m) == Take(s, m)
  {
  }

  lemma {:induction false} PutSize<Row>(rows: seq<Keyed<Row>>, x: Keyed<Row>)
    ensures |Put(rows, x)| <= |rows| + 1
  {
    if rows == [] {
    } else {
      PutSize(rows[1..], x);
    }
  }

  lemma {:induction false} RetainSize<Row>(rows: seq<Keyed<Row>>, x: Keyed<Row>, capacity: nat)
    requires |rows| <= capacity && capacity > 0
    ensures |Retain(rows, x, capacity)| <= capacity
  {
    PutSize(rows, x);
    if |rows| > 0 { PutSize(rows[..|rows| - 1], x); }
  }

  lemma {:induction false} CountsFollow<Row>(history: seq<Occurrence<Row>>, o: Occurrence<Row>, encounters: seq<nat>,
                                        counts: seq<nat>)
    requires Countable(history + [o]) && o.rank < |encounters|
    requires forall r :: 0 <= r < |encounters| ==> encounters[r] == FromSource(history, r)
    requires counts == encounters[o.rank := SaturatingInc(encounters[o.rank], U64_MAX)]
    ensures forall r :: 0 <= r < |counts| ==> counts[r] == FromSource(history + [o], r)
  {
    assert (history + [o])[..|history|] == history;
    FromSourceBound(history, o.rank);
  }

  // ----- what the retained rows mean -----

  /** The earlier instant comes first, then the source asked first, then arrival. */
  predicate Earlier<Row>(a: Keyed<Row>, b: Keyed<Row>) {
    if a.occurrence.timestamp != b.occurrence.timestamp then a.occurrence.timestamp < b.occurrence.timestamp
    else if a.occurrence.rank != b.occurrence.rank then a.occurrence.rank < b.occurrence.rank
    else a.encounter < b.encounter
  }

  /** The order is by time upwards, so what is kept is earlier than whatever is left out. */
  lemma {:induction false} OrderIsByTime<Row>(history: seq<Occurrence<Row>>)
    ensures forall i, j :: 0 <= i < j < |history| ==> Earlier(InOrder(history)[i], InOrder(history)[j])
    ensures forall i, j :: 0 <= i < j < |history| ==>
              InOrder(history)[i].occurrence.timestamp <= InOrder(history)[j].occurrence.timestamp
  {
    FirstAreTheEarliest(history, |history|);
    forall i, j | 0 <= i < j < |history|
      ensures Earlier(InOrder(history)[i], InOrder(history)[j])
    {
      assert Less(KeyOf(InOrder(history)[i]), KeyOf(InOrder(history)[j]));
    }
  }

  /** The first `n` observations that come from this source. */
  function OfSource<Row>(history: seq<Occurrence<Row>>, n: nat, rank: nat): set<nat>
    requires n <= |history|
  {
    set i: nat | i < n && history[i].rank == rank
  }

  /** The encounter number counts the earlier observations of the same source. */
  lemma {:induction false} EncounterCounts<Row>(history: seq<Occurrence<Row>>, n: nat)
    requires n < |history|
    ensures AllKeyed(history)[n] == Keyed(history[n], |OfSource(history, n, history[n].rank)|)
  {
    var last := |history| - 1;
    if n < last {
      EncounterCounts(history[..last], n);
      assert OfSource(history[..last], n, history[n].rank) == OfSource(history, n, history[n].rank);
    } else {
      CountIsSize(history, last, history[last].rank);
    }
  }

  lemma {:induction false} CountIsSize<Row>(history: seq<Occurrence<Row>>, n: nat, rank: nat)
    requires n <= |history|
    ensures FromSource(history[..n], rank) == |OfSource(history, n, rank)|
  {
    if n == 0 {
      assert OfSource(history, 0, rank) == {};
    } else {
      CountIsSize(history, n - 1, rank);
      assert history[..n][..n - 1] == history[..n - 1];
      assert OfSource(history, n, rank)
          == OfSource(history, n - 1, rank) + if history[n - 1].rank == rank then {n - 1} else {};
    }
  }

  /** The first `limit` in order are `limit` of the observations, each before every one left out;
      occurrences of one source and instant keep their arrival order. */
  lemma {:induction false} FirstAreTheEarliest<Row>(history: seq<Occurrence<Row>>, limit: nat)
    requires limit <= |history|
    ensures multiset(InOrder(history)) == multiset(AllKeyed(history))
    ensures forall i, j :: 0 <= i < limit <= j < |history| ==>
              Less(KeyOf(InOrder(history)[i]), KeyOf(InOrder(history)[j]))
    ensures StrictlySorted(Take(InOrder(history), limit), KeyOf)
  {
    KeysAreDistinct(history);
    SortSorts(AllKeyed(history), KeyOf);
    SortStrict(AllKeyed(history), KeyOf);
  }

  /** Encounter numbers follow arrival within one source. */
  lemma {:induction false} EncountersFollowArrival<Row>(history: seq<Occurrence<Row>>, i: nat, j: nat)
    requires i < j < |history| && history[i].rank == history[j].rank
    ensures AllKeyed(history)[i].encounter < AllKeyed(history)[j].encounter
  {
    var n := |history| - 1;
    if j < n {
      EncountersFollowArrival(history[..n], i, j);
    } else {
      EncountersBelow(history[..n], i);
      assert AllKeyed(history)[i] == AllKeyed(history[..n])[i];
    }
  }
}
