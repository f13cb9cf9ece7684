/** The nearest recorded sample at least one second away, found without opening every segment
    (crates/kronika-query/src/snapshot_neighbor.rs). */
module Neighbor {
  import opened Machine
  import opened Journal
  import opened Ordering
  import opened Discovery

  const MIN_STEP: int := 1_000_000

  datatype Direction = Next | Previous

  /** Optional inclusive bounds. */
  datatype Window = Window(from: Option<i64>, to: Option<i64>) {
    predicate Admits(t: i64) {
      (from.Some? ==> t >= from.value) && (to.Some? ==> t <= to.value)
    }
  }

  datatype Request = Request(at: i64, window: Window, direction: Direction)

  function Checked(t: int): Option<i64> {
    if I64_MIN <= t <= I64_MAX then Some(t) else None
  }

  function Shifted(request: Request): Option<Window> {
    match request.direction
    case Next =>
      (match Checked(request.at + MIN_STEP)
       case None => None
       case Some(after) =>
         var from := if request.window.from.Some? then Later(request.window.from.value, after) else after;
         Some(request.window.(from := Some(from))))
    case Previous =>
      (match Checked(request.at - MIN_STEP)
       case None => None
       case Some(before) =>
         var to := if request.window.to.Some? then Sooner(request.window.to.value, before) else before;
         Some(request.window.(to := Some(to))))
  }

  function SearchWindow(request: Request): Option<Window> {
    match Shifted(request)
    case None => None
    case Some(w) => if w.from.Some? && w.to.Some? && w.from.value > w.to.value then None else Some(w)
  }

  /** Instants the request asks about: in its window and at least one second away from `at`. */
  predicate Reachable(request: Request, t: i64) {
    && request.window.Admits(t)
    && match request.direction
       case Next => t >= request.at + MIN_STEP
       case Previous => t <= request.at - MIN_STEP
  }

  /** The search window holds exactly those instants, and it is absent exactly when there are none. */
  lemma {:induction false} SearchWindowIsExact(request: Request)
    ensures match SearchWindow(request)
            case Some(w) => forall t: i64 :: w.Admits(t) <==> Reachable(request, t)
            case None => forall t: i64 :: !Reachable(request, t)
    ensures SearchWindow(request).Some? <==> exists t: i64 :: Reachable(request, t)
  {
    if SearchWindow(request).Some? {
      var w := SearchWindow(request).value;
      var t: i64 := if w.from.Some? then w.from.value else w.to.value;
      assert w.Admits(t);
    }
  }

  // ----- samples -----

  /** What is searched: the layouts of the wanted sections and how to read a row's timestamp. */
  datatype Search<!Row> = Search(layouts: set<nat>, stamp: (nat, Row) -> Option<i64>, direction: Direction)

  datatype Sample = Sample(at: i64, id: int)

  predicate Closer(direction: Direction, a: i64, b: i64) {
    match direction
    case Next => a < b
    case Previous => a > b
  }

  predicate Preferred(direction: Direction, a: Sample, b: Sample) {
    Closer(direction, a.at, b.at) || (a.at == b.at && a.id > b.id)
  }

  function SampleOf<Row>(search: Search<Row>, window: Window, s: Segment<Row>, typeId: nat,
                         row: Row): Option<Sample> {
    match search.stamp(typeId, row)
    case Some(at) => if window.Admits(at) then Some(Sample(at, s.id)) else None
    case None => None
  }

  /** The first `n` rows of one section contain the sample. */
  ghost predicate InRows<Row>(search: Search<Row>, window: Window, s: Segment<Row>, typeId: nat, n: nat,
                              sample: Sample) {
    exists k :: 0 <= k < n && k < |Rows(s.parts, typeId)|
             && SampleOf(search, window, s, typeId, Rows(s.parts, typeId)[k]) == Some(sample)
  }

  ghost predicate InSections<Row>(search: Search<Row>, window: Window, s: Segment<Row>, types: set<nat>,
                                  sample: Sample) {
    exists t :: t in types && InRows(search, window, s, t, |Rows(s.parts, t)|, sample)
  }

  /** Some row of a searched layout, in one of the segments, is this in-window sample. */
  ghost predicate Recorded<Row>(search: Search<Row>, window: Window, segments: seq<Segment<Row>>, sample: Sample) {
    exists i :: 0 <= i < |segments| && InSections(search, window, segments[i], search.layouts, sample)
  }

  /** `best` is the preferred member of a set of samples. */
  ghost predicate IsBest(direction: Direction, samples: iset<Sample>, best: Option<Sample>) {
    match best
    case None => samples == iset{}
    case Some(b) => b in samples && forall o :: o in samples ==> !Preferred(direction, o, b)
  }

  /** Rows carry timestamps inside the bounds their segment declares. */
  ghost predicate WithinBounds<Row>(search: Search<Row>, s: Segment<Row>) {
    forall t, k :: t in search.layouts && 0 <= k < |Rows(s.parts, t)| && search.stamp(t, Rows(s.parts, t)[k]).Some?
      ==> s.minTs <= search.stamp(t, Rows(s.parts, t)[k]).value <= s.maxTs
  }

  lemma {:induction false} SampleWithinBounds<Row>(search: Search<Row>, window: Window, s: Segment<Row>,
                                        sample: Sample)
    requires WithinBounds(search, s) && InSections(search, window, s, search.layouts, sample)
    ensures s.minTs <= sample.at <= s.maxTs && window.Admits(sample.at) && sample.id == s.id
  {
    var t :| t in search.layouts && InRows(search, window, s, t, |Rows(s.parts, t)|, sample);
    var k :| 0 <= k < |Rows(s.parts, t)| && SampleOf(search, window, s, t, Rows(s.parts, t)[k]) == Some(sample);
  }

  // ----- the exhaustive comparison, one set at a time -----

  ghost function RowSamples<Row>(search: Search<Row>, window: Window, s: Segment<Row>, typeId: nat,
                                 n: nat): iset<Sample> {
    iset sample | InRows(search, window, s, typeId, n, sample)
  }

  ghost function SectionSamples<Row>(search: Search<Row>, window: Window, s: Segment<Row>,
                                     types: set<nat>): iset<Sample> {
    iset sample | InSections(search, window, s, types, sample)
  }

  ghost function Samples<Row>(search: Search<Row>, window: Window, segments: seq<Segment<Row>>): iset<Sample> {
    iset sample | Recorded(search, window, segments, sample)
  }

  function Choose(direction: Direction, selected: Option<Sample>, found: Option<Sample>): Option<Sample> {
    if found.Some? && (selected.None? || Preferred(direction, found.value, selected.value)) then found else selected
  }

  lemma {:induction false} ChooseBest(direction: Direction, before: iset<Sample>, selected: Option<Sample>,
                                      found: Option<Sample>, after: iset<Sample>)
    requires IsBest(direction, before, selected)
    requires after == before + if found.Some? then iset{found.value} else iset{}
    ensures IsBest(direction, after, Choose(direction, selected, found))
  {
  }

  method ScanSection<Row>(search: Search<Row>, window: Window, s: Segment<Row>, typeId: nat,
                          selected: Option<Sample>, ghost before: iset<Sample>)
    returns (best: Option<Sample>)
    requires IsBest(search.direction, before, selected)
    ensures IsBest(search.direction, before + RowSamples(search, window, s, typeId, |Rows(s.parts, typeId)|), best)
  {
    best := selected;
    var rows := Rows(s.parts, typeId);
    assert before + RowSamples(search, window, s, typeId, 0) == before;
    for k := 0 to |rows|
      invariant IsBest(search.direction, before + RowSamples(search, window, s, typeId, k), best)
    {
      var found := SampleOf(search, window, s, typeId, rows[k]);
      OneMoreRow(search, window, s, typeId, k);
      ghost var grown := before + RowSamples(search, window, s, typeId, k + 1);
      assert grown == before + RowSamples(search, window, s, typeId, k)
                      + if found.Some? then iset{found.value} else iset{};
      ChooseBest(search.direction, before + RowSamples(search, window, s, typeId, k), best, found, grown);
      best := Choose(search.direction, best, found);
    }
  }

  lemma {:induction false} OneMoreRow<Row>(search: Search<Row>, window: Window, s: Segment<Row>, typeId: nat, k: nat)
    requires k < |Rows(s.parts, typeId)|
    ensures var found := SampleOf(search, window, s, typeId, Rows(s.parts, typeId)[k]);
            RowSamples(search, window, s, typeId, k + 1)
            == RowSamples(search, window, s, typeId, k) + if found.Some? then iset{found.value} else iset{}
  {
  }

  /** Visits the segment's searched sections, in whatever order its catalog lists them. */
  method ScanSegment<Row>(search: Search<Row>, window: Window, s: Segment<Row>,
                          selected: Option<Sample>, ghost before: iset<Sample>)
    returns (best: Option<Sample>)
    requires ValidParts(s.parts) && IsBest(search.direction, before, selected)
    ensures IsBest(search.direction, before + SectionSamples(search, window, s, search.layouts), best)
  {
    hide IsBest, SectionSamples, RowSamples, Rows, Present;
    best := selected;
    var sections := SectionsOf(s.parts);
    var left := set t | t in search.layouts && t in sections;
    ghost var listed, done: set<nat> := left, {};
    NoSections(search, window, s, before);
    while left != {}
      invariant done + left == listed
      invariant IsBest(search.direction, before + SectionSamples(search, window, s, done), best)
      decreases left
    {
      var t :| t in left;
      OneMoreSection(search, window, s, before, done, t);
      best := ScanSection(search, window, s, t, best, before + SectionSamples(search, window, s, done));
      left, done := left - {t}, done + {t};
    }
    assert done == listed;
    UnlistedSectionsAreEmpty(search, window, s, done, sections);
  }

  lemma {:induction false} OneMoreSection<Row>(search: Search<Row>, window: Window, s: Segment<Row>,
                                        before: iset<Sample>,
                            types: set<nat>, t: nat)
    ensures before + SectionSamples(search, window, s, types + {t})
         == (before + SectionSamples(search, window, s, types)) + RowSamples(search, window, s, t, |Rows(s.parts, t)|)
  {
    assert SectionSamples(search, window, s, types + {t})
        == SectionSamples(search, window, s, types) + RowSamples(search, window, s, t, |Rows(s.parts, t)|);
  }

  lemma {:induction false} NoSections<Row>(search: Search<Row>, window: Window, s: Segment<Row>, before: iset<Sample>)
    ensures before + SectionSamples(search, window, s, {}) == before
  {
  }

  lemma {:induction false} UnlistedSectionsAreEmpty<Row>(search: Search<Row>, window: Window, s: Segment<Row>,
                                        done: set<nat>, sections: map<nat, nat>)
    requires done == set t | t in search.layouts && t in sections
    requires forall t :: t in sections <==> Present(s.parts, t)
    ensures SectionSamples(search, window, s, done) == SectionSamples(search, window, s, search.layouts)
  {
    forall t | t in search.layouts && t !in sections
      ensures Rows(s.parts, t) == []
    {
      AbsentMeansNoRows(s.parts, t);
    }
  }

  // ----- the pruned search -----

  /** Nearest possible segment first. */
  function Approach<Row>(direction: Direction): Segment<Row> -> Key {
    (s: Segment<Row>) => match direction
      case Next => Key(s.minTs, -s.id, 0)
      case Previous => Key(-(s.maxTs as int), -s.id, 0)
  }

  predicate Beyond<Row>(direction: Direction, s: Segment<Row>, at: i64) {
    match direction
    case Next => s.minTs > at
    case Previous => s.maxTs < at
  }

  lemma {:induction false} OneMoreSegment<Row>(search: Search<Row>, window: Window, segments: seq<Segment<Row>>,
                                        i: nat)
    requires i < |segments|
    ensures Samples(search, window, segments[..i + 1])
         == Samples(search, window, segments[..i]) + SectionSamples(search, window, segments[i], search.layouts)
  {
    var now, later := segments[..i], segments[..i + 1];
    forall sample
      ensures Recorded(search, window, later, sample)
         <==> Recorded(search, window, now, sample) || InSections(search, window, segments[i], search.layouts, sample)
    {
      if Recorded(search, window, now, sample) {
        var j :| 0 <= j < |now| && InSections(search, window, now[j], search.layouts, sample);
        assert later[j] == now[j];
      }
      if InSections(search, window, segments[i], search.layouts, sample) {
        assert later[i] == segments[i];
      }
    }
  }

  /** Once the next segment lies beyond the chosen sample, so does everything after it. */
  lemma {:induction false} NothingPreferredBeyond<Row>(search: Search<Row>, window: Window,
                                        segments: seq<Segment<Row>>, i: nat, best: Sample)
    requires i < |segments| && Sorted(segments, Approach(search.direction))
    requires forall k :: 0 <= k < |segments| ==> WithinBounds(search, segments[k])
    requires Beyond(search.direction, segments[i], best.at)
    requires IsBest(search.direction, Samples(search, window, segments[..i]), Some(best))
    ensures IsBest(search.direction, Samples(search, window, segments), Some(best))
  {
    hide InSections, WithinBounds;
    forall sample | Recorded(search, window, segments, sample)
      ensures !Preferred(search.direction, sample, best)
    {
      var j :| 0 <= j < |segments| && InSections(search, window, segments[j], search.layouts, sample);
      if j < i {
        assert segments[..i][j] == segments[j];
        assert sample in Samples(search, window, segments[..i]);
      } else {
        BeyondFromHere(search, segments, i, j, best.at);
        SampleWithinBounds(search, window, segments[j], sample);
      }
    }
    var j :| 0 <= j < |segments[..i]| && InSections(search, window, segments[..i][j], search.layouts, best);
    assert segments[..i][j] == segments[j];
  }

  lemma {:induction false} BeyondFromHere<Row>(search: Search<Row>, segments: seq<Segment<Row>>, i: nat, j: nat,
                                        at: i64)
    requires i <= j < |segments| && Sorted(segments, Approach(search.direction))
    requires Beyond(search.direction, segments[i], at)
    ensures Beyond(search.direction, segments[j], at)
  {
    var key := Approach(search.direction);
    assert j > i ==> !Less(key(segments[j]), key(segments[i]));
  }

  lemma {:induction false} NoSegments<Row>(search: Search<Row>, window: Window, segments: seq<Segment<Row>>)
    ensures Samples(search, window, segments[..0]) == iset{}
  {
  }

  method ScanCandidates<Row>(search: Search<Row>, window: Window, candidates: seq<Segment<Row>>)
    returns (selected: Option<Sample>)
    requires Sorted(candidates, Approach(search.direction))
    requires forall k :: 0 <= k < |candidates| ==>
               WithinBounds(search, candidates[k]) && ValidParts(candidates[k].parts)
    ensures IsBest(search.direction, Samples(search, window, candidates), selected)
  {
    hide WithinBounds, Approach, Beyond, ValidParts, SectionSamples, Recorded;
    selected := None;
    var i := 0;
    NoSegments(search, window, candidates);
    while i < |candidates|
      invariant i <= |candidates|
      invariant IsBest(search.direction, Samples(search, window, candidates[..i]), selected)
    {
      if selected.Some? && Beyond(search.direction, candidates[i], selected.value.at) {
        NothingPreferredBeyond(search, window, candidates, i, selected.value);
        return;
      }
      OneMoreSegment(search, window, candidates, i);
      selected := ScanSegment(search, window, candidates[i], selected, Samples(search, window, candidates[..i]));
      i := i + 1;
    }
    assert candidates[..i] == candidates;
  }

  function RangeOf(window: Window): Range {
    Range(if window.from.Some? then Included(window.from.value) else Unbounded,
          if window.to.Some? then Included(window.to.value) else Unbounded)
  }

  /** Samples the request asks about, over every stored segment. */
  ghost predicate Wanted<Row>(search: Search<Row>, request: Request, all: seq<Segment<Row>>, sample: Sample) {
    Recorded(search, Window(None, None), all, sample) && Reachable(request, sample.at)
  }

  ghost function WantedSamples<Row>(search: Search<Row>, request: Request, all: seq<Segment<Row>>): iset<Sample> {
    iset sample | Wanted(search, request, all, sample)
  }

  /** Row `k` of a searched layout in segment `i` has an instant in the request's window and at least
      one second beyond the one asked about. */
  ghost predicate IsWanted<Row>(search: Search<Row>, request: Request, all: seq<Segment<Row>>, i: nat, t: nat,
                                k: nat, at: i64)
  {
    && i < |all| && t in search.layouts && k < |Rows(all[i].parts, t)|
    && search.stamp(t, Rows(all[i].parts, t)[k]) == Some(at)
    && (request.window.from.Some? ==> request.window.from.value <= at)
    && (request.window.to.Some? ==> at <= request.window.to.value)
    && match request.direction case Next => request.at + 1_000_000 <= at case Previous => at + 1_000_000 <= request.at
  }

  /** The answer is the wanted instant nearest to the one asked about, from the segment with the
      greatest id that has it; there is none exactly when no row is wanted. */
  lemma {:induction false} AnswerIsNearest<Row>(search: Search<Row>, request: Request, all: seq<Segment<Row>>,
                                                selected: Option<Sample>)
    requires IsBest(request.direction, WantedSamples(search, request, all), selected)
    ensures selected.None? <==> forall i: nat, t: nat, k: nat, at: i64 :: !IsWanted(search, request, all, i, t, k, at)
    ensures selected.Some? ==>
              exists i: nat, t: nat, k: nat :: IsWanted(search, request, all, i, t, k, selected.value.at)
                                && all[i].id == selected.value.id
    ensures selected.Some? ==>
              forall i: nat, t: nat, k: nat, at: i64 :: IsWanted(search, request, all, i, t, k, at) ==>
                if at == selected.value.at then all[i].id <= selected.value.id
                else if request.direction == Next then selected.value.at < at else at < selected.value.at
  {
    forall i: nat, t: nat, k: nat, at: i64 | IsWanted(search, request, all, i, t, k, at)
      ensures Sample(at, all[i].id) in WantedSamples(search, request, all)
    {
      WantedIsRecorded(search, request, all, i, t, k, at);
    }
    if selected.Some? {
      var i, t, k := RecordedIsWanted(search, request, all, selected.value);
    }
  }

  lemma {:induction false} WantedIsRecorded<Row>(search: Search<Row>, request: Request, all: seq<Segment<Row>>, i: nat,
                                                 t: nat, k: nat, at: i64)
    requires IsWanted(search, request, all, i, t, k, at)
    ensures Sample(at, all[i].id) in WantedSamples(search, request, all)
  {
    assert Reachable(request, at);
    var w := Window(None, None);
    assert SampleOf(search, w, all[i], t, Rows(all[i].parts, t)[k]) == Some(Sample(at, all[i].id));
    assert InRows(search, w, all[i], t, |Rows(all[i].parts, t)|, Sample(at, all[i].id));
    assert InSections(search, w, all[i], search.layouts, Sample(at, all[i].id));
    assert Recorded(search, w, all, Sample(at, all[i].id));
  }

  lemma {:induction false} RecordedIsWanted<Row>(search: Search<Row>, request: Request, all: seq<Segment<Row>>,
                                                 sample: Sample)
    returns (i: nat, t: nat, k: nat)
    requires sample in WantedSamples(search, request, all)
    ensures IsWanted(search, request, all, i, t, k, sample.at) && all[i].id == sample.id
  {
    var w := Window(None, None);
    i :| 0 <= i < |all| && InSections(search, w, all[i], search.layouts, sample);
    t :| t in search.layouts && InRows(search, w, all[i], t, |Rows(all[i].parts, t)|, sample);
    k :| 0 <= k < |Rows(all[i].parts, t)| && SampleOf(search, w, all[i], t, Rows(all[i].parts, t)[k]) == Some(sample);
  }

  method Select<Row>(search: Search<Row>, request: Request, listed: seq<Segment<Row>>, ghost all: seq<Segment<Row>>)
    returns (selected: Option<Sample>)
    requires search.direction == request.direction
    requires forall s :: s in all ==> WithinBounds(search, s) && ValidParts(s.parts)
    requires forall s :: s in listed ==> s in all
    requires SearchWindow(request).Some? ==>
               forall s :: s in all && Overlaps(RangeOf(SearchWindow(request).value), s.minTs, s.maxTs) ==> s in listed
    ensures IsBest(request.direction, WantedSamples(search, request, all), selected)
  {
    var window := SearchWindow(request);
    SearchWindowIsExact(request);
    if window.None? {
      return None;
    }
    if search.layouts == {} {
      return None;
    }
    var candidates := [];
    for i := 0 to |listed|
      invariant forall s :: s in candidates <==> s in listed[..i] && CarriesLayout(search, s)
    {
      var carries := HasSearchedRows(search, listed[i]);
      assert listed[..i + 1] == listed[..i] + [listed[i]];
      if carries {
        candidates := candidates + [listed[i]];
      }
    }
    assert listed[..|listed|] == listed;
    selected := NearestFirst(search, window.value, request, candidates, listed, all);
  }

  method NearestFirst<Row>(search: Search<Row>, window: Window, ghost request: Request, candidates: seq<Segment<Row>>,
                           ghost listed: seq<Segment<Row>>, ghost all: seq<Segment<Row>>)
    returns (selected: Option<Sample>)
    requires search.direction == request.direction && SearchWindow(request) == Some(window)
    requires forall s :: s in all ==> WithinBounds(search, s) && ValidParts(s.parts)
    requires forall s :: s in listed ==> s in all
    requires forall s :: s in all && Overlaps(RangeOf(window), s.minTs, s.maxTs) ==> s in listed
    requires forall s :: s in candidates <==> s in listed && CarriesLayout(search, s)
    ensures IsBest(request.direction, WantedSamples(search, request, all), selected)
  {
    var key := Approach(search.direction);
    SortSorts(candidates, key);
    SortMembers(candidates, key);
    var sorted := Sort(candidates, key);
    forall k | 0 <= k < |sorted|
      ensures WithinBounds(search, sorted[k]) && ValidParts(sorted[k].parts)
    {
      SortMember(candidates, key, sorted[k]);
    }
    CandidatesSuffice(search, request, sorted, listed, all);
    selected := ScanCandidates(search, window, sorted);
  }

  /** A sample seen through one window is seen through another that admits its instant. */
  lemma {:induction false} SameSample<Row>(search: Search<Row>, a: Window, b: Window, s: Segment<Row>, sample: Sample)
    requires InSections(search, a, s, search.layouts, sample) && b.Admits(sample.at)
    ensures InSections(search, b, s, search.layouts, sample) && a.Admits(sample.at) && CarriesLayout(search, s)
  {
    var t :| t in search.layouts && InRows(search, a, s, t, |Rows(s.parts, t)|, sample);
    var rows := Rows(s.parts, t);
    var k :| 0 <= k < |rows| && SampleOf(search, a, s, t, rows[k]) == Some(sample);
    assert SampleOf(search, b, s, t, rows[k]) == Some(sample);
    assert InRows(search, b, s, t, |rows|, sample);
  }

  lemma {:induction false} RecordedIn<Row>(search: Search<Row>, window: Window, segments: seq<Segment<Row>>,
                                        s: Segment<Row>, sample: Sample)
    requires s in segments && InSections(search, window, s, search.layouts, sample)
    ensures Recorded(search, window, segments, sample)
  {
    var i :| 0 <= i < |segments| && segments[i] == s;
    assert InSections(search, window, segments[i], search.layouts, sample);
  }

  lemma {:induction false} CandidateIsWanted<Row>(search: Search<Row>, request: Request, w: Window,
                                        segments: seq<Segment<Row>>,
                               all: seq<Segment<Row>>, sample: Sample)
    requires SearchWindow(request) == Some(w)
    requires forall s :: s in segments ==> s in all
    requires Recorded(search, w, segments, sample)
    ensures Wanted(search, request, all, sample)
  {
    var i :| 0 <= i < |segments| && InSections(search, w, segments[i], search.layouts, sample);
    SameSample(search, w, Window(None, None), segments[i], sample);
    assert segments[i] in segments;
    RecordedIn(search, Window(None, None), all, segments[i], sample);
    SearchWindowIsExact(request);
  }

  lemma {:induction false} WantedIsCandidate<Row>(search: Search<Row>, request: Request, w: Window,
                                        segments: seq<Segment<Row>>,
                               all: seq<Segment<Row>>, sample: Sample)
    requires SearchWindow(request) == Some(w) && Wanted(search, request, all, sample)
    requires forall s :: s in all ==> WithinBounds(search, s)
    requires forall s :: s in all && Overlaps(RangeOf(w), s.minTs, s.maxTs) && CarriesLayout(search, s) ==>
               s in segments
    ensures Recorded(search, w, segments, sample)
  {
    var every := Window(None, None);
    var i :| 0 <= i < |all| && InSections(search, every, all[i], search.layouts, sample);
    var s := all[i];
    assert s in all;
    SampleWithinBounds(search, every, s, sample);
    SearchWindowIsExact(request);
    assert w.Admits(sample.at);
    SameSample(search, every, w, s, sample);
    OverlapsIsASharedInstant(RangeOf(w), s.minTs, s.maxTs);
    assert Contains(RangeOf(w), sample.at);
    RecordedIn(search, w, segments, s, sample);
  }

  /** Segments outside the listing, or without searched rows, hold no sample asked for. */
  lemma {:induction false} CandidatesSuffice<Row>(search: Search<Row>, request: Request, sorted: seq<Segment<Row>>,
                               listed: seq<Segment<Row>>, all: seq<Segment<Row>>)
    requires SearchWindow(request).Some?
    requires forall s :: s in all ==> WithinBounds(search, s)
    requires forall s :: s in listed ==> s in all
    requires forall s :: s in all && Overlaps(RangeOf(SearchWindow(request).value), s.minTs, s.maxTs) ==> s in listed
    requires forall s :: s in sorted <==> s in listed && CarriesLayout(search, s)
    ensures Samples(search, SearchWindow(request).value, sorted) == WantedSamples(search, request, all)
  {
    hide SearchWindow, WithinBounds, Overlaps, CarriesLayout, Recorded, Wanted;
    var w := SearchWindow(request).value;
    forall sample
      ensures Recorded(search, w, sorted, sample) <==> Wanted(search, request, all, sample)
    {
      if Recorded(search, w, sorted, sample) { CandidateIsWanted(search, request, w, sorted, all, sample); }
      if Wanted(search, request, all, sample) { WantedIsCandidate(search, request, w, sorted, all, sample); }
    }
  }

  ghost predicate CarriesLayout<Row>(search: Search<Row>, s: Segment<Row>) {
    exists t :: t in search.layouts && Rows(s.parts, t) != []
  }

  method HasSearchedRows<Row>(search: Search<Row>, s: Segment<Row>) returns (carries: bool)
    requires ValidParts(s.parts)
    ensures carries <==> CarriesLayout(search, s)
  {
    var sections := SectionsOf(s.parts);
    carries := exists t :: t in search.layouts && t in sections && sections[t] > 0;
    forall t | t in search.layouts && t !in sections
      ensures Rows(s.parts, t) == []
    {
      AbsentMeansNoRows(s.parts, t);
    }
  }
}
