/** Selecting the source groups whose collection intervals have elapsed
    (bins/kronika-collector/src/scheduler.rs, bins/kronika-collector/src/scheduler/sources.rs).
    Instants and durations are whole nanoseconds. */
module Scheduling {
  import opened Machine

  const SECOND: nat := 1_000_000_000
  const MIN_PG_STATEMENTS_INTERVAL_SECS: nat := 300

  datatype SourceKind =
    | OsCore | OsMountTopo | OsProcesses | OsProcessStatus | OsCgroup | OsCgroupMapping
    | Logs | PgActivity | PgInstance | PgTablesAndIndexes | PgStatementsAndPlans

  const ALL_SOURCES: seq<SourceKind> :=
    [OsCore, OsMountTopo, OsProcesses, OsProcessStatus, OsCgroup, OsCgroupMapping,
     Logs, PgActivity, PgInstance, PgTablesAndIndexes, PgStatementsAndPlans]

  datatype Source = Source(kind: SourceKind, interval: nat, lastRead: Option<nat>)

  datatype DueSet = DueSet(kinds: seq<SourceKind>, forced: bool) {
    predicate Has(kind: SourceKind) { kind in kinds }
  }

  /** The configured seconds of every group, and of activity while sessions are blocked. */
  datatype Intervals = Intervals(of: SourceKind -> nat, pgActivityBlocked: nat)

  function Since(now: nat, last: nat): nat { if now < last then 0 else now - last }

  // ----- which groups exist -----

  predicate Enabled(kind: SourceKind, collectOs: bool, collectCgroups: bool) {
    && (collectOs || kind in {Logs, PgActivity, PgInstance, PgTablesAndIndexes, PgStatementsAndPlans})
    && (collectCgroups || kind !in {OsCgroup, OsCgroupMapping})
  }

  function IntervalOf(intervals: Intervals, kind: SourceKind): nat {
    SECOND * if kind == PgStatementsAndPlans then Max(intervals.of(kind), MIN_PG_STATEMENTS_INTERVAL_SECS)
             else intervals.of(kind)
  }

  function Initial(intervals: Intervals, collectOs: bool, collectCgroups: bool, kinds: seq<SourceKind>): seq<Source> {
    if kinds == [] then []
    else
      var last := kinds[|kinds| - 1];
      Initial(intervals, collectOs, collectCgroups, kinds[..|kinds| - 1])
      + if Enabled(last, collectOs, collectCgroups) then [Source(last, IntervalOf(intervals, last), None)] else []
  }

  lemma {:induction false} InitialNone(intervals: Intervals, collectOs: bool, collectCgroups: bool)
    ensures Initial(intervals, collectOs, collectCgroups, ALL_SOURCES[..0]) == []
  {
  }

  lemma {:induction false} InitialNext(intervals: Intervals, collectOs: bool, collectCgroups: bool, i: nat)
    requires i < |ALL_SOURCES|
    ensures var kind := ALL_SOURCES[i];
            Initial(intervals, collectOs, collectCgroups, ALL_SOURCES[..i + 1])
            == Initial(intervals, collectOs, collectCgroups, ALL_SOURCES[..i])
               + if Enabled(kind, collectOs, collectCgroups)
                 then [Source(kind, IntervalOf(intervals, kind), None)] else []
  {
    assert ALL_SOURCES[..i + 1][..i] == ALL_SOURCES[..i];
  }

  // ----- one step of each operation, per source -----

  predicate Elapsed(s: Source, now: nat) {
    s.lastRead.None? || Since(now, s.lastRead.value) >= s.interval
  }

  predicate Due(s: Source, now: nat, force: bool) {
    (force && s.kind != PgStatementsAndPlans) || Elapsed(s, now)
  }

  datatype Cadence = Cadence(ordinary: nat, blocked: nat)

  datatype Op =
    | Plan(now: nat, force: bool)
    | FinishPostgres(due: DueSet, blocking: Option<bool>, now: nat)
    | MarkSegmentOpened
    | Recollect(due: DueSet, now: nat)

  /** What an operation does to one source. */
  function Touch(c: Cadence, op: Op, s: Source): (r: Source)
    ensures r.kind == s.kind
  {
    match op
    case Plan(now, force) => if Due(s, now, force) then s.(lastRead := Some(now)) else s
    case FinishPostgres(due, blocking, now) =>
      if s.kind == PgStatementsAndPlans && due.Has(s.kind) then s.(lastRead := Some(now))
      else if s.kind == PgActivity && blocking.Some? then
        s.(interval := if blocking.value then Min(c.ordinary, c.blocked) else c.ordinary)
      else s
    case MarkSegmentOpened => if s.kind == OsMountTopo then s.(lastRead := None) else s
    case Recollect(due, now) =>
      if (due.Has(s.kind) || s.kind == OsMountTopo) && s.kind != PgStatementsAndPlans
      then s.(lastRead := Some(now)) else s
  }

  function Step(c: Cadence, op: Op, sources: seq<Source>): (r: seq<Source>)
    ensures |r| == |sources|
    ensures forall i :: 0 <= i < |r| ==> r[i] == Touch(c, op, sources[i])
  {
    if sources == [] then []
    else Step(c, op, sources[..|sources| - 1]) + [Touch(c, op, sources[|sources| - 1])]
  }

  /** The kinds of the sources an operation selects, in schedule order. */
  function Selected(op: Op, sources: seq<Source>): (r: seq<SourceKind>)
    ensures forall k :: k in r <==> exists i :: 0 <= i < |sources| && sources[i].kind == k && Selects(op, sources[i])
  {
    if sources == [] then []
    else
      var n := |sources| - 1;
      var before := Selected(op, sources[..n]);
      assert forall i :: 0 <= i < n ==> sources[..n][i] == sources[i];
      if Selects(op, sources[n]) then before + [sources[n].kind] else before
  }

  predicate Selects(op: Op, s: Source) {
    match op
    case Plan(now, force) => Due(s, now, force)
    case Recollect(due, now) => due.Has(s.kind) || s.kind == OsMountTopo
    case _ => false
  }

  /** A loop that has handled the sources before `i`, and leaves those from `i` on. */
  ghost predicate Handled(c: Cadence, op: Op, before: seq<Source>, sources: seq<Source>, i: nat) {
    && i <= |before| == |sources|
    && (forall j :: 0 <= j < i ==> sources[j] == Touch(c, op, before[j]))
    && (forall j :: i <= j < |before| ==> sources[j] == before[j])
  }

  lemma {:induction false} AllHandled(c: Cadence, op: Op, before: seq<Source>, sources: seq<Source>)
    requires Handled(c, op, before, sources, |before|)
    ensures sources == Step(c, op, before) && before[..|before|] == before
  {
  }

  lemma {:induction false} NoneSelected(op: Op, before: seq<Source>)
    ensures Selected(op, before[..0]) == []
  {
  }

  lemma {:induction false} SelectedNext(op: Op, before: seq<Source>, i: nat)
    requires i < |before|
    ensures Selected(op, before[..i + 1])
         == if Selects(op, before[i]) then Selected(op, before[..i]) + [before[i].kind] else Selected(op, before[..i])
  {
    assert before[..i + 1][..i] == before[..i];
  }

  // ----- the scheduler -----

  class Scheduler {
    var sources: seq<Source>
    var cadence: Cadence
    var collectPsi: bool

    constructor (intervals: Intervals, collectOs: bool, collectCgroups: bool)
      ensures sources == Initial(intervals, collectOs, collectCgroups, ALL_SOURCES)
      ensures cadence == Cadence(SECOND * intervals.of(PgActivity), SECOND * intervals.pgActivityBlocked)
      ensures collectPsi == collectOs
    {
      collectPsi := collectOs;
      cadence := Cadence(SECOND * intervals.of(PgActivity), SECOND * intervals.pgActivityBlocked);
      sources := [];
      new;
      hide Initial, Enabled, IntervalOf;
      InitialNone(intervals, collectOs, collectCgroups);
      for i := 0 to |ALL_SOURCES|
        invariant sources == Initial(intervals, collectOs, collectCgroups, ALL_SOURCES[..i])
        invariant cadence == Cadence(SECOND * intervals.of(PgActivity), SECOND * intervals.pgActivityBlocked)
        invariant collectPsi == collectOs
      {
        var kind := ALL_SOURCES[i];
        InitialNext(intervals, collectOs, collectCgroups, i);
        if Enabled(kind, collectOs, collectCgroups) {
          sources := sources + [Source(kind, IntervalOf(intervals, kind), None)];
        }
      }
      assert ALL_SOURCES[..|ALL_SOURCES|] == ALL_SOURCES;
    }

    predicate CollectsCgroups()
      reads this
    {
      exists i :: 0 <= i < |sources| && sources[i].kind == OsCgroup
    }

    /** Pressure stall information is given up for good in a container without cgroups, or when the
        kernel refuses to report it; once given up it is not read again. */
    method ProbePsi(inContainer: bool, unsupported: bool)
      modifies this`collectPsi
      ensures collectPsi <==> old(collectPsi) && !unsupported
                              && (inContainer ==> exists i :: 0 <= i < |sources| && sources[i].kind == OsCgroup)
    {
      if inContainer && !CollectsCgroups() {
        collectPsi := false;
      }
      if !collectPsi {
        return;
      }
      if unsupported {
        collectPsi := false;
      }
    }

    method PlanTick(now: nat, force: bool) returns (due: DueSet)
      modifies this`sources
      ensures sources == Step(cadence, Plan(now, force), old(sources))
      ensures due == DueSet(Selected(Plan(now, force), old(sources)), force)
    {
      hide Step, Selected;
      var kinds := [];
      ghost var before, op := sources, Plan(now, force);
      NoneSelected(op, before);
      for i := 0 to |sources|
        invariant Handled(cadence, op, before, sources, i)
        invariant kinds == Selected(op, before[..i])
      {
        var source := sources[i];
        SelectedNext(op, before, i);
        if (force && source.kind != PgStatementsAndPlans)
           || source.lastRead.None? || Since(now, source.lastRead.value) >= source.interval {
          sources := sources[i := source.(lastRead := Some(now))];
          kinds := kinds + [source.kind];
        }
      }
      AllHandled(cadence, op, before, sources);
      due := DueSet(kinds, force);
    }

    method FinishPostgresPass(due: DueSet, blocking: Option<bool>, now: nat)
      modifies this`sources
      ensures sources == Step(cadence, FinishPostgres(due, blocking, now), old(sources))
    {
      hide Step;
      ghost var before, op := sources, FinishPostgres(due, blocking, now);
      for i := 0 to |sources|
        invariant Handled(cadence, op, before, sources, i)
      {
        var source := sources[i];
        match source.kind {
          case PgStatementsAndPlans =>
            if due.Has(source.kind) { sources := sources[i := source.(lastRead := Some(now))]; }
          case PgActivity =>
            if blocking.Some? {
              var interval := if blocking.value then Min(cadence.ordinary, cadence.blocked) else cadence.ordinary;
              sources := sources[i := source.(interval := interval)];
            }
          case _ =>
        }
      }
      AllHandled(cadence, op, before, sources);
    }

    method MarkOpened()
      requires DistinctKinds(sources)
      modifies this`sources
      ensures sources == Step(cadence, MarkSegmentOpened, old(sources))
    {
      ghost var before := sources;
      for i := 0 to |sources|
        invariant sources == before
        invariant forall j :: 0 <= j < i ==> sources[j].kind != OsMountTopo
      {
        if sources[i].kind == OsMountTopo {
          sources := sources[i := sources[i].(lastRead := None)];
          break;
        }
      }
    }

    method RecollectionDue(due: DueSet, now: nat) returns (again: DueSet)
      modifies this`sources
      ensures sources == Step(cadence, Recollect(due, now), old(sources))
      ensures again == DueSet(Selected(Recollect(due, now), old(sources)), due.forced)
    {
      hide Step, Selected;
      var kinds := [];
      ghost var before, op := sources, Recollect(due, now);
      NoneSelected(op, before);
      for i := 0 to |sources|
        invariant Handled(cadence, op, before, sources, i)
        invariant kinds == Selected(op, before[..i])
      {
        var source := sources[i];
        SelectedNext(op, before, i);
        if due.Has(source.kind) || source.kind == OsMountTopo {
          if source.kind != PgStatementsAndPlans {
            sources := sources[i := source.(lastRead := Some(now))];
          }
          kinds := kinds + [source.kind];
        }
      }
      AllHandled(cadence, op, before, sources);
      again := DueSet(kinds, due.forced);
    }
  }

  predicate DistinctKinds(sources: seq<Source>) {
    forall i, j :: 0 <= i < j < |sources| ==> sources[i].kind != sources[j].kind
  }

  // ----- what each operation does, source by source -----

  lemma {:induction false} SelectedIsSelects(op: Op, sources: seq<Source>, i: nat)
    requires DistinctKinds(sources) && i < |sources|
    ensures sources[i].kind in Selected(op, sources) <==> Selects(op, sources[i])
  {
    if sources[i].kind in Selected(op, sources) {
      var j :| 0 <= j < |sources| && sources[j].kind == sources[i].kind && Selects(op, sources[j]);
      assert i == j;
    }
  }

  /** A tick reads a group that was never read, whose interval has passed, or, when forced, any group
      but the statements; it marks these as read now and touches no other. */
  lemma {:induction false} TickReadsWhatIsDue(c: Cadence, sources: seq<Source>, now: nat, force: bool, i: nat)
    requires DistinctKinds(sources) && i < |sources|
    ensures var s, read := sources[i], sources[i].kind in Selected(Plan(now, force), sources);
            && (read <==> || (force && s.kind != PgStatementsAndPlans)
                          || s.lastRead.None? || s.interval == 0 || s.lastRead.value + s.interval <= now)
            && Step(c, Plan(now, force), sources)[i] == if read then Source(s.kind, s.interval, Some(now)) else s
  {
    SelectedIsSelects(Plan(now, force), sources, i);
  }

  /** Recollection repeats the groups of the window and always the mounts; all of them but the
      statements count as read now. */
  lemma {:induction false} RecollectionRepeats(c: Cadence, sources: seq<Source>, due: DueSet, now: nat, i: nat)
    requires DistinctKinds(sources) && i < |sources|
    ensures var s, again := sources[i], sources[i].kind in Selected(Recollect(due, now), sources);
            && (again <==> s.kind in due.kinds || s.kind == OsMountTopo)
            && Step(c, Recollect(due, now), sources)[i]
               == if again && s.kind != PgStatementsAndPlans then Source(s.kind, s.interval, Some(now)) else s
  {
    SelectedIsSelects(Recollect(due, now), sources, i);
  }

  /** The end of a pass only moves the statement read it ran and the cadence of activity. */
  lemma {:induction false} PassEnds(c: Cadence, sources: seq<Source>, due: DueSet, blocking: Option<bool>, now: nat,
                                    i: nat)
    requires i < |sources|
    ensures var s, r := sources[i], Step(c, FinishPostgres(due, blocking, now), sources)[i];
            && r.kind == s.kind
            && r.lastRead == (if s.kind == PgStatementsAndPlans && s.kind in due.kinds then Some(now) else s.lastRead)
            && r.interval == (if s.kind != PgActivity || blocking == None then s.interval
                              else if blocking == Some(true) && c.blocked < c.ordinary then c.blocked
                              else c.ordinary)
    ensures Selected(FinishPostgres(due, blocking, now), sources) == []
  {
    NothingSelected(FinishPostgres(due, blocking, now), sources);
  }

  /** Opening a segment only makes the mounts unread. */
  lemma {:induction false} OpeningUnreadsMounts(c: Cadence, sources: seq<Source>, i: nat)
    requires i < |sources|
    ensures var s := sources[i];
            Step(c, MarkSegmentOpened, sources)[i]
            == Source(s.kind, s.interval, if s.kind == OsMountTopo then None else s.lastRead)
    ensures Selected(MarkSegmentOpened, sources) == []
  {
    NothingSelected(MarkSegmentOpened, sources);
  }

  lemma {:induction false} NothingSelected(op: Op, sources: seq<Source>)
    requires op.FinishPostgres? || op.MarkSegmentOpened?
    ensures Selected(op, sources) == []
  {
    if sources == [] {
    } else {
      NothingSelected(op, sources[..|sources| - 1]);
    }
  }

  /** Which groups exist: the server's own logs and statistics always, those of the system where it
      is collected, and of these the control groups only where they are too. */
  lemma {:induction false} EnabledGroups(collectOs: bool, collectCgroups: bool)
    ensures Enabled(Logs, collectOs, collectCgroups) && Enabled(PgActivity, collectOs, collectCgroups)
            && Enabled(PgInstance, collectOs, collectCgroups) && Enabled(PgTablesAndIndexes, collectOs, collectCgroups)
            && Enabled(PgStatementsAndPlans, collectOs, collectCgroups)
    ensures forall kind :: kind in {OsCore, OsMountTopo, OsProcesses, OsProcessStatus} ==>
              (Enabled(kind, collectOs, collectCgroups) <==> collectOs)
    ensures forall kind :: kind in {OsCgroup, OsCgroupMapping} ==>
              (Enabled(kind, collectOs, collectCgroups) <==> collectOs && collectCgroups)
  {
  }

  // ----- the next wake-up -----

  /** A group that can advance the wake: read before, with a positive interval. */
  predicate Paced(s: Source) {
    s.interval > 0 && s.lastRead.Some?
  }

  /** Every recorded read lies at or before the current instant. */
  ghost predicate ReadBy(sources: seq<Source>, now: nat) {
    forall i :: 0 <= i < |sources| && sources[i].lastRead.Some? ==> sources[i].lastRead.value <= now
  }

  ghost predicate QuietUntil(s: Source, now: nat, until: nat) {
    forall t: nat :: now <= t < until ==> !Elapsed(s, t)
  }

  /** The shortest wait after which a paced group falls due: one is due then and none before. */
  function NextElapsedDueIn(sources: seq<Source>, now: nat): (wait: Option<nat>)
    ensures wait.None? <==> forall i :: 0 <= i < |sources| ==> !Paced(sources[i])
    ensures wait.Some? && ReadBy(sources, now) ==>
              && (exists i :: 0 <= i < |sources| && Paced(sources[i]) && Elapsed(sources[i], now + wait.value))
              && (forall i :: 0 <= i < |sources| && Paced(sources[i]) ==> QuietUntil(sources[i], now, now + wait.value))
  {
    if sources == [] then None
    else
      var n := |sources| - 1;
      var before := NextElapsedDueIn(sources[..n], now);
      assert forall i :: 0 <= i < n ==> sources[..n][i] == sources[i];
      if !Paced(sources[n]) then before
      else
        var waited := Since(now, sources[n].lastRead.value);
        var left := if sources[n].interval < waited then 0 else sources[n].interval - waited;
        if before.Some? && before.value < left then before else Some(left)
  }

  /** Said over the reads: some group that was read, with a positive interval, has it elapsed after
      the wait, and no such group any earlier. */
  lemma {:induction false} WaitIsExact(sources: seq<Source>, now: nat, wait: nat)
    requires forall i :: 0 <= i < |sources| && sources[i].lastRead.Some? ==> sources[i].lastRead.value <= now
    ensures NextElapsedDueIn(sources, now) == None
       <==> forall i :: 0 <= i < |sources| ==> sources[i].interval == 0 || sources[i].lastRead == None
    ensures NextElapsedDueIn(sources, now) == Some(wait) ==>
              && (exists i :: 0 <= i < |sources| && IsPaced(sources[i])
                              && sources[i].lastRead.value + sources[i].interval <= now + wait)
              && (forall i :: 0 <= i < |sources| && IsPaced(sources[i]) ==>
                    wait == 0 || now + wait <= sources[i].lastRead.value + sources[i].interval)
  {
    if NextElapsedDueIn(sources, now) == Some(wait) && wait > 0 {
      forall i | 0 <= i < |sources| && IsPaced(sources[i])
        ensures now + wait <= sources[i].lastRead.value + sources[i].interval
      {
        assert QuietUntil(sources[i], now, now + wait);
        assert !Elapsed(sources[i], now + wait - 1);
      }
    }
  }

  predicate IsPaced(s: Source) { 0 < s.interval && s.lastRead != None }

  /** An unforced tick after exactly that wait selects a paced group; an earlier one selects none. */
  lemma {:induction false} WakeIsExact(sources: seq<Source>, now: nat, t: nat)
    requires ReadBy(sources, now) && NextElapsedDueIn(sources, now).Some? && DistinctKinds(sources)
    requires now <= t < now + NextElapsedDueIn(sources, now).value
    ensures exists i :: 0 <= i < |sources| && Paced(sources[i])
                        && sources[i].kind in Selected(Plan(now + NextElapsedDueIn(sources, now).value, false), sources)
    ensures forall i :: 0 <= i < |sources| && Paced(sources[i]) ==>
              sources[i].kind !in Selected(Plan(t, false), sources)
  {
    var wake := now + NextElapsedDueIn(sources, now).value;
    var i :| 0 <= i < |sources| && Paced(sources[i]) && Elapsed(sources[i], wake);
    assert Selects(Plan(wake, false), sources[i]);
    forall i | 0 <= i < |sources| && Paced(sources[i])
      ensures sources[i].kind !in Selected(Plan(t, false), sources)
    {
      assert QuietUntil(sources[i], now, wake);
      assert !Selects(Plan(t, false), sources[i]);
    }
  }

  // ----- runs -----

  /** The state before operation `n` of a run. */
  function StateAt(c: Cadence, initial: seq<Source>, ops: seq<Op>, n: nat): (r: seq<Source>)
    requires n <= |ops|
    ensures |r| == |initial|
  {
    if n == 0 then initial else Step(c, ops[n - 1], StateAt(c, initial, ops, n - 1))
  }

  predicate HasClock(op: Op) { !op.MarkSegmentOpened? }

  /** The clock never goes back. */
  ghost predicate Nondecreasing(ops: seq<Op>) {
    forall i, j :: 0 <= i < j < |ops| && HasClock(ops[i]) && HasClock(ops[j]) ==> ops[i].now <= ops[j].now
  }

  /** Source `p` paces the statements: it is the only one of its kind and waits at least `gap`. */
  predicate PacesStatements(initial: seq<Source>, p: nat, gap: nat) {
    p < |initial| && initial[p].kind == PgStatementsAndPlans && initial[p].interval == gap
    && initial[p].lastRead == None
  }

  /** The reads of a run: a planned statement read, or the end of the pass that made one. */
  predicate StartsStatements(c: Cadence, initial: seq<Source>, ops: seq<Op>, n: nat)
    requires n < |ops|
  {
    ops[n].Plan? && PgStatementsAndPlans in Selected(ops[n], StateAt(c, initial, ops, n))
  }

  predicate EndsStatements(ops: seq<Op>, n: nat)
    requires n < |ops|
  {
    ops[n].FinishPostgres? && ops[n].due.Has(PgStatementsAndPlans)
  }

  lemma {:induction false} Evolves(c: Cadence, initial: seq<Source>, ops: seq<Op>, n: nat, p: nat)
    requires 0 < n <= |ops| && p < |initial|
    ensures StateAt(c, initial, ops, n)[p] == Touch(c, ops[n - 1], StateAt(c, initial, ops, n - 1)[p])
  {
  }

  lemma {:induction false} KindsStay(c: Cadence, initial: seq<Source>, ops: seq<Op>, n: nat)
    requires n <= |ops|
    ensures forall i :: 0 <= i < |initial| ==> StateAt(c, initial, ops, n)[i].kind == initial[i].kind
  {
    if n == 0 {
    } else {
      KindsStay(c, initial, ops, n - 1);
    }
  }

  lemma {:induction false} TouchStatements(c: Cadence, op: Op, s: Source)
    requires s.kind == PgStatementsAndPlans
    ensures var r := Touch(c, op, s);
            && r.kind == s.kind && r.interval == s.interval
            && (r.lastRead == s.lastRead || (HasClock(op) && r.lastRead == Some(op.now)))
  {
  }

  /** Some operation before `n` happened at instant `t`. */
  predicate Clocked(ops: seq<Op>, n: nat, t: nat) {
    exists m :: 0 <= m < n && m < |ops| && HasClock(ops[m]) && ops[m].now == t
  }

  /** No operation changes the statement interval, and its last read is an instant of the run. */
  lemma {:induction false} StatementState(c: Cadence, initial: seq<Source>, ops: seq<Op>, p: nat, gap: nat, n: nat)
    requires n <= |ops| && PacesStatements(initial, p, gap)
    ensures var s := StateAt(c, initial, ops, n)[p];
            && s.kind == PgStatementsAndPlans && s.interval == gap
            && (s.lastRead.Some? ==> Clocked(ops, n, s.lastRead.value))
  {
    hide Touch, Step;
    if n == 0 {
    } else {
      var before := StateAt(c, initial, ops, n - 1)[p];
      Evolves(c, initial, ops, n, p);
      StatementState(c, initial, ops, p, gap, n - 1);
      TouchStatements(c, ops[n - 1], before);
    }
  }

  /** A planned statement read is the one of source `p`. */
  lemma {:induction false} StatementSource(c: Cadence, initial: seq<Source>, ops: seq<Op>, p: nat, gap: nat, n: nat)
    requires n < |ops| && PacesStatements(initial, p, gap) && DistinctKinds(initial)
    requires StartsStatements(c, initial, ops, n)
    ensures Selects(ops[n], StateAt(c, initial, ops, n)[p])
  {
    var state := StateAt(c, initial, ops, n);
    KindsStay(c, initial, ops, n);
    var q :| 0 <= q < |state| && state[q].kind == PgStatementsAndPlans && Selects(ops[n], state[q]);
    assert initial[q].kind == initial[p].kind;
    assert q == p;
  }

  lemma {:induction false} ReadIsMarked(c: Cadence, initial: seq<Source>, ops: seq<Op>, p: nat, gap: nat, i: nat)
    requires i < |ops| && PacesStatements(initial, p, gap) && DistinctKinds(initial)
    requires StartsStatements(c, initial, ops, i) || EndsStatements(ops, i)
    ensures StateAt(c, initial, ops, i + 1)[p].lastRead == Some(ops[i].now)
  {
    KindsStay(c, initial, ops, i);
    Evolves(c, initial, ops, i + 1, p);
    if StartsStatements(c, initial, ops, i) { StatementSource(c, initial, ops, p, gap, i); }
  }

  /** From a statement read or the end of one, the last read is never earlier again. */
  lemma {:induction false} LastReadStays(c: Cadence, initial: seq<Source>, ops: seq<Op>, p: nat, gap: nat, i: nat,
                                        n: nat)
    requires i < n <= |ops| && Nondecreasing(ops) && PacesStatements(initial, p, gap) && DistinctKinds(initial)
    requires HasClock(ops[i]) && StateAt(c, initial, ops, i + 1)[p].lastRead == Some(ops[i].now)
    ensures var last := StateAt(c, initial, ops, n)[p].lastRead; last.Some? && last.value >= ops[i].now
  {
    hide StateAt, Touch, Clocked, DistinctKinds;
    if n - 1 <= i {
    } else {
      var before := StateAt(c, initial, ops, n - 1)[p];
      StatementState(c, initial, ops, p, gap, n - 1);
      Evolves(c, initial, ops, n, p);
      TouchStatements(c, ops[n - 1], before);
      LastReadStays(c, initial, ops, p, gap, i, n - 1);
    }
  }

  /** Two statement reads are at least the gap apart, and that far after an earlier pass ended; a
      forced tick is no exception. */
  lemma {:induction false} StatementReadsAreSpaced(c: Cadence, initial: seq<Source>, ops: seq<Op>, p: nat, gap: nat,
                                        i: nat, j: nat)
    requires i < j < |ops| && Nondecreasing(ops) && PacesStatements(initial, p, gap) && DistinctKinds(initial)
    requires StartsStatements(c, initial, ops, i) || EndsStatements(ops, i)
    requires StartsStatements(c, initial, ops, j)
    ensures ops[j].now >= ops[i].now + gap
  {
    ReadIsMarked(c, initial, ops, p, gap, i);
    LastReadStays(c, initial, ops, p, gap, i, j);
    StatementState(c, initial, ops, p, gap, j);
    StatementSource(c, initial, ops, p, gap, j);
    var last := StateAt(c, initial, ops, j)[p].lastRead.value;
    assert HasClock(ops[i]) && HasClock(ops[j]);
    assert Since(ops[j].now, last) >= gap;
  }

  // ----- a fresh scheduler -----

  predicate HasKind(sources: seq<Source>, k: SourceKind) {
    exists i :: 0 <= i < |sources| && sources[i].kind == k
  }

  /** Unread, with its configured interval, and enabled. */
  predicate IsFresh(s: Source, intervals: Intervals, collectOs: bool, collectCgroups: bool, kinds: seq<SourceKind>) {
    && s.lastRead == None && s.interval == IntervalOf(intervals, s.kind)
    && s.kind in kinds && Enabled(s.kind, collectOs, collectCgroups)
  }

  predicate AllFresh(sources: seq<Source>, intervals: Intervals, collectOs: bool, collectCgroups: bool,
                     kinds: seq<SourceKind>) {
    forall i :: 0 <= i < |sources| ==> IsFresh(sources[i], intervals, collectOs, collectCgroups, kinds)
  }

  lemma {:induction false} InitialFields(intervals: Intervals, collectOs: bool, collectCgroups: bool,
                                        kinds: seq<SourceKind>)
    ensures AllFresh(Initial(intervals, collectOs, collectCgroups, kinds), intervals, collectOs, collectCgroups, kinds)
  {
    if kinds == [] {
    } else {
      var n := |kinds| - 1;
      InitialFields(intervals, collectOs, collectCgroups, kinds[..n]);
      var before := Initial(intervals, collectOs, collectCgroups, kinds[..n]);
      var sources := Initial(intervals, collectOs, collectCgroups, kinds);
      forall i | 0 <= i < |sources|
        ensures IsFresh(sources[i], intervals, collectOs, collectCgroups, kinds)
      {
        if i < |before| {
          assert sources[i] == before[i] && IsFresh(before[i], intervals, collectOs, collectCgroups, kinds[..n]);
        }
      }
    }
  }

  lemma {:induction false} InitialDistinct(intervals: Intervals, collectOs: bool, collectCgroups: bool,
                                        kinds: seq<SourceKind>)
    requires forall i, j :: 0 <= i < j < |kinds| ==> kinds[i] != kinds[j]
    ensures DistinctKinds(Initial(intervals, collectOs, collectCgroups, kinds))
  {
    hide IntervalOf, Enabled;
    if kinds == [] {
    } else {
      InitialDistinct(intervals, collectOs, collectCgroups, kinds[..|kinds| - 1]);
      InitialFields(intervals, collectOs, collectCgroups, kinds[..|kinds| - 1]);
    }
  }

  lemma {:induction false} InitialHas(intervals: Intervals, collectOs: bool, collectCgroups: bool,
                                      kinds: seq<SourceKind>, k: SourceKind)
    requires k in kinds && Enabled(k, collectOs, collectCgroups)
    ensures HasKind(Initial(intervals, collectOs, collectCgroups, kinds), k)
  {
    var n := |kinds| - 1;
    var before := Initial(intervals, collectOs, collectCgroups, kinds[..n]);
    var sources := Initial(intervals, collectOs, collectCgroups, kinds);
    if kinds[n] == k {
      assert sources[|before|].kind == k;
    } else {
      InitialHas(intervals, collectOs, collectCgroups, kinds[..n], k);
      var i :| 0 <= i < |before| && before[i].kind == k;
      assert sources[i].kind == k;
    }
  }

  lemma {:induction false} AllSourcesDistinct()
    ensures forall i, j :: 0 <= i < j < |ALL_SOURCES| ==> ALL_SOURCES[i] != ALL_SOURCES[j]
  {
  }

  /** In every run of a new scheduler, statement reads keep the larger of five minutes and the
      configured interval, counted from earlier reads and from the ends of their passes. */
  lemma {:induction false} EveryRunSpacesStatements(intervals: Intervals, collectOs: bool, collectCgroups: bool,
                                        c: Cadence,
                                 ops: seq<Op>, i: nat, j: nat)
    requires i < j < |ops| && Nondecreasing(ops)
    requires var initial := Initial(intervals, collectOs, collectCgroups, ALL_SOURCES);
             && (StartsStatements(c, initial, ops, i) || EndsStatements(ops, i))
             && StartsStatements(c, initial, ops, j)
    ensures ops[j].now >= ops[i].now + 300 * 1_000_000_000
    ensures ops[j].now >= ops[i].now + intervals.of(PgStatementsAndPlans) * 1_000_000_000
  {
    hide ALL_SOURCES;
    var initial := Initial(intervals, collectOs, collectCgroups, ALL_SOURCES);
    AllSourcesDistinct();
    EveryKindListed(PgStatementsAndPlans);
    InitialFields(intervals, collectOs, collectCgroups, ALL_SOURCES);
    InitialDistinct(intervals, collectOs, collectCgroups, ALL_SOURCES);
    InitialHas(intervals, collectOs, collectCgroups, ALL_SOURCES, PgStatementsAndPlans);
    var p :| 0 <= p < |initial| && initial[p].kind == PgStatementsAndPlans;
    StatementReadsAreSpaced(c, initial, ops, p, IntervalOf(intervals, PgStatementsAndPlans), i, j);
  }

  /** The first tick reads every enabled group. */
  lemma {:induction false} FirstTickReadsAll(intervals: Intervals, collectOs: bool, collectCgroups: bool, now: nat,
                                        force: bool, kind: SourceKind)
    ensures kind in Selected(Plan(now, force), Initial(intervals, collectOs, collectCgroups, ALL_SOURCES))
       <==> Enabled(kind, collectOs, collectCgroups)
  {
    hide ALL_SOURCES, Initial;
    var initial := Initial(intervals, collectOs, collectCgroups, ALL_SOURCES);
    EveryKindListed(kind);
    InitialFields(intervals, collectOs, collectCgroups, ALL_SOURCES);
    if Enabled(kind, collectOs, collectCgroups) {
      InitialHas(intervals, collectOs, collectCgroups, ALL_SOURCES, kind);
      var i :| 0 <= i < |initial| && initial[i].kind == kind;
      assert Selects(Plan(now, force), initial[i]);
    }
  }

  lemma {:induction false} EveryKindListed(kind: SourceKind)
    ensures kind in ALL_SOURCES
  {
    match kind {
      case OsCore => assert ALL_SOURCES[0] == kind;
      case OsMountTopo => assert ALL_SOURCES[1] == kind;
      case OsProcesses => assert ALL_SOURCES[2] == kind;
      case OsProcessStatus => assert ALL_SOURCES[3] == kind;
      case OsCgroup => assert ALL_SOURCES[4] == kind;
      case OsCgroupMapping => assert ALL_SOURCES[5] == kind;
      case Logs => assert ALL_SOURCES[6] == kind;
      case PgActivity => assert ALL_SOURCES[7] == kind;
      case PgInstance => assert ALL_SOURCES[8] == kind;
      case PgTablesAndIndexes => assert ALL_SOURCES[9] == kind;
      case PgStatementsAndPlans => assert ALL_SOURCES[10] == kind;
    }
  }

  // ----- the activity cadence -----

  /** What the last conclusive activity read said about blocked sessions. */
  function LastBlocking(ops: seq<Op>, n: nat): Option<bool>
    requires n <= |ops|
  {
    if n == 0 then None
    else if ops[n - 1].FinishPostgres? && ops[n - 1].blocking.Some? then ops[n - 1].blocking
    else LastBlocking(ops, n - 1)
  }

  lemma {:induction false} TouchActivity(c: Cadence, op: Op, s: Source)
    requires s.kind == PgActivity
    ensures var r := Touch(c, op, s);
            && r.kind == s.kind
            && r.interval == if op.FinishPostgres? && op.blocking.Some?
                             then (if op.blocking.value then Min(c.ordinary, c.blocked) else c.ordinary) else s.interval
  {
  }

  /** Activity is read faster exactly while the last conclusive read saw blocked sessions. */
  lemma {:induction false} ActivityCadence(c: Cadence, initial: seq<Source>, ops: seq<Op>, p: nat, n: nat)
    requires n <= |ops| && p < |initial| && initial[p].kind == PgActivity && initial[p].interval == c.ordinary
    ensures StateAt(c, initial, ops, n)[p].kind == PgActivity
    ensures StateAt(c, initial, ops, n)[p].interval
         == if LastBlocking(ops, n) == Some(true) then Min(c.ordinary, c.blocked) else c.ordinary
  {
    hide Touch, Step;
    if n == 0 {
    } else {
      var before := StateAt(c, initial, ops, n - 1)[p];
      Evolves(c, initial, ops, n, p);
      ActivityCadence(c, initial, ops, p, n - 1);
      TouchActivity(c, ops[n - 1], before);
    }
  }

  /** A newly opened segment gets its mounts and topology in the next window, due or not. */
  lemma {:induction false} OpenedSegmentRefreshesMounts(c: Cadence, sources: seq<Source>, between: seq<Op>, now: nat,
                                        force: bool, p: nat)
    requires p < |sources| && sources[p].kind == OsMountTopo
    requires forall i :: 0 <= i < |between| ==> between[i].FinishPostgres? || between[i].MarkSegmentOpened?
    ensures var state := StateAt(c, Step(c, MarkSegmentOpened, sources), between, |between|);
            OsMountTopo in Selected(Plan(now, force), state)
  {
    StillUnread(c, Step(c, MarkSegmentOpened, sources), between, |between|, p);
    var state := StateAt(c, Step(c, MarkSegmentOpened, sources), between, |between|);
    assert Selects(Plan(now, force), state[p]);
  }

  lemma {:induction false} StillUnread(c: Cadence, initial: seq<Source>, ops: seq<Op>, n: nat, p: nat)
    requires n <= |ops| && p < |initial| && initial[p].kind == OsMountTopo && initial[p].lastRead == None
    requires forall i :: 0 <= i < |ops| ==> ops[i].FinishPostgres? || ops[i].MarkSegmentOpened?
    ensures StateAt(c, initial, ops, n)[p] == initial[p]
  {
    hide Step;
    if n == 0 {
    } else {
      Evolves(c, initial, ops, n, p);
      StillUnread(c, initial, ops, n - 1, p);
    }
  }
}
