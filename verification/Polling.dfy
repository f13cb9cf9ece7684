/** Polling an active segment with `after` (crates/kronika-query/src/selection.rs:20-35,
    crates/kronika-query/src/projection.rs:132-150). */
module Polling {
  import opened Machine
  import opened Journal
  import opened RowPages
  import opened FilteredRows

  function AfterOf<Row>(id: int, prior: Option<seq<Part<Row>>>): Option<ActiveCursor> {
    match prior
    case None => None
    case Some(prefix) => Some(ActiveCursor(id, Boundary(prefix)))
  }

  /** The response to one poll: nothing when the section is not recorded yet. */
  function Poll<Row>(id: int, parts: seq<Part<Row>>, prior: Option<seq<Part<Row>>>, request: Request<Row>)
    : (poll: Result<Prepared<Row>>)
    requires id == request.segmentId
    ensures poll.Ok? ==> Valid(poll.value)
  {
    var asked := request.(after := AfterOf(id, prior));
    PrepareIsValid(Segment(id, Active, parts), asked, None);
    Prepare(Some(Segment(id, Active, parts)), asked, None)
  }

  function IndexOf<Row>(plans: seq<Plan<Row>>, typeId: nat): Option<nat> {
    if plans == [] then None
    else if plans[0].typeId == typeId then Some(0)
    else match IndexOf(plans[1..], typeId)
         case None => None
         case Some(k) => Some(k + 1)
  }

  /** The hits of one layout in a response, numbered by physical ordinal. */
  function LayoutHits<Row>(poll: Result<Prepared<Row>>, typeId: nat): seq<Hit<Row>>
    requires poll.Ok? ==> ValidPlans(poll.value)
  {
    if poll.Err? then []
    else
      var p := poll.value;
      match IndexOf(p.plans, typeId)
      case None => []
      case Some(k) =>
        IndexIsThere(p.plans, typeId);
        Matched(p.plans[k], Rows(p.parts, typeId), typeId, p.plans[k].startRow, p.plans[k].rows)
  }

  lemma {:induction false} IndexIsThere<Row>(plans: seq<Plan<Row>>, typeId: nat)
    ensures match IndexOf(plans, typeId)
            case Some(k) => k < |plans| && plans[k].typeId == typeId
            case None => forall k :: 0 <= k < |plans| ==> plans[k].typeId != typeId
  {
    if plans != [] && plans[0].typeId != typeId {
      IndexIsThere(plans[1..], typeId);
      forall k | 0 <= k < |plans|
        ensures IndexOf(plans, typeId).None? ==> plans[k].typeId != typeId
      {
        if k > 0 { assert plans[1..][k - 1] == plans[k]; }
      }
    }
  }

  lemma {:induction false} RecordedLayoutHasPlan<Row>(parts: seq<Part<Row>>, request: Request<Row>,
                                        layouts: seq<nat>, typeId: nat)
    requires typeId in layouts && Present(parts, typeId)
    ensures exists k :: 0 <= k < |PlansOf(parts, request, layouts)|
                        && PlansOf(parts, request, layouts)[k].typeId == typeId
  {
    var plans := PlansOf(parts, request, layouts);
    if layouts[0] == typeId {
      assert plans[0].typeId == typeId;
    } else {
      RecordedLayoutHasPlan(parts, request, layouts[1..], typeId);
      var rest := PlansOf(parts, request, layouts[1..]);
      var k :| 0 <= k < |rest| && rest[k].typeId == typeId;
      assert plans[k + |plans| - |rest|] == rest[k];
    }
  }

  /** One poll: never a bad cursor, and each requested layout answers its new rows that pass the
      filter, all of them and no other; no answer exactly when no requested layout is recorded. */
  lemma {:induction false} PollAnswersNewRows<Row>(id: int, parts: seq<Part<Row>>, prior: Option<seq<Part<Row>>>,
                                        request: Request<Row>, typeId: nat)
    requires id == request.segmentId && ValidParts(parts) && typeId in request.layouts
    requires prior.Some? ==> prior.value <= parts
    ensures var poll := Poll(id, parts, prior, request);
            var seen := if prior.Some? then |Rows(prior.value, typeId)| else 0;
            && (poll.Ok? <==> exists t :: t in request.layouts && Present(parts, t))
            && (poll.Err? ==> poll.error == NoSuchSection)
            && seen <= |Rows(parts, typeId)|
            && KeepsExactly(row => typeId !in request.excluded && request.keep(typeId, row), typeId,
                            Rows(parts, typeId), seen, LayoutHits(poll, typeId))
  {
    hide Poll, LayoutHits, Matched, PlansOf, Rows, Present;
    PollMatches(id, parts, prior, request, typeId);
    RecordedLayouts(parts, request);
    var seen := if prior.Some? then |Rows(prior.value, typeId)| else 0;
    FilterKeepsExactly(parts, request, typeId, seen);
  }

  lemma {:induction false} RecordedLayouts<Row>(parts: seq<Part<Row>>, request: Request<Row>)
    ensures PlansOf(parts, request, request.layouts) != [] <==> exists t :: t in request.layouts && Present(parts, t)
  {
    var plans := PlansOf(parts, request, request.layouts);
    PlansAreValid(parts, request, request.layouts);
    if plans != [] { assert plans[0].typeId in request.layouts && Present(parts, plans[0].typeId); }
    if t :| t in request.layouts && Present(parts, t) { RecordedLayoutHasPlan(parts, request, request.layouts, t); }
  }

  /** The plan of a layout keeps what the request says. */
  lemma {:induction false} FilterKeepsExactly<Row>(parts: seq<Part<Row>>, request: Request<Row>, typeId: nat, lo: nat)
    requires lo <= |Rows(parts, typeId)|
    ensures var table := Rows(parts, typeId);
            KeepsExactly(row => typeId !in request.excluded && request.keep(typeId, row), typeId, table, lo,
                         Matched(PlanOf(parts, request, typeId), table, typeId, lo, |table|))
  {
    hide Rows, Matched;
    MatchedKeepsExactly(PlanOf(parts, request, typeId), row => typeId !in request.excluded && request.keep(typeId, row),
                        typeId, Rows(parts, typeId), lo);
  }

  lemma {:induction false} PollMatches<Row>(id: int, parts: seq<Part<Row>>, prior: Option<seq<Part<Row>>>,
                                        request: Request<Row>, typeId: nat)
    requires id == request.segmentId && ValidParts(parts) && typeId in request.layouts
    requires prior.Some? ==> prior.value <= parts
    ensures var poll := Poll(id, parts, prior, request);
            var seen := if prior.Some? then |Rows(prior.value, typeId)| else 0;
            && (poll.Ok? <==> PlansOf(parts, request, request.layouts) != [])
            && (poll.Err? ==> poll.error == NoSuchSection)
            && (poll.Ok? ==> Valid(poll.value))
            && seen <= |Rows(parts, typeId)|
            && LayoutHits(poll, typeId)
               == Matched(PlanOf(parts, request, typeId), Rows(parts, typeId), typeId, seen, |Rows(parts, typeId)|)
  {
    hide Poll, PlansOf, TailPlans, Matched;
    var plans := PlansOf(parts, request, request.layouts);
    if prior.Some? { RowsAppend(prior.value, parts, typeId); }
    PollPlans(id, parts, prior, request);
    if plans != [] {
      var plan, table := PlanOf(parts, request, typeId), Rows(parts, typeId);
      var seen := if prior.Some? then |Rows(prior.value, typeId)| else 0;
      LayoutOfPoll(parts, prior, request, TailPlans(plans, prior).value, typeId);
      MatchedOnPrefix(plan.(startRow := seen), plan, table, table, typeId, seen, |table|);
    } else if Present(parts, typeId) {
      RecordedLayoutHasPlan(parts, request, request.layouts, typeId);
    } else {
      AbsentMeansNoRows(parts, typeId);
    }
    NoRowsNoHits(PlanOf(parts, request, typeId), Rows(parts, typeId), typeId);
  }

  lemma {:induction false} NoRowsNoHits<Row>(plan: Plan<Row>, table: seq<Row>, tag: nat)
    ensures Matched(plan, table, tag, |table|, |table|) == []
  {
  }

  /** A poll is the tail plans of its capture, or has no recorded layout at all. */
  lemma {:induction false} PollPlans<Row>(id: int, parts: seq<Part<Row>>, prior: Option<seq<Part<Row>>>,
                                        request: Request<Row>)
    requires id == request.segmentId && ValidParts(parts)
    requires prior.Some? ==> prior.value <= parts
    ensures var poll, plans := Poll(id, parts, prior, request), PlansOf(parts, request, request.layouts);
            if plans == [] then poll == Err(NoSuchSection)
            else TailPlans(plans, prior).Ok? && poll.Ok? && poll.value.parts == parts
                 && poll.value.plans == TailPlans(plans, prior).value
  {
    hide PlansOf, TailPlans, ActiveTail, AfterOf, PreparedAt, Rows, ValidParts;
    var plans := PlansOf(parts, request, request.layouts);
    SamePlans(parts, request, request.layouts, AfterOf(id, prior));
    TailIsPrior(id, parts, prior);
    TailFits(parts, prior, request);
    if plans != [] {
      var tailed := TailPlans(plans, prior).value;
      FirstCursorIsAccepted(Segment(id, Active, parts), request.(after := AfterOf(id, prior)), tailed);
    }
  }

  /** The prior capture is found again in the current one. */
  lemma {:induction false} TailIsPrior<Row>(id: int, parts: seq<Part<Row>>, prior: Option<seq<Part<Row>>>)
    requires ValidParts(parts) && (prior.Some? ==> prior.value <= parts)
    ensures ActiveTail(Segment(id, Active, parts), AfterOf(id, prior)) == Ok(prior)
  {
    if prior.Some? { PrefixSurvivesAppends(prior.value, parts); }
  }

  lemma {:induction false} TailFits<Row>(parts: seq<Part<Row>>, prior: Option<seq<Part<Row>>>, request: Request<Row>)
    requires prior.Some? ==> prior.value <= parts
    ensures var tailed := TailPlans(PlansOf(parts, request, request.layouts), prior);
            && tailed.Ok? && |tailed.value| == |PlansOf(parts, request, request.layouts)|
            && forall k :: 0 <= k < |tailed.value| ==> tailed.value[k].startRow <= tailed.value[k].rows
  {
    hide PlansOf, TailPlans, Rows;
    var plans := PlansOf(parts, request, request.layouts);
    PlansAreValid(parts, request, request.layouts);
    TailAlwaysFits(plans, parts, prior);
    TailKeepsPlans(plans, prior);
  }

  lemma {:induction false} FirstCursorIsAccepted<Row>(pinned: Segment<Row>, request: Request<Row>,
                                        plans: seq<Plan<Row>>)
    requires plans != [] && forall k :: 0 <= k < |plans| ==> plans[k].startRow <= plans[k].rows
    ensures var p := PreparedAt(request, pinned, plans, None);
            p.Ok? && p.value.parts == pinned.parts && p.value.plans == plans
  {
  }

  lemma {:induction false} SamePlans<Row>(parts: seq<Part<Row>>, request: Request<Row>, layouts: seq<nat>,
                                        after: Option<ActiveCursor>)
    ensures PlansOf(parts, request.(after := after), layouts) == PlansOf(parts, request, layouts)
  {
    if layouts == [] {
    } else {
      SamePlans(parts, request, layouts[1..], after);
      var typeId := layouts[0];
      assert request.(after := after).keep == request.keep;
      assert PlanOf(parts, request.(after := after), typeId) == PlanOf(parts, request, typeId);
    }
  }

  lemma {:induction false} LayoutOfPoll<Row>(parts: seq<Part<Row>>, prior: Option<seq<Part<Row>>>,
                                        request: Request<Row>,
                          tailed: seq<Plan<Row>>, typeId: nat)
    requires typeId in request.layouts && TailPlans(PlansOf(parts, request, request.layouts), prior) == Ok(tailed)
    ensures match IndexOf(tailed, typeId)
            case None => Rows(parts, typeId) == []
            case Some(k) =>
              k < |tailed| && tailed[k] == PlanOf(parts, request, typeId).(
                startRow := if prior.Some? then |Rows(prior.value, typeId)| else 0)
  {
    var plans := PlansOf(parts, request, request.layouts);
    PlansAreValid(parts, request, request.layouts);
    TailKeepsPlans(plans, prior);
    IndexIsThere(tailed, typeId);
    if IndexOf(tailed, typeId).None? {
      if Present(parts, typeId) {
        RecordedLayoutHasPlan(parts, request, request.layouts, typeId);
        assert false;
      }
      AbsentMeansNoRows(parts, typeId);
    }
  }

  // ----- a whole run of polls -----

  ghost predicate Growing<Row>(captures: seq<seq<Part<Row>>>) {
    (forall i :: 0 <= i < |captures| ==> ValidParts(captures[i]))
    && (forall i :: 0 < i < |captures| ==> captures[i - 1] <= captures[i])
  }

  /** What the client already has when it asks poll `i`. */
  function PriorOf<Row>(captures: seq<seq<Part<Row>>>, i: nat): Option<seq<Part<Row>>>
    requires i < |captures|
  {
    if i == 0 then None else Some(captures[i - 1])
  }

  /** All hits of one layout the polls have left to deliver; each asks for what came after the previous capture. */
  function PolledHits<Row>(id: int, captures: seq<seq<Part<Row>>>, request: Request<Row>, typeId: nat): seq<Hit<Row>>
    requires id == request.segmentId
  {
    if captures == [] then []
    else
      var n := |captures| - 1;
      var poll := Poll(id, captures[n], PriorOf(captures, n), request);
      PolledHits(id, captures[..n], request, typeId) + LayoutHits(poll, typeId)
  }

  /** Hits of a table do not depend on rows appended after the range or on where a plan starts. */
  lemma {:induction false} MatchedOnPrefix<Row>(plan: Plan<Row>, other: Plan<Row>, table: seq<Row>, longer: seq<Row>,
                                        tag: nat, lo: nat, hi: nat)
    requires hi <= |table| && table <= longer
    requires plan.matchesNone == other.matchesNone && plan.keep == other.keep
    ensures Matched(plan, table, tag, lo, hi) == Matched(other, longer, tag, lo, hi)
    decreases hi - lo
  {
    if lo >= hi {
    } else {
      MatchedOnPrefix(plan, other, table, longer, tag, lo + 1, hi);
    }
  }

  /** What the polls have left to deliver is every matching row exactly once, in physical order. */
  lemma {:induction false} PollsCoverOnce<Row>(id: int, captures: seq<seq<Part<Row>>>, request: Request<Row>,
                                        typeId: nat)
    requires id == request.segmentId && typeId in request.layouts && Growing(captures) && captures != []
    ensures var final := captures[|captures| - 1];
            PolledHits(id, captures, request, typeId)
            == Matched(PlanOf(final, request, typeId), Rows(final, typeId), typeId, 0, |Rows(final, typeId)|)
  {
    hide Poll, LayoutHits, Matched, Rows;
    var n := |captures| - 1;
    var final := captures[n];
    var prior := PriorOf(captures, n);
    PollMatches(id, final, prior, request, typeId);
    if n > 0 {
      var seen, all := Rows(captures[n - 1], typeId), Rows(final, typeId);
      PollsCoverOnce(id, captures[..n], request, typeId);
      RowsAppend(captures[n - 1], final, typeId);
      SameFilter(captures[n - 1], final, request, typeId);
      var was, now := PlanOf(captures[n - 1], request, typeId), PlanOf(final, request, typeId);
      MatchedOnPrefix(was, now, seen, all, typeId, 0, |seen|);
      MatchedSplit(now, all, typeId, 0, |seen|, |all|);
    } else {
      assert captures[..0] == [];
    }
  }

  lemma {:induction false} SameFilter<Row>(a: seq<Part<Row>>, b: seq<Part<Row>>, request: Request<Row>, typeId: nat)
    ensures PlanOf(a, request, typeId).keep == PlanOf(b, request, typeId).keep
  {
  }

  // ----- the pages of the polls -----

  predicate DistinctLayouts(layouts: seq<nat>) {
    forall i, j :: 0 <= i < j < |layouts| ==> layouts[i] != layouts[j]
  }

  predicate DistinctPlans<Row>(plans: seq<Plan<Row>>) {
    forall i, j :: 0 <= i < j < |plans| ==> plans[i].typeId != plans[j].typeId
  }

  /** The hits of one layout among those of all layouts, named by their type. */
  function OfLayout<Row>(plans: seq<Plan<Row>>, typeId: nat, hits: seq<Hit<Row>>): seq<Hit<Row>> {
    if hits == [] then []
    else
      var h := hits[|hits| - 1];
      OfLayout(plans, typeId, hits[..|hits| - 1])
      + (if h.tag < |plans| && plans[h.tag].typeId == typeId then [Hit(typeId, h.ordinal, h.row)] else [])
  }

  lemma {:induction false} OfLayoutAppend<Row>(plans: seq<Plan<Row>>, typeId: nat, a: seq<Hit<Row>>, b: seq<Hit<Row>>)
    ensures OfLayout(plans, typeId, a + b) == OfLayout(plans, typeId, a) + OfLayout(plans, typeId, b)
  {
    if b == [] {
      assert a + b == a;
    } else {
      var n := |b| - 1;
      assert (a + b)[..|a + b| - 1] == a + b[..n];
      OfLayoutAppend(plans, typeId, a, b[..n]);
    }
  }

  lemma {:induction false} OfOne<Row>(plans: seq<Plan<Row>>, typeId: nat, h: Hit<Row>)
    ensures OfLayout(plans, typeId, [h])
         == if h.tag < |plans| && plans[h.tag].typeId == typeId then [Hit(typeId, h.ordinal, h.row)] else []
  {
    assert [h][..0] == [];
  }

  lemma {:induction false} OfReversed<Row>(plans: seq<Plan<Row>>, typeId: nat, hits: seq<Hit<Row>>)
    ensures OfLayout(plans, typeId, Reverse(hits)) == Reverse(OfLayout(plans, typeId, hits))
  {
    if hits == [] {
      assert Reverse(hits) == [];
    } else {
      var n := |hits| - 1;
      var h, init := hits[n], hits[..n];
      assert hits == init + [h];
      OfReversed(plans, typeId, init);
      ReverseSnoc(init, h);
      OfLayoutAppend(plans, typeId, [h], Reverse(init));
      OfOne(plans, typeId, h);
      if h.tag < |plans| && plans[h.tag].typeId == typeId {
        ReverseSnoc(OfLayout(plans, typeId, init), Hit(typeId, h.ordinal, h.row));
      }
    }
  }

  lemma {:induction false} OfMatched<Row>(plans: seq<Plan<Row>>, typeId: nat, k: nat, table: seq<Row>, lo: nat, hi: nat)
    requires k < |plans| && hi <= |table|
    ensures OfLayout(plans, typeId, Matched(plans[k], table, k, lo, hi))
         == if plans[k].typeId == typeId then Matched(plans[k], table, typeId, lo, hi) else []
    decreases hi - lo
  {
    hide Plan.Matches;
    if lo >= hi {
    } else {
      OfMatched(plans, typeId, k, table, lo + 1, hi);
      var h := Hit(k, lo, table[lo]);
      OfOne(plans, typeId, h);
      OfLayoutAppend(plans, typeId, [h], Matched(plans[k], table, k, lo + 1, hi));
      OfLayoutAppend(plans, typeId, [], Matched(plans[k], table, k, lo + 1, hi));
    }
  }

  /** Among the layouts from `k` on only the one of this type has its hits. */
  lemma {:induction false} OfLater<Row>(p: Prepared<Row>, typeId: nat, k: nat)
    requires ValidPlans(p) && DistinctPlans(p.plans) && k <= |p.plans|
    ensures var at := IndexOf(p.plans, typeId);
            OfLayout(p.plans, typeId, Later(p, k))
            == if at.Some? && k <= at.value then LayoutHits(Result.Ok(p), typeId) else []
    decreases |p.plans| - k
  {
    hide Rows, Matched;
    IndexIsThere(p.plans, typeId);
    if k >= |p.plans| {
    } else {
      var table := Rows(p.parts, p.plans[k].typeId);
      OfLater(p, typeId, k + 1);
      OfLayoutAppend(p.plans, typeId, Layout(p, k), Later(p, k + 1));
      OfMatched(p.plans, typeId, k, table, p.plans[k].startRow, p.plans[k].rows);
    }
  }

  function Physical<Row>(order: Order, hits: seq<Hit<Row>>): seq<Hit<Row>> {
    if order.Asc? then hits else Reverse(hits)
  }

  lemma {:induction false} ReversedTwice<T>(s: seq<T>)
    ensures Reverse(Reverse(s)) == s
  {
  }

  /** Everything a poll delivers, layout by layout in physical order, is that layout's hits. */
  lemma {:induction false} EverythingByLayout<Row>(p: Prepared<Row>, typeId: nat)
    requires ValidPlans(p) && DistinctPlans(p.plans)
    ensures Physical(p.order, OfLayout(p.plans, typeId, Everything(p))) == LayoutHits(Result.Ok(p), typeId)
  {
    hide LayoutHits, OfLayout;
    IndexIsThere(p.plans, typeId);
    OfLater(p, typeId, 0);
    AbsentLayout(p, typeId);
    OfReversed(p.plans, typeId, Later(p, 0));
    ReversedTwice(OfLayout(p.plans, typeId, Later(p, 0)));
  }

  lemma {:induction false} AbsentLayout<Row>(p: Prepared<Row>, typeId: nat)
    requires ValidPlans(p)
    ensures IndexOf(p.plans, typeId).None? ==> LayoutHits(Result.Ok(p), typeId) == []
  {
  }

  lemma {:induction false} PlansAreDistinct<Row>(parts: seq<Part<Row>>, request: Request<Row>, layouts: seq<nat>)
    requires DistinctLayouts(layouts)
    ensures DistinctPlans(PlansOf(parts, request, layouts))
  {
    if layouts == [] {
    } else {
      PlansAreDistinct(parts, request, layouts[1..]);
      PlansAreValid(parts, request, layouts[1..]);
    }
  }

  /** The pages a client got for one poll, and the captures its requests found. */
  datatype Answer<+Row> = Answer(history: seq<Segment<Row>>, pages: seq<Page<Row>>)

  /** A complete walk, whatever was appended meanwhile, or no page when the section is not recorded. */
  ghost predicate Answers<Row>(id: int, parts: seq<Part<Row>>, prior: Option<seq<Part<Row>>>, request: Request<Row>,
                               answer: Answer<Row>)
    requires id == request.segmentId
  {
    if Poll(id, parts, prior, request).Err? then answer.pages == []
    else
      && IsWalk(answer.history, request.(after := AfterOf(id, prior)), answer.pages)
      && answer.history[0] == Segment(id, Active, parts)
      && answer.pages[|answer.pages| - 1].next.None?
  }

  /** The hits of one layout a client got from one poll, in physical order. */
  function Received<Row>(poll: Result<Prepared<Row>>, typeId: nat, pages: seq<Page<Row>>): seq<Hit<Row>> {
    if poll.Err? then [] else Physical(poll.value.order, OfLayout(poll.value.plans, typeId, Delivered(pages)))
  }

  /** The pages of a poll deliver exactly the new rows of each layout. */
  lemma {:induction false} PagesAnswerPoll<Row>(id: int, parts: seq<Part<Row>>, prior: Option<seq<Part<Row>>>,
                                        request: Request<Row>, typeId: nat, answer: Answer<Row>)
    requires id == request.segmentId && ValidParts(parts) && DistinctLayouts(request.layouts) && request.pageSize >= 1
    requires (prior.Some? ==> prior.value <= parts) && Answers(id, parts, prior, request, answer)
    ensures var poll := Poll(id, parts, prior, request);
            Received(poll, typeId, answer.pages) == LayoutHits(poll, typeId)
  {
    hide Prepare, Everything, LayoutHits, OfLayout, PlansOf, TailPlans, IsWalk, Valid;
    var poll := Poll(id, parts, prior, request);
    if poll.Ok? {
      var asked, plans := request.(after := AfterOf(id, prior)), PlansOf(parts, request, request.layouts);
      WalkDeliversEverything(answer.history, asked, answer.pages);
      PollPlans(id, parts, prior, request);
      PlansAreDistinct(parts, request, request.layouts);
      TailKeepsPlans(plans, prior);
      EverythingByLayout(poll.value, typeId);
    } else {
      NothingPolled(poll, typeId);
    }
  }

  lemma {:induction false} NothingPolled<Row>(poll: Result<Prepared<Row>>, typeId: nat)
    requires poll.Err?
    ensures LayoutHits(poll, typeId) == []
  {
  }

  ghost predicate AllAnswered<Row>(id: int, captures: seq<seq<Part<Row>>>, request: Request<Row>,
                                   polls: seq<Answer<Row>>)
    requires id == request.segmentId
  {
    |polls| == |captures|
    && forall i :: 0 <= i < |captures| ==>
         Answers(id, captures[i], PriorOf(captures, i), request, polls[i])
  }

  /** All hits of one layout a client got over the polls. */
  function ReceivedHits<Row>(id: int, captures: seq<seq<Part<Row>>>, request: Request<Row>, typeId: nat,
                             polls: seq<Answer<Row>>): seq<Hit<Row>>
    requires id == request.segmentId && |polls| == |captures|
  {
    if captures == [] then []
    else
      var n := |captures| - 1;
      var poll := Poll(id, captures[n], PriorOf(captures, n), request);
      ReceivedHits(id, captures[..n], request, typeId, polls[..n]) + Received(poll, typeId, polls[n].pages)
  }

  lemma {:induction false} ReceivedIsPolled<Row>(id: int, captures: seq<seq<Part<Row>>>, request: Request<Row>,
                                        typeId: nat, polls: seq<Answer<Row>>)
    requires id == request.segmentId && Growing(captures) && DistinctLayouts(request.layouts) && request.pageSize >= 1
    requires AllAnswered(id, captures, request, polls)
    ensures ReceivedHits(id, captures, request, typeId, polls) == PolledHits(id, captures, request, typeId)
  {
    hide Poll, Answers, Received, LayoutHits;
    if captures == [] {
    } else {
      var n := |captures| - 1;
      forall i | 0 <= i < n
        ensures Answers(id, captures[..n][i], PriorOf(captures[..n], i), request, polls[..n][i])
      {
        assert PriorOf(captures[..n], i) == PriorOf(captures, i);
      }
      ReceivedIsPolled(id, captures[..n], request, typeId, polls[..n]);
      PagesAnswerPoll(id, captures[n], PriorOf(captures, n), request, typeId, polls[n]);
    }
  }

  /** Polling a growing journal, each poll paged to its end in either direction, delivers every
      matching row of every layout exactly once, in physical order. */
  lemma {:induction false} PollingDeliversOnce<Row>(id: int, captures: seq<seq<Part<Row>>>, request: Request<Row>,
                                        typeId: nat, polls: seq<Answer<Row>>)
    requires id == request.segmentId && typeId in request.layouts && DistinctLayouts(request.layouts)
    requires request.pageSize >= 1 && Growing(captures) && captures != []
    requires AllAnswered(id, captures, request, polls)
    ensures var final := captures[|captures| - 1];
            KeepsExactly(row => typeId !in request.excluded && request.keep(typeId, row), typeId,
                         Rows(final, typeId), 0, ReceivedHits(id, captures, request, typeId, polls))
  {
    hide Poll, ReceivedHits, PolledHits, Matched, Rows;
    FilterKeepsExactly(captures[|captures| - 1], request, typeId, 0);
    ReceivedIsPolled(id, captures, request, typeId, polls);
    PollsCoverOnce(id, captures, request, typeId);
  }
}
