/** What the pages contain, said over the request and the segment alone: the rows of the requested
    layouts that pass the filters (crates/kronika-query/src/rows.rs and
    crates/kronika-query/src/projection.rs). */
module FilteredRows {
  import opened Machine
  import opened Journal
  import opened RowPages

  // ----- the rows of one layout -----

  ghost predicate IsKept<Row>(kept: Row -> bool, tag: nat, table: seq<Row>, lo: nat, h: Hit<Row>) {
    h.tag == tag && lo <= h.ordinal < |table| && h.row == table[h.ordinal] && kept(h.row)
  }

  ghost predicate HasOrdinal<Row>(hits: seq<Hit<Row>>, ordinal: nat) {
    exists i :: 0 <= i < |hits| && hits[i].ordinal == ordinal
  }

  /** `hits` are the rows from `lo` on that are kept: all of them, each once, in physical order. */
  ghost predicate KeepsExactly<Row>(kept: Row -> bool, tag: nat, table: seq<Row>, lo: nat, hits: seq<Hit<Row>>) {
    && (forall i :: 0 <= i < |hits| ==> IsKept(kept, tag, table, lo, hits[i]))
    && (forall i, j :: 0 <= i < j < |hits| ==> hits[i].ordinal < hits[j].ordinal)
    && (forall o :: lo <= o < |table| && kept(table[o]) ==> HasOrdinal(hits, o))
  }

  lemma {:induction false} MatchedKeepsExactly<Row>(plan: Plan<Row>, kept: Row -> bool, tag: nat, table: seq<Row>,
                                                    lo: nat)
    requires lo <= |table| && forall row :: plan.Matches(row) <==> kept(row)
    ensures KeepsExactly(kept, tag, table, lo, Matched(plan, table, tag, lo, |table|))
    decreases |table| - lo
  {
    hide Plan.Matches;
    if lo == |table| {
    } else {
      var rest := Matched(plan, table, tag, lo + 1, |table|);
      MatchedKeepsExactly(plan, kept, tag, table, lo + 1);
      if kept(table[lo]) {
        FirstKept(kept, tag, table, lo, rest);
      } else {
        SkippedRow(kept, tag, table, lo, rest);
        assert Matched(plan, table, tag, lo, |table|) == rest;
      }
    }
  }

  lemma {:induction false} FirstKept<Row>(kept: Row -> bool, tag: nat, table: seq<Row>, lo: nat, rest: seq<Hit<Row>>)
    requires lo < |table| && kept(table[lo]) && KeepsExactly(kept, tag, table, lo + 1, rest)
    ensures KeepsExactly(kept, tag, table, lo, [Hit(tag, lo, table[lo])] + rest)
  {
    var hits := [Hit(tag, lo, table[lo])] + rest;
    forall o | lo <= o < |table| && kept(table[o])
      ensures HasOrdinal(hits, o)
    {
      if o == lo {
        assert hits[0].ordinal == o;
      } else {
        assert HasOrdinal(rest, o);
        var i :| 0 <= i < |rest| && rest[i].ordinal == o;
        assert hits[i + 1].ordinal == o;
      }
    }
    forall i | 0 <= i < |hits|
      ensures IsKept(kept, tag, table, lo, hits[i])
    {
      if i > 0 { assert IsKept(kept, tag, table, lo + 1, rest[i - 1]); }
    }
    forall i, j | 0 <= i < j < |hits|
      ensures hits[i].ordinal < hits[j].ordinal
    {
      assert IsKept(kept, tag, table, lo + 1, rest[j - 1]);
      if i > 0 { assert rest[i - 1].ordinal < rest[j - 1].ordinal; }
    }
  }

  lemma {:induction false} SkippedRow<Row>(kept: Row -> bool, tag: nat, table: seq<Row>, lo: nat, rest: seq<Hit<Row>>)
    requires lo < |table| && !kept(table[lo]) && KeepsExactly(kept, tag, table, lo + 1, rest)
    ensures KeepsExactly(kept, tag, table, lo, rest)
  {
    forall i | 0 <= i < |rest|
      ensures IsKept(kept, tag, table, lo, rest[i])
    {
      assert IsKept(kept, tag, table, lo + 1, rest[i]);
    }
  }

  // ----- the plans of a request -----

  /** Where the requested rows of a layout start: after those of the prior capture, if one is named. */
  function StartOf<Row>(parts: seq<Part<Row>>, after: Option<ActiveCursor>, typeId: nat): nat {
    match after
    case None => 0
    case Some(a) =>
      match PrefixAt(parts, a.walPosition)
      case None => 0
      case Some(prefix) => |Rows(prefix, typeId)|
  }

  /** The requested layouts that the capture recorded. */
  function Recorded<Row>(parts: seq<Part<Row>>, layouts: seq<nat>): seq<nat> {
    if layouts == [] then []
    else (if Present(parts, layouts[0]) then [layouts[0]] else []) + Recorded(parts, layouts[1..])
  }

  lemma {:induction false} PlansAreRecorded<Row>(parts: seq<Part<Row>>, request: Request<Row>, layouts: seq<nat>)
    ensures var plans, types := PlansOf(parts, request, layouts), Recorded(parts, layouts);
            && |plans| == |types|
            && forall k :: 0 <= k < |plans| ==>
                 plans[k].typeId == types[k] && plans[k].startRow == 0 && plans[k].rows == |Rows(parts, types[k])|
  {
    hide Rows, Present;
    if layouts == [] {
    } else {
      PlansAreRecorded(parts, request, layouts[1..]);
    }
  }

  lemma {:induction false} RecordedTypes<Row>(parts: seq<Part<Row>>, layouts: seq<nat>)
    ensures forall t :: t in Recorded(parts, layouts) <==> t in layouts && Present(parts, t)
    ensures Ascending(layouts) ==> Ascending(Recorded(parts, layouts))
  {
    hide Present;
    if layouts == [] {
    } else {
      assert layouts == [layouts[0]] + layouts[1..];
      RecordedTypes(parts, layouts[1..]);
      if Ascending(layouts) {
        assert forall t :: t in layouts[1..] ==> layouts[0] < t;
        FirstIsLeast(layouts[0], Recorded(parts, layouts[1..]));
      }
    }
  }

  lemma {:induction false} FirstIsLeast(first: nat, rest: seq<nat>)
    requires Ascending(rest) && forall t :: t in rest ==> first < t
    ensures Ascending([first] + rest) && [] + rest == rest
  {
    var all := [first] + rest;
    assert all[1..] == rest;
    forall i, j | 0 <= i < j < |all|
      ensures all[i] < all[j]
    {
      if i == 0 {
        assert all[j] in rest by { assert all[1..][j - 1] == all[j]; }
      } else {
        ShiftedAscends(all, i, j);
      }
    }
  }

  lemma {:induction false} ShiftedAscends(all: seq<nat>, i: nat, j: nat)
    requires 0 < i < j < |all| && Ascending(all[1..])
    ensures all[i] < all[j]
  {
    var rest := all[1..];
    assert rest[i - 1] == all[i] && rest[j - 1] == all[j];
  }

  lemma {:induction false} PlanTypes<Row>(parts: seq<Part<Row>>, request: Request<Row>, layouts: seq<nat>)
    requires Ascending(layouts)
    ensures var plans := PlansOf(parts, request, layouts);
            && (forall i, j :: 0 <= i < j < |plans| ==> plans[i].typeId < plans[j].typeId)
            && (forall t :: t in layouts && Present(parts, t) ==> HasPlan(plans, t))
  {
    hide PlansOf, Recorded, Rows, Present;
    var plans, types := PlansOf(parts, request, layouts), Recorded(parts, layouts);
    PlansAreRecorded(parts, request, layouts);
    RecordedTypes(parts, layouts);
    forall t | t in layouts && Present(parts, t)
      ensures HasPlan(plans, t)
    {
      var k :| 0 <= k < |types| && types[k] == t;
      assert plans[k].typeId == t;
    }
  }

  /** Registry order. */
  predicate Ascending(layouts: seq<nat>) { forall i, j :: 0 <= i < j < |layouts| ==> layouts[i] < layouts[j] }

  ghost predicate HasPlan<Row>(plans: seq<Plan<Row>>, typeId: nat) {
    exists k :: 0 <= k < |plans| && plans[k].typeId == typeId
  }

  /** A plan keeps exactly the rows that pass the request's filters, from the requested start on. */
  lemma {:induction false} PlansFollowRequest<Row>(segment: Segment<Row>, request: Request<Row>, p: Prepared<Row>)
    requires segment.id == request.segmentId && Prepare(Some(segment), request, None) == Ok(p)
    requires Ascending(request.layouts)
    ensures p.parts == segment.parts && p.order == request.order && p.pageSize == request.pageSize
    ensures forall k :: 0 <= k < |p.plans| ==>
              p.plans[k].typeId in request.layouts
              && p.plans[k].startRow == StartOf(segment.parts, request.after, p.plans[k].typeId)
    ensures forall k, row :: 0 <= k < |p.plans| ==>
              (p.plans[k].Matches(row)
               <==> p.plans[k].typeId !in request.excluded && request.keep(p.plans[k].typeId, row))
    ensures forall i, j :: 0 <= i < j < |p.plans| ==> p.plans[i].typeId < p.plans[j].typeId
    ensures forall t :: t in request.layouts && Present(segment.parts, t) ==> HasPlan(p.plans, t)
  {
    hide PlansOf, TailPlans, PrefixAt, Rows, Present, HasPlan;
    var prior := ActiveTail(segment, request.after).value;
    var plans := PlansOf(segment.parts, request, request.layouts);
    PlansAreValid(segment.parts, request, request.layouts);
    PlanTypes(segment.parts, request, request.layouts);
    TailKeepsPlans(plans, prior);
    assert p.plans == TailPlans(plans, prior).value;
    forall t | t in request.layouts && Present(segment.parts, t)
      ensures HasPlan(p.plans, t)
    {
      SamePlanTypes(plans, p.plans, t);
    }
  }

  lemma {:induction false} SamePlanTypes<Row>(a: seq<Plan<Row>>, b: seq<Plan<Row>>, typeId: nat)
    requires HasPlan(a, typeId) && |a| == |b| && forall k :: 0 <= k < |a| ==> a[k].typeId == b[k].typeId
    ensures HasPlan(b, typeId)
  {
    var k :| 0 <= k < |a| && a[k].typeId == typeId;
    assert b[k].typeId == typeId;
  }

  // ----- which requests are answered -----

  predicate OwnCursor<Row>(request: Request<Row>, cursor: Option<Cursor>) {
    cursor.Some? ==> cursor.value.segmentId == request.segmentId && cursor.value.binding == request.binding
  }

  /** The cursor belongs to a finished segment, or to a capture this active one extends. */
  predicate PinsCapture<Row>(segment: Segment<Row>, cursor: Option<Cursor>) {
    match cursor
    case None => true
    case Some(c) =>
      if segment.kind == Finished then c.activePosition == 0 else PrefixAt(segment.parts, c.activePosition).Some?
  }

  function PinnedParts<Row>(segment: Segment<Row>, cursor: Option<Cursor>): seq<Part<Row>> {
    match cursor
    case None => segment.parts
    case Some(c) =>
      if segment.kind == Active && PrefixAt(segment.parts, c.activePosition).Some?
      then PrefixAt(segment.parts, c.activePosition).value else segment.parts
  }

  /** A tail is asked of this active segment, from a capture it extends. */
  predicate TailFits<Row>(segment: Segment<Row>, parts: seq<Part<Row>>, after: Option<ActiveCursor>) {
    after.Some? ==>
      segment.kind == Active && segment.id == after.value.segmentId && PrefixAt(parts, after.value.walPosition).Some?
  }

  /** The cursor stands in the requested rows of a recorded layout, or just after them. */
  predicate StandsInside<Row>(parts: seq<Part<Row>>, request: Request<Row>, cursor: Option<Cursor>) {
    match cursor
    case None => true
    case Some(c) =>
      var types := Recorded(parts, request.layouts);
      && c.layoutIndex < |types|
      && StartOf(parts, request.after, types[c.layoutIndex]) <= c.position <= |Rows(parts, types[c.layoutIndex])|
  }

  /** Exactly which requests are answered, and which refusal the others get. */
  lemma {:induction false} AnsweredExactly<Row>(segment: Option<Segment<Row>>, request: Request<Row>,
                                                cursor: Option<Cursor>)
    requires segment.Some? ==> segment.value.id == request.segmentId
    ensures segment.None? ==>
              Prepare(segment, request, cursor) == Err(if OwnCursor(request, cursor) then NoSuchSegment else BadCursor)
    ensures segment.Some? ==>
              var parts := PinnedParts(segment.value, cursor);
              var fits := && OwnCursor(request, cursor) && PinsCapture(segment.value, cursor)
                          && TailFits(segment.value, parts, request.after);
              var recorded := Recorded(parts, request.layouts) != [];
              && (Prepare(segment, request, cursor).Ok? <==> fits && recorded && StandsInside(parts, request, cursor))
              && (Prepare(segment, request, cursor) == Err(NoSuchSection) <==> fits && !recorded)
              && Prepare(segment, request, cursor) != Err(NoSuchSegment)
  {
    hide PlansOf, TailPlans, PrefixAt, Rows, Present, Recorded, StandsInside;
    if segment.Some? && PinsCapture(segment.value, cursor) {
      var s, parts := segment.value, PinnedParts(segment.value, cursor);
      if cursor.Some? { PrefixIsPrefix(s.parts, cursor.value.activePosition); }
      if TailFits(s, parts, request.after) {
        var prior := if request.after.None? then None else PrefixAt(parts, request.after.value.walPosition);
        PlansAreRecorded(parts, request, request.layouts);
        TailOfRecorded(parts, request, prior);
        StandsInPlans(parts, request, prior, cursor);
      }
    }
  }

  /** Growing captures never make the tail inconsistent: no plan starts past its rows. */
  lemma {:induction false} TailAlwaysFits<Row>(plans: seq<Plan<Row>>, parts: seq<Part<Row>>,
                                        prior: Option<seq<Part<Row>>>)
    requires forall k :: 0 <= k < |plans| ==> plans[k].rows == |Rows(parts, plans[k].typeId)|
    requires prior.Some? ==> prior.value <= parts
    ensures TailPlans(plans, prior).Ok?
  {
    if prior.Some? && plans != [] {
      RowsAppend(prior.value, parts, plans[0].typeId);
      TailAlwaysFits(plans[1..], parts, prior);
    }
  }

  lemma {:induction false} TailOfRecorded<Row>(parts: seq<Part<Row>>, request: Request<Row>,
                                               prior: Option<seq<Part<Row>>>)
    requires prior == if request.after.None? then None else PrefixAt(parts, request.after.value.walPosition)
    requires request.after.Some? ==> prior.Some?
    ensures var plans, types := PlansOf(parts, request, request.layouts), Recorded(parts, request.layouts);
            && TailPlans(plans, prior).Ok? && |TailPlans(plans, prior).value| == |plans| == |types|
            && forall k :: 0 <= k < |types| ==>
                 var plan := TailPlans(plans, prior).value[k];
                 && plan.startRow == StartOf(parts, request.after, types[k]) <= plan.rows
                 && plan.rows == |Rows(parts, types[k])|
  {
    hide PlansOf, TailPlans, PrefixAt, Rows, Recorded;
    var plans := PlansOf(parts, request, request.layouts);
    PlansAreRecorded(parts, request, request.layouts);
    if prior.Some? { PrefixIsPrefix(parts, request.after.value.walPosition); }
    TailAlwaysFits(plans, parts, prior);
    TailKeepsPlans(plans, prior);
  }

  lemma {:induction false} StandsInPlans<Row>(parts: seq<Part<Row>>, request: Request<Row>,
                                              prior: Option<seq<Part<Row>>>, cursor: Option<Cursor>)
    requires prior == if request.after.None? then None else PrefixAt(parts, request.after.value.walPosition)
    requires request.after.Some? ==> prior.Some?
    ensures var plans := TailPlans(PlansOf(parts, request, request.layouts), prior);
            && plans.Ok? && (plans.value == [] <==> Recorded(parts, request.layouts) == [])
            && (PlansOf(parts, request, request.layouts) == [] <==> Recorded(parts, request.layouts) == [])
            && (forall k :: 0 <= k < |plans.value| ==> plans.value[k].startRow <= plans.value[k].rows)
            && (cursor.None? ==> StandsInside(parts, request, cursor))
            && (cursor.Some? ==>
                  (StandsInside(parts, request, cursor)
                   <==> && cursor.value.layoutIndex < |plans.value|
                        && plans.value[cursor.value.layoutIndex].startRow <= cursor.value.position
                        && cursor.value.position <= plans.value[cursor.value.layoutIndex].rows))
  {
    hide PlansOf, TailPlans, PrefixAt, Rows, Recorded;
    TailOfRecorded(parts, request, prior);
  }

  // ----- the rows of all layouts -----

  ghost predicate HasHit<Row>(hits: seq<Hit<Row>>, tag: nat, ordinal: nat) {
    exists i :: 0 <= i < |hits| && hits[i].tag == tag && hits[i].ordinal == ordinal
  }

  predicate Before<Row>(a: Hit<Row>, b: Hit<Row>) { a.tag < b.tag || (a.tag == b.tag && a.ordinal < b.ordinal) }

  ghost predicate InOrder<Row>(order: Order, hits: seq<Hit<Row>>) {
    forall i, j :: 0 <= i < j < |hits| ==> if order.Asc? then Before(hits[i], hits[j]) else Before(hits[j], hits[i])
  }

  /** `h` is a matching row of its plan. */
  ghost predicate PlanKeeps<Row>(p: Prepared<Row>, h: Hit<Row>) {
    && h.tag < |p.plans|
    && var plan, table := p.plans[h.tag], Rows(p.parts, p.plans[h.tag].typeId);
       plan.startRow <= h.ordinal < |table| && h.row == table[h.ordinal] && plan.Matches(h.row)
  }

  ghost predicate MustHave<Row>(p: Prepared<Row>, k: nat, ordinal: nat) {
    && k < |p.plans|
    && var plan, table := p.plans[k], Rows(p.parts, p.plans[k].typeId);
       plan.startRow <= ordinal < |table| && plan.Matches(table[ordinal])
  }

  lemma {:induction false} LaterIsKept<Row>(p: Prepared<Row>, k: nat)
    requires ValidPlans(p) && k <= |p.plans|
    ensures var hits := Later(p, k);
            && InOrder(Asc, hits)
            && (forall i :: 0 <= i < |hits| ==> PlanKeeps(p, hits[i]) && hits[i].tag >= k)
            && (forall t, o :: k <= t && MustHave(p, t, o) ==> HasHit(hits, t, o))
    decreases |p.plans| - k
  {
    hide Rows, Matched, Plan.Matches, Later;
    if k == |p.plans| {
      NothingLaterThanAll(p);
    } else {
      LaterIsKept(p, k + 1);
      LayoutIsKept(p, k);
      LaterUnfolds(p, k);
      LayoutThenLater(p, k, Layout(p, k), Later(p, k + 1));
    }
  }

  lemma {:induction false} NothingLaterThanAll<Row>(p: Prepared<Row>)
    requires ValidPlans(p)
    ensures Later(p, |p.plans|) == []
  {
  }

  lemma {:induction false} LaterUnfolds<Row>(p: Prepared<Row>, k: nat)
    requires ValidPlans(p) && k < |p.plans|
    ensures Later(p, k) == Layout(p, k) + Later(p, k + 1)
  {
  }

  lemma {:induction false} LayoutIsKept<Row>(p: Prepared<Row>, k: nat)
    requires ValidPlans(p) && k < |p.plans|
    ensures var plan, table := p.plans[k], Rows(p.parts, p.plans[k].typeId);
            KeepsExactly(row => plan.Matches(row), k, table, plan.startRow, Layout(p, k))
  {
    hide Rows, Plan.Matches;
    var plan, table := p.plans[k], Rows(p.parts, p.plans[k].typeId);
    MatchedKeepsExactly(plan, row => plan.Matches(row), k, table, plan.startRow);
  }

  lemma {:induction false} LayoutThenLater<Row>(p: Prepared<Row>, k: nat, here: seq<Hit<Row>>, rest: seq<Hit<Row>>)
    requires ValidPlans(p) && k < |p.plans|
    requires var plan, table := p.plans[k], Rows(p.parts, p.plans[k].typeId);
             KeepsExactly(row => plan.Matches(row), k, table, plan.startRow, here)
    requires InOrder(Asc, rest)
    requires forall i :: 0 <= i < |rest| ==> PlanKeeps(p, rest[i]) && rest[i].tag >= k + 1
    requires forall t, o :: k + 1 <= t && MustHave(p, t, o) ==> HasHit(rest, t, o)
    ensures var hits := here + rest;
            && InOrder(Asc, hits)
            && (forall i :: 0 <= i < |hits| ==> PlanKeeps(p, hits[i]) && hits[i].tag >= k)
            && (forall t, o :: k <= t && MustHave(p, t, o) ==> HasHit(hits, t, o))
  {
    hide Rows, Plan.Matches, ValidPlans;
    var hits := here + rest;
    var plan, table := p.plans[k], Rows(p.parts, p.plans[k].typeId);
    forall i | 0 <= i < |hits|
      ensures PlanKeeps(p, hits[i]) && hits[i].tag >= k && (i < |here| ==> hits[i].tag == k)
    {
      if i < |here| { assert IsKept(row => plan.Matches(row), k, table, plan.startRow, here[i]); }
    }
    forall t, o | k <= t && MustHave(p, t, o)
      ensures HasHit(hits, t, o)
    {
      if t == k {
        assert HasOrdinal(here, o);
        var i :| 0 <= i < |here| && here[i].ordinal == o;
        assert IsKept(row => plan.Matches(row), k, table, plan.startRow, here[i]);
        assert hits[i].tag == t && hits[i].ordinal == o;
      } else {
        assert HasHit(rest, t, o);
        var i :| 0 <= i < |rest| && rest[i].tag == t && rest[i].ordinal == o;
        assert hits[|here| + i] == rest[i];
      }
    }
  }

  lemma {:induction false} EverythingIsKept<Row>(p: Prepared<Row>)
    requires ValidPlans(p)
    ensures var hits := Everything(p);
            && InOrder(p.order, hits)
            && (forall i :: 0 <= i < |hits| ==> PlanKeeps(p, hits[i]))
            && (forall t, o :: MustHave(p, t, o) ==> HasHit(hits, t, o))
  {
    hide PlanKeeps, MustHave, Rows, Later, Before;
    LaterIsKept(p, 0);
    var forward, hits := Later(p, 0), Everything(p);
    forall t, o | MustHave(p, t, o)
      ensures HasHit(hits, t, o)
    {
      var i :| 0 <= i < |forward| && forward[i].tag == t && forward[i].ordinal == o;
      assert hits[if p.order.Asc? then i else |forward| - 1 - i] == forward[i];
    }
  }

  // ----- the rows of a whole walk -----

  /** The delivered rows, each under its layout's type. */
  function Named<Row>(plans: seq<Plan<Row>>, hits: seq<Hit<Row>>): (named: seq<Hit<Row>>)
    ensures |named| == |hits|
    ensures forall i :: 0 <= i < |hits| && hits[i].tag < |plans| ==>
              named[i] == Hit(plans[hits[i].tag].typeId, hits[i].ordinal, hits[i].row)
  {
    seq(|hits|, i requires 0 <= i < |hits| =>
      if hits[i].tag < |plans| then Hit(plans[hits[i].tag].typeId, hits[i].ordinal, hits[i].row) else hits[i])
  }

  /** A walk to its end delivers, in the order of type and position asked for, the rows of the
      first capture that are requested: each of them once and no other. */
  lemma {:induction false} WalkDeliversFilteredRows<Row>(history: seq<Segment<Row>>, request: Request<Row>,
                                                         pages: seq<Page<Row>>)
    requires IsWalk(history, request, pages) && request.pageSize >= 1 && pages[|pages| - 1].next.None?
    requires Ascending(request.layouts)
    ensures Prepare(Some(history[0]), request, None).Ok?
    ensures var parts := history[0].parts;
            var rows := Named(Prepare(Some(history[0]), request, None).value.plans, Delivered(pages));
            && InOrder(request.order, rows)
            && (forall i :: 0 <= i < |rows| ==>
                  var typeId, ordinal, row := rows[i].tag, rows[i].ordinal, rows[i].row;
                  && typeId in request.layouts && typeId !in request.excluded
                  && StartOf(parts, request.after, typeId) <= ordinal < |Rows(parts, typeId)|
                  && row == Rows(parts, typeId)[ordinal] && request.keep(typeId, row))
            && (forall typeId, ordinal ::
                  && typeId in request.layouts && typeId !in request.excluded
                  && StartOf(parts, request.after, typeId) <= ordinal < |Rows(parts, typeId)|
                  && request.keep(typeId, Rows(parts, typeId)[ordinal])
                  ==> HasHit(rows, typeId, ordinal))
  {
    hide IsWalk, Prepare, Everything, Rows, Named, StartOf, HasPlan, Plan.Matches;
    WalkDeliversEverything(history, request, pages);
    FirstSegment(history, request, pages);
    var segment, p := history[0], Prepare(Some(history[0]), request, None).value;
    PlansFollowRequest(segment, request, p);
    EverythingIsKept(p);
    var hits := Everything(p);
    var rows := Named(p.plans, hits);
    NamedInOrder(p, hits);
    forall i | 0 <= i < |rows|
      ensures var typeId, ordinal, row := rows[i].tag, rows[i].ordinal, rows[i].row;
              && typeId in request.layouts && typeId !in request.excluded
              && StartOf(segment.parts, request.after, typeId) <= ordinal < |Rows(segment.parts, typeId)|
              && row == Rows(segment.parts, typeId)[ordinal] && request.keep(typeId, row)
    {
      NamedAt(p.plans, hits, i);
      assert PlanKeeps(p, hits[i]);
    }
    forall typeId, ordinal |
      && typeId in request.layouts && typeId !in request.excluded
      && StartOf(segment.parts, request.after, typeId) <= ordinal < |Rows(segment.parts, typeId)|
      && request.keep(typeId, Rows(segment.parts, typeId)[ordinal])
      ensures HasHit(rows, typeId, ordinal)
    {
      if !Present(segment.parts, typeId) { AbsentMeansNoRows(segment.parts, typeId); }
      var k := PlanOfType(p.plans, typeId);
      assert p.plans[k].startRow == StartOf(segment.parts, request.after, typeId);
      assert p.plans[k].Matches(Rows(p.parts, p.plans[k].typeId)[ordinal]);
      assert MustHave(p, k, ordinal);
      NamedHas(p.plans, hits, k, ordinal);
    }
  }

  lemma {:induction false} FirstSegment<Row>(history: seq<Segment<Row>>, request: Request<Row>, pages: seq<Page<Row>>)
    requires IsWalk(history, request, pages)
    ensures history != [] && history[0].id == request.segmentId
  {
  }

  lemma {:induction false} PlanOfType<Row>(plans: seq<Plan<Row>>, typeId: nat) returns (k: nat)
    requires HasPlan(plans, typeId)
    ensures k < |plans| && plans[k].typeId == typeId
  {
    k :| 0 <= k < |plans| && plans[k].typeId == typeId;
  }

  lemma {:induction false} NamedAt<Row>(plans: seq<Plan<Row>>, hits: seq<Hit<Row>>, i: nat)
    requires i < |hits| && hits[i].tag < |plans|
    ensures Named(plans, hits)[i] == Hit(plans[hits[i].tag].typeId, hits[i].ordinal, hits[i].row)
  {
  }

  lemma {:induction false} NamedHas<Row>(plans: seq<Plan<Row>>, hits: seq<Hit<Row>>, k: nat, ordinal: nat)
    requires k < |plans| && HasHit(hits, k, ordinal)
    ensures HasHit(Named(plans, hits), plans[k].typeId, ordinal)
  {
    var i :| 0 <= i < |hits| && hits[i].tag == k && hits[i].ordinal == ordinal;
    NamedAt(plans, hits, i);
  }

  lemma {:induction false} NamedInOrder<Row>(p: Prepared<Row>, hits: seq<Hit<Row>>)
    requires forall i, j :: 0 <= i < j < |p.plans| ==> p.plans[i].typeId < p.plans[j].typeId
    requires InOrder(p.order, hits) && forall i :: 0 <= i < |hits| ==> PlanKeeps(p, hits[i])
    ensures InOrder(p.order, Named(p.plans, hits))
  {
    hide Rows, Plan.Matches;
    forall i, j | 0 <= i < j < |hits|
      ensures var a, b := Named(p.plans, hits)[i], Named(p.plans, hits)[j];
              if p.order.Asc? then Before(a, b) else Before(b, a)
    {
      assert PlanKeeps(p, hits[i]) && PlanKeeps(p, hits[j]);
      NamedAt(p.plans, hits, i);
      NamedAt(p.plans, hits, j);
    }
  }
}
