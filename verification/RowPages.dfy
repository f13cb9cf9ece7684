/** Stable bounded pages over physical row order (crates/kronika-query/src/rows.rs,
    crates/kronika-query/src/projection.rs, crates/kronika-query/src/selection.rs).

    `Remaining` is what a cursor still has to deliver; both pagers are proved to return its first
    `pageSize` hits and a cursor for the rest. */
module RowPages {
  import opened Machine
  import opened Journal

  datatype Kind = Finished | Active

  datatype Order = Asc | Desc

  datatype Error = BadCursor | NoSuchSegment | NoSuchSection

  datatype Result<+T> = Ok(value: T) | Err(error: Error)

  datatype Segment<+Row> = Segment(id: int, kind: Kind, parts: seq<Part<Row>>) {
    /** Finished segments have no journal position. */
    function ActivePosition(): Option<nat> {
      if kind.Active? then Some(Boundary(parts)) else None
    }

    function PositionOrZero(): nat {
      match ActivePosition() case Some(position) => position case None => 0
    }
  }

  datatype Cursor = Cursor(segmentId: int, activePosition: nat, layoutIndex: nat, position: nat, binding: nat)

  datatype ActiveCursor = ActiveCursor(segmentId: int, walPosition: nat)

  /** `layouts` are the section's registry layouts in numeric order, `excluded` those that lack a
      filtered column, `keep` the typed filters of the others, `binding` the request hash. */
  datatype Request<!Row> = Request(
    segmentId: int, layouts: seq<nat>, excluded: set<nat>, keep: (nat, Row) -> bool,
    after: Option<ActiveCursor>, order: Order, pageSize: nat, binding: nat)

  datatype Plan<!Row> = Plan(typeId: nat, startRow: nat, rows: nat, matchesNone: bool, keep: Row -> bool) {
    predicate Applies() { !matchesNone }

    predicate Matches(row: Row) { !matchesNone && keep(row) }
  }

  datatype Prepared<!Row> = Prepared(
    parts: seq<Part<Row>>, plans: seq<Plan<Row>>, order: Order, pageSize: nat, start: Cursor)

  // ----- preparation -----

  function Pin<Row>(current: Segment<Row>, cursor: Option<Cursor>): Result<Segment<Row>> {
    match cursor
    case None => Ok(current)
    case Some(c) =>
      if current.kind.Finished? then (if c.activePosition == 0 then Ok(current) else Err(BadCursor))
      else match PrefixAt(current.parts, c.activePosition)
           case None => Err(BadCursor)
           case Some(prefix) => Ok(current.(parts := prefix))
  }

  function ActiveTail<Row>(current: Segment<Row>, after: Option<ActiveCursor>): Result<Option<seq<Part<Row>>>> {
    match after
    case None => Ok(None)
    case Some(a) =>
      if current.kind != Active || current.id != a.segmentId then Err(BadCursor)
      else match PrefixAt(current.parts, a.walPosition)
           case None => Err(BadCursor)
           case Some(prefix) => Ok(Some(prefix))
  }

  function PlanOf<Row>(parts: seq<Part<Row>>, request: Request<Row>, typeId: nat): Plan<Row> {
    Plan(typeId, 0, |Rows(parts, typeId)|, typeId in request.excluded, row => request.keep(typeId, row))
  }

  /** One plan for each requested layout the segment recorded. */
  function PlansOf<Row>(parts: seq<Part<Row>>, request: Request<Row>, layouts: seq<nat>): seq<Plan<Row>> {
    if layouts == [] then []
    else
      (if Present(parts, layouts[0]) then [PlanOf(parts, request, layouts[0])] else [])
      + PlansOf(parts, request, layouts[1..])
  }

  /** Each plan starts after the rows the prior capture already had. */
  function TailPlans<Row>(plans: seq<Plan<Row>>, prior: Option<seq<Part<Row>>>): Result<seq<Plan<Row>>> {
    if prior.None? then Ok(plans)
    else if plans == [] then Ok([])
    else
      var first := plans[0].(startRow := |Rows(prior.value, plans[0].typeId)|);
      if first.startRow > first.rows then Err(BadCursor)
      else match TailPlans(plans[1..], prior)
           case Err(e) => Err(e)
           case Ok(rest) => Ok([first] + rest)
  }

  method ApplyTail<Row>(plans: seq<Plan<Row>>, prior: Option<seq<Part<Row>>>) returns (tailed: Result<seq<Plan<Row>>>)
    requires prior.Some? ==> ValidParts(prior.value)
    ensures tailed == TailPlans(plans, prior)
  {
    hide TailPlans, TailFrom, Rows, Present;
    TailEnds(plans, prior, []);
    if prior.None? {
      return Ok(plans);
    }
    var sections := SectionsOf(prior.value);
    var updated := [];
    for k := 0 to |plans|
      invariant TailPlans(plans, prior) == TailFrom(plans, prior, k, updated)
    {
      var typeId := plans[k].typeId;
      if typeId !in sections { AbsentMeansNoRows(prior.value, typeId); }
      var plan := plans[k].(startRow := if typeId in sections then sections[typeId] else 0);
      TailStep(plans, prior, k, updated);
      if plan.startRow > plan.rows {
        return Err(BadCursor);
      }
      updated := updated + [plan];
    }
    TailEnds(plans, prior, updated);
    return Ok(updated);
  }

  /** The tail plans, once the first `k` of them are known. */
  ghost function TailFrom<Row>(plans: seq<Plan<Row>>, prior: Option<seq<Part<Row>>>, k: nat,
                               updated: seq<Plan<Row>>): Result<seq<Plan<Row>>>
    requires k <= |plans|
  {
    match TailPlans(plans[k..], prior)
    case Err(e) => Err(e)
    case Ok(rest) => Ok(updated + rest)
  }

  lemma {:induction false} TailEnds<Row>(plans: seq<Plan<Row>>, prior: Option<seq<Part<Row>>>, updated: seq<Plan<Row>>)
    ensures TailFrom(plans, prior, 0, []) == TailPlans(plans, prior)
    ensures TailFrom(plans, prior, |plans|, updated) == Ok(updated)
    ensures prior.None? ==> TailPlans(plans, prior) == Ok(plans)
  {
    assert plans[0..] == plans && plans[|plans|..] == [];
    if TailPlans(plans, prior).Ok? { assert [] + TailPlans(plans, prior).value == TailPlans(plans, prior).value; }
    assert updated + [] == updated;
  }

  lemma {:induction false} TailStep<Row>(plans: seq<Plan<Row>>, prior: Option<seq<Part<Row>>>, k: nat,
                                         updated: seq<Plan<Row>>)
    requires prior.Some? && k < |plans|
    ensures var plan := plans[k].(startRow := |Rows(prior.value, plans[k].typeId)|);
            TailFrom(plans, prior, k, updated)
            == if plan.startRow > plan.rows then Err(BadCursor) else TailFrom(plans, prior, k + 1, updated + [plan])
  {
    hide Rows;
    var plan := plans[k].(startRow := |Rows(prior.value, plans[k].typeId)|);
    assert plans[k..][0] == plans[k] && plans[k..][1..] == plans[k + 1..];
    if TailPlans(plans[k + 1..], prior).Ok? {
      AppendAssociates(updated, [plan], TailPlans(plans[k + 1..], prior).value);
    }
  }

  function FirstCursor<Row>(request: Request<Row>, pinned: Segment<Row>, plans: seq<Plan<Row>>): Cursor
    requires plans != []
  {
    var last := |plans| - 1;
    match request.order
    case Asc => Cursor(pinned.id, pinned.PositionOrZero(), 0, plans[0].startRow, request.binding)
    case Desc => Cursor(pinned.id, pinned.PositionOrZero(), last, plans[last].rows, request.binding)
  }

  /** `segment` is the current capture of the requested id. */
  function Prepare<Row>(segment: Option<Segment<Row>>, request: Request<Row>,
                        cursor: Option<Cursor>): Result<Prepared<Row>>
    requires segment.Some? ==> segment.value.id == request.segmentId
  {
    if cursor.Some? && (cursor.value.segmentId != request.segmentId || cursor.value.binding != request.binding) then
      Err(BadCursor)
    else if segment.None? then Err(NoSuchSegment)
    else match Pin(segment.value, cursor)
      case Err(e) => Err(e)
      case Ok(pinned) =>
        match ActiveTail(pinned, request.after)
        case Err(e) => Err(e)
        case Ok(prior) =>
          var plans := PlansOf(pinned.parts, request, request.layouts);
          if plans == [] then Err(NoSuchSection)
          else match TailPlans(plans, prior)
            case Err(e) => Err(e)
            case Ok(tailed) =>
              PreparedAt(request, pinned, tailed, cursor)
  }

  function PreparedAt<Row>(request: Request<Row>, pinned: Segment<Row>, plans: seq<Plan<Row>>, cursor: Option<Cursor>)
    : Result<Prepared<Row>>
  {
    if plans == [] then Err(BadCursor)
    else
      var start := if cursor.Some? then cursor.value else FirstCursor(request, pinned, plans);
      if start.layoutIndex >= |plans|
         || start.position < plans[start.layoutIndex].startRow
         || start.position > plans[start.layoutIndex].rows
         || start.activePosition != pinned.PositionOrZero()
      then Err(BadCursor)
      else Ok(Prepared(pinned.parts, plans, request.order, request.pageSize, start))
  }

  // ----- what a page must contain -----

  /** A matching row; `tag` is its layout index or its type. */
  datatype Hit<+Row> = Hit(tag: nat, ordinal: nat, row: Row)

  function Matched<Row>(plan: Plan<Row>, table: seq<Row>, tag: nat, lo: nat, hi: nat): seq<Hit<Row>>
    requires hi <= |table|
    decreases hi - lo
  {
    if lo >= hi then []
    else (if plan.Matches(table[lo]) then [Hit(tag, lo, table[lo])] else []) + Matched(plan, table, tag, lo + 1, hi)
  }

  predicate ValidPlans<Row>(p: Prepared<Row>) {
    forall k :: 0 <= k < |p.plans| ==>
      p.plans[k].startRow <= p.plans[k].rows == |Rows(p.parts, p.plans[k].typeId)|
  }

  predicate Valid<Row>(p: Prepared<Row>) {
    ValidPlans(p) && ValidCursor(p, p.start.layoutIndex, p.start.position)
  }

  predicate ValidCursor<Row>(p: Prepared<Row>, k: nat, position: nat) {
    k < |p.plans| && p.plans[k].startRow <= position <= p.plans[k].rows
  }

  function Span<Row>(p: Prepared<Row>, k: nat, lo: nat, hi: nat): seq<Hit<Row>>
    requires ValidPlans(p) && k < |p.plans| && hi <= p.plans[k].rows
  {
    Matched(p.plans[k], Rows(p.parts, p.plans[k].typeId), k, lo, hi)
  }

  function Layout<Row>(p: Prepared<Row>, k: nat): seq<Hit<Row>>
    requires ValidPlans(p) && k < |p.plans|
  {
    Span(p, k, p.plans[k].startRow, p.plans[k].rows)
  }

  function Later<Row>(p: Prepared<Row>, k: nat): seq<Hit<Row>>
    requires ValidPlans(p) && k <= |p.plans|
    decreases |p.plans| - k
  {
    if k == |p.plans| then [] else Layout(p, k) + Later(p, k + 1)
  }

  function Earlier<Row>(p: Prepared<Row>, k: nat): seq<Hit<Row>>
    requires ValidPlans(p) && k <= |p.plans|
  {
    if k == 0 then [] else Earlier(p, k - 1) + Layout(p, k - 1)
  }

  function From<Row>(p: Prepared<Row>, k: nat, position: nat): seq<Hit<Row>>
    requires ValidPlans(p) && ValidCursor(p, k, position)
  {
    Span(p, k, position, p.plans[k].rows) + Later(p, k + 1)
  }

  function UpTo<Row>(p: Prepared<Row>, k: nat, position: nat): seq<Hit<Row>>
    requires ValidPlans(p) && ValidCursor(p, k, position)
  {
    Earlier(p, k) + Span(p, k, p.plans[k].startRow, position)
  }

  function Reverse<T>(s: seq<T>): (r: seq<T>)
    ensures |r| == |s|
  {
    seq(|s|, i requires 0 <= i < |s| => s[|s| - 1 - i])
  }

  /** Every filtered row of every layout, in the requested direction. */
  function Everything<Row>(p: Prepared<Row>): seq<Hit<Row>>
    requires ValidPlans(p)
  {
    if p.order.Asc? then Later(p, 0) else Reverse(Later(p, 0))
  }

  /** What the cursor `p.start` still has to deliver. */
  function Remaining<Row>(p: Prepared<Row>): seq<Hit<Row>>
    requires Valid(p)
  {
    if p.order.Asc? then From(p, p.start.layoutIndex, p.start.position)
    else Reverse(UpTo(p, p.start.layoutIndex, p.start.position))
  }

  /** Ascending pages resume at the first undelivered row, descending ones just above it. */
  function CursorAt<Row>(p: Prepared<Row>, hit: Hit<Row>): Cursor {
    p.start.(layoutIndex := hit.tag, position := if p.order.Asc? then hit.ordinal else hit.ordinal + 1)
  }

  datatype Page<+Row> = Page(hits: seq<Hit<Row>>, next: Option<Cursor>)

  function PageOf<Row>(p: Prepared<Row>): Page<Row>
    requires Valid(p)
  {
    FirstPage(p, Remaining(p))
  }

  function FirstPage<Row>(p: Prepared<Row>, all: seq<Hit<Row>>): Page<Row> {
    if |all| <= p.pageSize then Page(all, None)
    else Page(all[..p.pageSize], Some(CursorAt(p, all[p.pageSize])))
  }

  // ----- splitting the filtered sequence -----

  lemma {:induction false} MatchedSplit<Row>(plan: Plan<Row>, table: seq<Row>, tag: nat, lo: nat, mid: nat, hi: nat)
    requires lo <= mid <= hi <= |table|
    ensures Matched(plan, table, tag, lo, hi)
         == Matched(plan, table, tag, lo, mid) + Matched(plan, table, tag, mid, hi)
    decreases mid - lo
  {
    if lo >= mid {
    } else {
      MatchedSplit(plan, table, tag, lo + 1, mid, hi);
    }
  }

  /** Every hit is a matching row at its ordinal, and as many hits precede it as rows matched before. */
  lemma {:induction false} HitAt<Row>(plan: Plan<Row>, table: seq<Row>, tag: nat, lo: nat, hi: nat, i: nat)
    requires hi <= |table| && i < |Matched(plan, table, tag, lo, hi)|
    ensures var h := Matched(plan, table, tag, lo, hi)[i];
            && h.tag == tag && lo <= h.ordinal < hi && h.row == table[h.ordinal] && plan.Matches(h.row)
            && |Matched(plan, table, tag, lo, h.ordinal)| == i
    decreases hi - lo
  {
    hide Matched, Plan.Matches;
    MatchedStep(plan, table, tag, lo, hi);
    var m, rest := Matched(plan, table, tag, lo, hi), Matched(plan, table, tag, lo + 1, hi);
    if !plan.Matches(table[lo]) {
      assert m == rest;
      HitAt(plan, table, tag, lo + 1, hi, i);
      MatchedStep(plan, table, tag, lo, m[i].ordinal);
    } else if i > 0 {
      HitAt(plan, table, tag, lo + 1, hi, i - 1);
      MatchedStep(plan, table, tag, lo, m[i].ordinal);
    } else {
      MatchedStep(plan, table, tag, lo, lo);
    }
  }

  /** A hit cuts the sequence where it stands. */
  lemma {:induction false} MatchedAt<Row>(plan: Plan<Row>, table: seq<Row>, tag: nat, lo: nat, hi: nat, i: nat)
    requires hi <= |table| && i < |Matched(plan, table, tag, lo, hi)|
    ensures var m := Matched(plan, table, tag, lo, hi);
            m[i].tag == tag && lo <= m[i].ordinal < hi && m[i].row == table[m[i].ordinal]
            && Matched(plan, table, tag, m[i].ordinal, hi) == m[i..]
            && Matched(plan, table, tag, lo, m[i].ordinal + 1) == m[..i + 1]
  {
    hide Matched, Plan.Matches;
    HitAt(plan, table, tag, lo, hi, i);
    var m := Matched(plan, table, tag, lo, hi);
    var o := m[i].ordinal;
    MatchedSplit(plan, table, tag, lo, o, hi);
    MatchedSplit(plan, table, tag, lo, o, o + 1);
    MatchedStep(plan, table, tag, o, o + 1);
    MatchedStep(plan, table, tag, o + 1, o + 1);
    assert m[..i + 1] == m[..i] + [m[i]];
  }

  lemma {:induction false} MatchedStep<Row>(plan: Plan<Row>, table: seq<Row>, tag: nat, lo: nat, hi: nat)
    requires hi <= |table|
    ensures Matched(plan, table, tag, lo, hi)
         == if lo >= hi then []
            else (if plan.Matches(table[lo]) then [Hit(tag, lo, table[lo])] else [])
                 + Matched(plan, table, tag, lo + 1, hi)
  {
  }

  lemma {:induction false} FromAt<Row>(p: Prepared<Row>, k: nat, position: nat, i: nat)
    requires ValidPlans(p) && ValidCursor(p, k, position) && i < |From(p, k, position)|
    ensures var h := From(p, k, position)[i];
            ValidCursor(p, h.tag, h.ordinal) && From(p, h.tag, h.ordinal) == From(p, k, position)[i..]
    decreases |p.plans| - k
  {
    hide Rows, Matched;
    var here := Span(p, k, position, p.plans[k].rows);
    var all := From(p, k, position);
    if i < |here| {
      MatchedAt(p.plans[k], Rows(p.parts, p.plans[k].typeId), k, position, p.plans[k].rows, i);
      assert all[i..] == here[i..] + Later(p, k + 1);
    } else {
      assert k + 1 < |p.plans|;
      var start := p.plans[k + 1].startRow;
      FromAt(p, k + 1, start, i - |here|);
      assert From(p, k + 1, start) == Later(p, k + 1);
      assert all[i..] == Later(p, k + 1)[i - |here|..];
    }
  }

  lemma {:induction false} UpToAt<Row>(p: Prepared<Row>, k: nat, position: nat, j: nat)
    requires ValidPlans(p) && ValidCursor(p, k, position) && j < |UpTo(p, k, position)|
    ensures var h := UpTo(p, k, position)[j];
            ValidCursor(p, h.tag, h.ordinal + 1)
            && UpTo(p, h.tag, h.ordinal + 1) == UpTo(p, k, position)[..j + 1]
  {
    hide Rows, Matched;
    var before, here := Earlier(p, k), Span(p, k, p.plans[k].startRow, position);
    var all := UpTo(p, k, position);
    if j >= |before| {
      MatchedAt(p.plans[k], Rows(p.parts, p.plans[k].typeId), k, p.plans[k].startRow, position, j - |before|);
      assert all[..j + 1] == before + here[..j + 1 - |before|];
    } else {
      assert k > 0;
      assert UpTo(p, k - 1, p.plans[k - 1].rows) == before;
      UpToAt(p, k - 1, p.plans[k - 1].rows, j);
      assert all[..j + 1] == before[..j + 1];
    }
  }

  /** The cursor of `hit` is accepted again and leaves exactly `rest`. */
  ghost predicate Resumes<Row>(p: Prepared<Row>, hit: Hit<Row>, rest: seq<Hit<Row>>) {
    var q := p.(start := CursorAt(p, hit));
    Valid(q) && Remaining(q) == rest
  }

  /** Resuming at the cursor of the i-th undelivered hit leaves exactly the hits from there on. */
  lemma {:induction false} ResumeAt<Row>(p: Prepared<Row>, i: nat)
    requires Valid(p) && i < |Remaining(p)|
    ensures Resumes(p, Remaining(p)[i], Remaining(p)[i..])
  {
    hide From, UpTo, Rows, ValidPlans, ValidCursor, Resumes;
    if p.order.Asc? {
      ResumeAscending(p, i);
    } else {
      var all := UpTo(p, p.start.layoutIndex, p.start.position);
      assert Remaining(p) == Reverse(all);
      ReverseSuffix(all, i);
      ResumeDescending(p, all, |all| - 1 - i);
    }
  }

  /** What is left after restarting at a valid cursor. */
  lemma {:induction false} Restarted<Row>(p: Prepared<Row>, c: Cursor)
    requires ValidPlans(p) && ValidCursor(p, c.layoutIndex, c.position)
    ensures var q := p.(start := c);
            && Valid(q)
            && Remaining(q) == if p.order.Asc? then From(p, c.layoutIndex, c.position)
                               else Reverse(UpTo(p, c.layoutIndex, c.position))
  {
    hide From, UpTo, Rows;
    var q := p.(start := c);
    SameFrom(p, q, c.layoutIndex, c.position);
    SameUpTo(p, q, c.layoutIndex, c.position);
  }

  lemma {:induction false} ResumeAscending<Row>(p: Prepared<Row>, i: nat)
    requires Valid(p) && p.order.Asc? && i < |Remaining(p)|
    ensures Resumes(p, Remaining(p)[i], Remaining(p)[i..])
  {
    hide From, UpTo, Rows;
    var h := Remaining(p)[i];
    FromAt(p, p.start.layoutIndex, p.start.position, i);
    Restarted(p, CursorAt(p, h));
  }

  lemma {:induction false} ResumeDescending<Row>(p: Prepared<Row>, all: seq<Hit<Row>>, j: nat)
    requires Valid(p) && p.order.Desc? && all == UpTo(p, p.start.layoutIndex, p.start.position) && j < |all|
    ensures Resumes(p, all[j], Reverse(all[..j + 1]))
  {
    hide From, UpTo, Rows, Remaining, Reverse;
    UpToAt(p, p.start.layoutIndex, p.start.position, j);
    Restarted(p, CursorAt(p, all[j]));
  }

  lemma {:induction false} ReverseSnoc<T>(s: seq<T>, x: T)
    ensures Reverse(s + [x]) == [x] + Reverse(s)
  {
  }

  lemma {:induction false} ReverseSuffix<T>(s: seq<T>, i: nat)
    requires i <= |s|
    ensures Reverse(s[..|s| - i]) == Reverse(s)[i..]
    ensures i < |s| ==> Reverse(s)[i] == s[|s| - 1 - i]
  {
  }

  lemma {:induction false} SameLater<Row>(p: Prepared<Row>, q: Prepared<Row>, k: nat)
    requires ValidPlans(p) && q == p.(start := q.start) && k <= |p.plans|
    ensures Later(p, k) == Later(q, k)
    decreases |p.plans| - k
  {
    if k >= |p.plans| {
    } else {
      SameLater(p, q, k + 1);
    }
  }

  lemma {:induction false} SameFrom<Row>(p: Prepared<Row>, q: Prepared<Row>, k: nat, position: nat)
    requires ValidPlans(p) && q == p.(start := q.start) && ValidCursor(p, k, position)
    ensures From(p, k, position) == From(q, k, position)
  {
    SameLater(p, q, k + 1);
  }

  lemma {:induction false} SameUpTo<Row>(p: Prepared<Row>, q: Prepared<Row>, k: nat, position: nat)
    requires ValidPlans(p) && q == p.(start := q.start) && ValidCursor(p, k, position)
    ensures UpTo(p, k, position) == UpTo(q, k, position)
  {
    if k == 0 {
    } else {
      SameUpTo(p, q, k - 1, p.plans[k - 1].rows);
    }
  }

  lemma {:induction false} AppendAssociates<T>(a: seq<T>, b: seq<T>, c: seq<T>)
    ensures (a + b) + c == a + (b + c)
  {
  }

  lemma {:induction false} EarlierAndLater<Row>(p: Prepared<Row>, k: nat)
    requires ValidPlans(p) && k <= |p.plans|
    ensures Earlier(p, k) + Later(p, k) == Later(p, 0)
  {
    hide Earlier, Later, Layout, Rows;
    LayoutSteps(p, k);
    if k > 0 {
      EarlierAndLater(p, k - 1);
      AppendAssociates(Earlier(p, k - 1), Layout(p, k - 1), Later(p, k));
    } else {
      assert [] + Later(p, 0) == Later(p, 0);
    }
  }

  lemma {:induction false} LayoutSteps<Row>(p: Prepared<Row>, k: nat)
    requires ValidPlans(p) && k <= |p.plans|
    ensures k == 0 ==> Earlier(p, k) == []
    ensures k > 0 ==> Earlier(p, k) == Earlier(p, k - 1) + Layout(p, k - 1)
    ensures k > 0 ==> Later(p, k - 1) == Layout(p, k - 1) + Later(p, k)
  {
  }

  /** A first request has everything left to deliver. */
  lemma {:induction false} FirstCursorCoversEverything<Row>(p: Prepared<Row>)
    requires Valid(p)
    requires p.order.Asc? ==> p.start.layoutIndex == 0 && p.start.position == p.plans[0].startRow
    requires p.order.Desc? ==> p.start.layoutIndex == |p.plans| - 1 && p.start.position == p.plans[|p.plans| - 1].rows
    ensures Remaining(p) == Everything(p)
  {
    if p.order.Desc? {
      EarlierAndLater(p, |p.plans|);
      assert Earlier(p, |p.plans|) + [] == Earlier(p, |p.plans|);
    }
  }

  // ----- the pagers -----

  function ChunkRows(pageSize: nat): nat {
    if pageSize < USIZE_MAX then pageSize + 1 else USIZE_MAX
  }

  /** Hits of a chunk of numbered rows, in chunk order. */
  function ChunkHits<Row>(plan: Plan<Row>, tag: nat, chunk: seq<(nat, Row)>): seq<Hit<Row>> {
    if chunk == [] then []
    else (if plan.Matches(chunk[0].1) then [Hit(tag, chunk[0].0, chunk[0].1)] else [])
         + ChunkHits(plan, tag, chunk[1..])
  }

  lemma {:induction false} ChunkOfSlice<Row>(plan: Plan<Row>, table: seq<Row>, tag: nat, lo: nat, hi: nat)
    requires lo <= hi <= |table|
    ensures ChunkHits(plan, tag, Numbered(table, lo, hi)) == Matched(plan, table, tag, lo, hi)
    decreases hi - lo
  {
    if lo >= hi {
    } else {
      assert Numbered(table, lo, hi)[1..] == Numbered(table, lo + 1, hi);
      ChunkOfSlice(plan, table, tag, lo + 1, hi);
    }
  }

  /** The state of a page while `rest` is still to be looked at. */
  ghost predicate Progress<Row>(p: Prepared<Row>, all: seq<Hit<Row>>, hits: seq<Hit<Row>>, next: Option<Cursor>,
                                rest: seq<Hit<Row>>) {
    if next.None? then |hits| <= p.pageSize && hits + rest == all
    else Page(hits, next) == FirstPage(p, all)
  }

  method EmitAscChunk<Row>(p: Prepared<Row>, layoutIndex: nat, rows: seq<(nat, Row)>, page: seq<Hit<Row>>,
                           ghost all: seq<Hit<Row>>, ghost rest: seq<Hit<Row>>)
    returns (hits: seq<Hit<Row>>, next: Option<Cursor>)
    requires p.order.Asc? && layoutIndex < |p.plans|
    requires Progress(p, all, page, None, ChunkHits(p.plans[layoutIndex], layoutIndex, rows) + rest)
    ensures Progress(p, all, hits, next, rest)
  {
    var plan := p.plans[layoutIndex];
    hits, next := page, None;
    assert rows[0..] == rows;
    for k := 0 to |rows|
      invariant Progress(p, all, hits, next, ChunkHits(plan, layoutIndex, rows[k..]) + rest)
      invariant next.None?
    {
      var (ordinal, row) := rows[k];
      assert rows[k..][0] == rows[k] && rows[k..][1..] == rows[k + 1..];
      ghost var tail := ChunkHits(plan, layoutIndex, rows[k + 1..]) + rest;
      if !plan.Matches(row) {
        assert [] + ChunkHits(plan, layoutIndex, rows[k + 1..]) == ChunkHits(plan, layoutIndex, rows[k + 1..]);
        continue;
      }
      assert all == (hits + [Hit(layoutIndex, ordinal, row)]) + tail;
      if |hits| == p.pageSize {
        assert all[..p.pageSize] == hits && all[p.pageSize] == Hit(layoutIndex, ordinal, row);
        next := Some(p.start.(layoutIndex := layoutIndex, position := ordinal));
        break;
      }
      hits := hits + [Hit(layoutIndex, ordinal, row)];
    }
    if next.None? {
      assert rows[|rows|..] == [] && ChunkHits(plan, layoutIndex, []) + rest == rest;
    }
  }

  /** One ascending page: layouts in order, rows in chunks of one more than a page. */
  method AscPage<Row>(p: Prepared<Row>) returns (page: Page<Row>)
    requires Valid(p) && p.order.Asc?
    ensures page == PageOf(p)
  {
    hide Remaining, From, Later, Unseen, Progress, PageOf, Rows, Plan.Applies;
    ghost var all := Remaining(p);
    var hits, next := [], None;
    var layoutIndex := p.start.layoutIndex;
    StartProgress(p, all);
    UnseenAtStart(p);
    while layoutIndex < |p.plans|
      invariant p.start.layoutIndex <= layoutIndex <= |p.plans|
      invariant next.None? && Progress(p, all, hits, next, Unseen(p, layoutIndex))
    {
      var plan := p.plans[layoutIndex];
      var offset := if layoutIndex == p.start.layoutIndex then p.start.position else plan.startRow;
      UnseenIsFrom(p, layoutIndex);
      if plan.Applies() {
        hits, next := AscLayout(p, layoutIndex, offset, hits, all);
        if next.Some? {
          PageDone(p, hits, next, Later(p, layoutIndex + 1));
          return Page(hits, next);
        }
      } else {
        SkippedLayout(p, layoutIndex, offset);
      }
      layoutIndex := layoutIndex + 1;
    }
    NothingLater(p);
    PageDone(p, hits, next, []);
    return Page(hits, next);
  }

  lemma {:induction false} UnseenAtStart<Row>(p: Prepared<Row>)
    requires Valid(p)
    ensures Unseen(p, p.start.layoutIndex) == Remaining(p)
  {
  }

  /** What an ascending page has not looked at when it comes to layout `k`. */
  ghost function Unseen<Row>(p: Prepared<Row>, k: nat): seq<Hit<Row>>
    requires Valid(p) && k <= |p.plans|
  {
    if k == p.start.layoutIndex then Remaining(p) else Later(p, k)
  }

  lemma {:induction false} UnseenIsFrom<Row>(p: Prepared<Row>, k: nat)
    requires Valid(p) && p.order.Asc? && p.start.layoutIndex <= k < |p.plans|
    ensures var offset := if k == p.start.layoutIndex then p.start.position else p.plans[k].startRow;
            ValidCursor(p, k, offset) && Unseen(p, k) == From(p, k, offset)
    ensures Unseen(p, k + 1) == Later(p, k + 1)
  {
    hide From, Later;
    LaterIsFrom(p, k);
  }

  lemma {:induction false} NothingLater<Row>(p: Prepared<Row>)
    requires Valid(p)
    ensures Later(p, |p.plans|) == [] && Unseen(p, |p.plans|) == []
  {
  }

  lemma {:induction false} StartProgress<Row>(p: Prepared<Row>, all: seq<Hit<Row>>)
    ensures Progress(p, all, [], None, all)
  {
  }

  lemma {:induction false} LaterIsFrom<Row>(p: Prepared<Row>, k: nat)
    requires ValidPlans(p) && k < |p.plans|
    ensures Later(p, k) == From(p, k, p.plans[k].startRow)
  {
  }

  lemma {:induction false} SkippedLayout<Row>(p: Prepared<Row>, k: nat, offset: nat)
    requires ValidPlans(p) && ValidCursor(p, k, offset) && !p.plans[k].Applies()
    ensures From(p, k, offset) == Later(p, k + 1)
  {
    NothingMatches(p.plans[k], Rows(p.parts, p.plans[k].typeId), k, offset, p.plans[k].rows);
    assert [] + Later(p, k + 1) == Later(p, k + 1);
  }

  /** With nothing left to look at, or once the page is cut, it is the page wanted. */
  lemma {:induction false} PageDone<Row>(p: Prepared<Row>, hits: seq<Hit<Row>>, next: Option<Cursor>,
                                        rest: seq<Hit<Row>>)
    requires Valid(p) && Progress(p, Remaining(p), hits, next, rest) && (next.None? ==> rest == [])
    ensures Page(hits, next) == PageOf(p)
  {
    hide Remaining;
    assert hits + [] == hits;
  }

  lemma {:induction false} NothingMatches<Row>(plan: Plan<Row>, table: seq<Row>, tag: nat, lo: nat, hi: nat)
    requires hi <= |table| && !plan.Applies()
    ensures Matched(plan, table, tag, lo, hi) == []
    decreases hi - lo
  {
    if lo >= hi {
    } else {
      NothingMatches(plan, table, tag, lo + 1, hi);
    }
  }

  method AscLayout<Row>(p: Prepared<Row>, layoutIndex: nat, offset: nat, page: seq<Hit<Row>>,
                        ghost all: seq<Hit<Row>>)
    returns (hits: seq<Hit<Row>>, next: Option<Cursor>)
    requires Valid(p) && p.order.Asc? && ValidCursor(p, layoutIndex, offset)
    requires Progress(p, all, page, None, From(p, layoutIndex, offset))
    ensures Progress(p, all, hits, next, Later(p, layoutIndex + 1))
  {
    hide From, Later, Rows, Numbered, Window, FirstPage;
    var plan := p.plans[layoutIndex];
    ghost var table := Rows(p.parts, plan.typeId);
    var chunkRows := ChunkRows(p.pageSize);
    var rows := VisitRows(p.parts, plan.typeId, offset, |Rows(p.parts, plan.typeId)|);
    WindowToEnd(table, offset);
    hits, next := page, None;
    var chunk: seq<(nat, Row)>, k := [], 0;
    ghost var lo := offset;
    NumberedNone(table);
    while k < |rows| && next.None?
      invariant k <= |rows| && offset <= lo <= offset + k && |chunk| < chunkRows
      invariant chunk == Numbered(table, lo, offset + k)
      invariant Progress(p, all, hits, next, From(p, layoutIndex, lo))
    {
      NumberedMore(table, lo, offset + k);
      chunk := chunk + [rows[k]];
      k := k + 1;
      if |chunk| == chunkRows {
        SplitChunk(p, layoutIndex, lo, offset + k);
        hits, next := EmitAscChunk(p, layoutIndex, chunk, hits, all, From(p, layoutIndex, offset + k));
        chunk, lo := [], offset + k;
      }
    }
    if next.None? {
      SplitChunk(p, layoutIndex, lo, |table|);
      FromEnd(p, layoutIndex);
      if chunk == [] {
        assert [] + From(p, layoutIndex, |table|) == From(p, layoutIndex, |table|);
      } else {
        hits, next := EmitAscChunk(p, layoutIndex, chunk, hits, all, From(p, layoutIndex, |table|));
      }
    }
  }

  lemma {:induction false} WindowToEnd<Row>(table: seq<Row>, offset: nat)
    requires offset <= |table|
    ensures Window(table, offset, |table|) == Numbered(table, offset, |table|)
  {
  }

  lemma {:induction false} NumberedMore<Row>(table: seq<Row>, lo: nat, hi: nat)
    requires lo <= hi < |table|
    ensures Numbered(table, lo, hi + 1) == Numbered(table, lo, hi) + [(hi, table[hi])]
  {
  }

  lemma {:induction false} NumberedNone<Row>(table: seq<Row>)
    ensures forall lo :: 0 <= lo <= |table| ==> Numbered(table, lo, lo) == []
  {
  }

  lemma {:induction false} FromEnd<Row>(p: Prepared<Row>, k: nat)
    requires ValidPlans(p) && k < |p.plans|
    ensures From(p, k, p.plans[k].rows) == Later(p, k + 1)
  {
    assert [] + Later(p, k + 1) == Later(p, k + 1);
  }

  lemma {:induction false} SplitChunk<Row>(p: Prepared<Row>, k: nat, lo: nat, mid: nat)
    requires ValidPlans(p) && ValidCursor(p, k, lo) && lo <= mid <= p.plans[k].rows
    ensures From(p, k, lo)
         == ChunkHits(p.plans[k], k, Numbered(Rows(p.parts, p.plans[k].typeId), lo, mid)) + From(p, k, mid)
  {
    var plan, table := p.plans[k], Rows(p.parts, p.plans[k].typeId);
    MatchedSplit(plan, table, k, lo, mid, |table|);
    ChunkOfSlice(plan, table, k, lo, mid);
    AppendAssociates(Span(p, k, lo, mid), Span(p, k, mid, |table|), Later(p, k + 1));
  }

  /** One descending page: layouts backwards, each in bounded chunks from its end. */
  method DescPage<Row>(p: Prepared<Row>) returns (page: Page<Row>)
    requires Valid(p) && p.order.Desc?
    ensures page == PageOf(p)
  {
    ghost var all := Remaining(p);
    var hits, next := [], None;
    var remaining := p.start.layoutIndex + 1;
    StartProgress(p, all);
    while remaining > 0
      invariant 0 <= remaining <= p.start.layoutIndex + 1
      invariant next.None? && Progress(p, all, hits, next, UnseenBelow(p, remaining))
    {
      var layoutIndex := remaining - 1;
      var plan := p.plans[layoutIndex];
      var upper := if layoutIndex == p.start.layoutIndex then p.start.position else plan.rows;
      UnseenIsUpTo(p, layoutIndex);
      if plan.Applies() {
        hits, next := DescLayout(p, layoutIndex, upper, hits, all);
        if next.Some? {
          PageDone(p, hits, next, Reverse(Earlier(p, layoutIndex)));
          return Page(hits, next);
        }
      } else {
        SkippedBelow(p, layoutIndex, upper);
      }
      remaining := layoutIndex;
    }
    NothingEarlier(p);
    PageDone(p, hits, next, []);
    return Page(hits, next);
  }

  /** What a descending page has not looked at when `remaining` layouts are left. */
  ghost function UnseenBelow<Row>(p: Prepared<Row>, remaining: nat): seq<Hit<Row>>
    requires Valid(p) && remaining <= p.start.layoutIndex + 1
  {
    if remaining == p.start.layoutIndex + 1 then Remaining(p) else Reverse(Earlier(p, remaining))
  }

  lemma {:induction false} UnseenIsUpTo<Row>(p: Prepared<Row>, k: nat)
    requires Valid(p) && p.order.Desc? && k <= p.start.layoutIndex
    ensures var upper := if k == p.start.layoutIndex then p.start.position else p.plans[k].rows;
            ValidCursor(p, k, upper) && UnseenBelow(p, k + 1) == Reverse(UpTo(p, k, upper))
    ensures UnseenBelow(p, k) == Reverse(Earlier(p, k))
  {
    assert Earlier(p, k + 1) == UpTo(p, k, p.plans[k].rows);
  }

  lemma {:induction false} NothingEarlier<Row>(p: Prepared<Row>)
    requires Valid(p)
    ensures UnseenBelow(p, 0) == []
  {
  }

  lemma {:induction false} SkippedBelow<Row>(p: Prepared<Row>, k: nat, upper: nat)
    requires ValidPlans(p) && ValidCursor(p, k, upper) && !p.plans[k].Applies()
    ensures UpTo(p, k, upper) == Earlier(p, k)
  {
    NothingMatches(p.plans[k], Rows(p.parts, p.plans[k].typeId), k, p.plans[k].startRow, upper);
    assert Earlier(p, k) + [] == Earlier(p, k);
  }

  method DescLayout<Row>(p: Prepared<Row>, layoutIndex: nat, start: nat, page: seq<Hit<Row>>,
                         ghost all: seq<Hit<Row>>)
    returns (hits: seq<Hit<Row>>, next: Option<Cursor>)
    requires Valid(p) && p.order.Desc? && ValidCursor(p, layoutIndex, start)
    requires Progress(p, all, page, None, Reverse(UpTo(p, layoutIndex, start)))
    ensures Progress(p, all, hits, next, Reverse(Earlier(p, layoutIndex)))
  {
    var plan := p.plans[layoutIndex];
    ghost var table := Rows(p.parts, plan.typeId);
    var chunkRows := ChunkRows(p.pageSize);
    hits, next := page, None;
    var upper := start;
    assert table == Rows(p.parts, plan.typeId) && |table| == plan.rows;
    UpToStart(p, layoutIndex);
    while upper > plan.startRow && next.None?
      invariant plan.startRow <= upper <= plan.rows
      invariant Progress(p, all, hits, next, Reverse(UpTo(p, layoutIndex, upper)))
    {
      var below := if upper >= chunkRows then upper - chunkRows else 0;
      var lower := if below > plan.startRow then below else plan.startRow;
      var chunk := VisitRows(p.parts, plan.typeId, lower, upper - lower);
      WindowIsNumbered(table, chunk, lower, upper);
      SplitBelow(p, layoutIndex, lower, upper);
      hits, next := EmitDescChunk(p, layoutIndex, chunk, hits, all, UpTo(p, layoutIndex, lower));
      upper := lower;
    }
  }

  lemma {:induction false} UpToStart<Row>(p: Prepared<Row>, k: nat)
    requires ValidPlans(p) && k < |p.plans|
    ensures UpTo(p, k, p.plans[k].startRow) == Earlier(p, k)
  {
    assert Earlier(p, k) + [] == Earlier(p, k);
  }

  lemma {:induction false} WindowIsNumbered<Row>(table: seq<Row>, chunk: seq<(nat, Row)>, lower: nat, upper: nat)
    requires lower < upper <= |table| && chunk == Window(table, lower, upper - lower)
    ensures chunk == Numbered(table, lower, upper)
  {
  }

  lemma {:induction false} SplitBelow<Row>(p: Prepared<Row>, k: nat, lower: nat, upper: nat)
    requires ValidPlans(p) && ValidCursor(p, k, lower) && ValidCursor(p, k, upper) && lower <= upper
    ensures UpTo(p, k, upper)
         == UpTo(p, k, lower) + ChunkHits(p.plans[k], k, Numbered(Rows(p.parts, p.plans[k].typeId), lower, upper))
  {
    var plan, table := p.plans[k], Rows(p.parts, p.plans[k].typeId);
    ChunkOfSlice(plan, table, k, lower, upper);
    MatchedSplit(plan, table, k, plan.startRow, lower, upper);
    AppendAssociates(Earlier(p, k), Span(p, k, plan.startRow, lower), Span(p, k, lower, upper));
  }

  method EmitDescChunk<Row>(p: Prepared<Row>, layoutIndex: nat, chunk: seq<(nat, Row)>, page: seq<Hit<Row>>,
                            ghost all: seq<Hit<Row>>, ghost before: seq<Hit<Row>>)
    returns (hits: seq<Hit<Row>>, next: Option<Cursor>)
    requires p.order.Desc? && layoutIndex < |p.plans|
    requires Progress(p, all, page, None, Reverse(before + ChunkHits(p.plans[layoutIndex], layoutIndex, chunk)))
    ensures Progress(p, all, hits, next, Reverse(before))
  {
    var plan := p.plans[layoutIndex];
    hits, next := page, None;
    var k := |chunk|;
    assert chunk[..k] == chunk;
    assert ChunkHits(plan, layoutIndex, chunk[..0]) == [];
    while k > 0
      invariant k <= |chunk|
      invariant next.None?
      invariant Progress(p, all, hits, next, Reverse(before + ChunkHits(plan, layoutIndex, chunk[..k])))
    {
      k := k - 1;
      var (ordinal, row) := chunk[k];
      ChunkSnoc(plan, layoutIndex, chunk, k);
      ghost var left := before + ChunkHits(plan, layoutIndex, chunk[..k]);
      if !plan.Matches(row) {
        assert ChunkHits(plan, layoutIndex, chunk[..k + 1]) == ChunkHits(plan, layoutIndex, chunk[..k]);
      } else {
        ghost var hit := Hit(layoutIndex, ordinal, row);
        AppendAssociates(before, ChunkHits(plan, layoutIndex, chunk[..k]), [hit]);
        ReverseSnoc(left, hit);
        AppendAssociates(hits, [hit], Reverse(left));
        if |hits| == p.pageSize {
          assert all[..p.pageSize] == hits && all[p.pageSize] == hit;
          next := Some(p.start.(layoutIndex := layoutIndex, position := ordinal + 1));
          break;
        }
        hits := hits + [Hit(layoutIndex, ordinal, row)];
      }
    }
    if next.None? { assert before + ChunkHits(plan, layoutIndex, chunk[..0]) == before; }
  }

  lemma {:induction false} ChunkSnoc<Row>(plan: Plan<Row>, tag: nat, chunk: seq<(nat, Row)>, k: nat)
    requires k < |chunk|
    ensures ChunkHits(plan, tag, chunk[..k + 1])
         == ChunkHits(plan, tag, chunk[..k])
            + (if plan.Matches(chunk[k].1) then [Hit(tag, chunk[k].0, chunk[k].1)] else [])
  {
    if k == 0 {
      assert chunk[..1][1..] == [];
    } else {
      ChunkSnoc(plan, tag, chunk[1..], k - 1);
      assert chunk[..k + 1][1..] == chunk[1..][..k] && chunk[..k][1..] == chunk[1..][..k - 1];
    }
  }

  // ----- whole walks over a growing segment -----

  ghost predicate Extends<Row>(later: Segment<Row>, earlier: Segment<Row>) {
    later.id == earlier.id && later.kind == earlier.kind
    && (if earlier.kind.Active? then earlier.parts <= later.parts else later.parts == earlier.parts)
  }

  function Serve<Row>(segment: Segment<Row>, request: Request<Row>, cursor: Option<Cursor>): Result<Page<Row>>
    requires segment.id == request.segmentId
  {
    match Prepare(Some(segment), request, cursor)
    case Err(e) => Err(e)
    case Ok(p) =>
      PrepareIsValid(segment, request, cursor);
      Ok(PageOf(p))
  }

  lemma {:induction false} PlansAreValid<Row>(parts: seq<Part<Row>>, request: Request<Row>, layouts: seq<nat>)
    ensures forall k :: 0 <= k < |PlansOf(parts, request, layouts)| ==>
              var plan := PlansOf(parts, request, layouts)[k];
              plan == PlanOf(parts, request, plan.typeId) && plan.typeId in layouts && Present(parts, plan.typeId)
  {
    if layouts == [] {
    } else {
      PlansAreValid(parts, request, layouts[1..]);
    }
  }

  lemma {:induction false} TailKeepsPlans<Row>(plans: seq<Plan<Row>>, prior: Option<seq<Part<Row>>>)
    ensures var r := TailPlans(plans, prior);
            r.Ok? ==>
              (|r.value| == |plans|
               && forall k :: 0 <= k < |plans| ==>
                    r.value[k] == (if prior.None? then plans[k]
                                   else plans[k].(startRow := |Rows(prior.value, plans[k].typeId)|))
                    && (prior.Some? ==> r.value[k].startRow <= r.value[k].rows))
  {
    if prior.Some? && plans != [] { TailKeepsPlans(plans[1..], prior); }
  }

  lemma {:induction false} PrepareIsValid<Row>(segment: Segment<Row>, request: Request<Row>, cursor: Option<Cursor>)
    requires segment.id == request.segmentId
    ensures var r := Prepare(Some(segment), request, cursor);
            r.Ok? ==> Valid(r.value) && r.value.order == request.order && r.value.pageSize == request.pageSize
  {
    var r := Prepare(Some(segment), request, cursor);
    if r.Ok? {
      var pinned := Pin(segment, cursor).value;
      var prior := ActiveTail(pinned, request.after).value;
      var plans := PlansOf(pinned.parts, request, request.layouts);
      PlansAreValid(pinned.parts, request, request.layouts);
      TailKeepsPlans(plans, prior);
    }
  }

  /** A cursor issued by a page brings back the same capture, however the journal grew since. */
  lemma {:induction false} CursorPinsCapture<Row>(first: Segment<Row>, later: Segment<Row>, request: Request<Row>,
                               cursor: Option<Cursor>, next: Cursor)
    requires first.id == request.segmentId && Extends(later, first)
    requires ValidParts(later.parts)
    requires var r := Prepare(Some(first), request, cursor);
             r.Ok? && Valid(r.value) && ValidCursor(r.value, next.layoutIndex, next.position)
             && next == r.value.start.(layoutIndex := next.layoutIndex, position := next.position)
    ensures Prepare(Some(later), request, Some(next))
         == Ok(Prepare(Some(first), request, cursor).value.(start := next))
  {
    var p := Prepare(Some(first), request, cursor).value;
    var pinned := Pin(first, cursor).value;
    assert p.parts == pinned.parts && next.activePosition == pinned.PositionOrZero();
    if first.kind.Active? {
      if cursor.Some? { PrefixIsPrefix(first.parts, cursor.value.activePosition); }
      PrefixSurvivesAppends(pinned.parts, later.parts);
    }
    assert Pin(later, Some(next)) == Ok(pinned);
  }

  /** A client run: the first request carries no cursor, every later one the previous `next`. */
  ghost predicate IsWalk<Row>(history: seq<Segment<Row>>, request: Request<Row>, pages: seq<Page<Row>>) {
    |pages| == |history| > 0
    && (forall i :: 0 <= i < |history| ==> history[i].id == request.segmentId && ValidParts(history[i].parts))
    && (forall i :: 0 <= i < |history| ==> Extends(history[i], history[0]))
    && Serve(history[0], request, None) == Ok(pages[0])
    && (forall i :: 0 <= i < |pages| - 1 ==> Follows(history, request, pages, i))
  }

  ghost predicate Follows<Row>(history: seq<Segment<Row>>, request: Request<Row>, pages: seq<Page<Row>>, i: nat)
    requires i + 1 < |pages| == |history| && history[i + 1].id == request.segmentId
  {
    pages[i].next.Some? && Serve(history[i + 1], request, pages[i].next) == Ok(pages[i + 1])
  }

  lemma {:induction false} WalkPrefix<Row>(history: seq<Segment<Row>>, request: Request<Row>, pages: seq<Page<Row>>)
    requires IsWalk(history, request, pages) && |pages| > 1
    ensures var n := |pages| - 1;
            IsWalk(history[..n], request, pages[..n])
            && Follows(history, request, pages, n - 1)
            && Delivered(pages[..n]) == Delivered(pages[..n - 1]) + pages[n - 1].hits
  {
    var n := |pages| - 1;
    var h, w := history[..n], pages[..n];
    assert w[..n - 1] == pages[..n - 1];
    forall i | 0 <= i < n - 1
      ensures Follows(h, request, w, i)
    {
      assert Follows(history, request, pages, i);
    }
  }

  function Delivered<Row>(pages: seq<Page<Row>>): seq<Hit<Row>> {
    if pages == [] then [] else Delivered(pages[..|pages| - 1]) + pages[|pages| - 1].hits
  }

  /** The state of a walk: its first capture, the last page's cursor, and what was still to come. */
  ghost predicate Walked<Row>(history: seq<Segment<Row>>, request: Request<Row>, pages: seq<Page<Row>>,
                              first: Prepared<Row>, last: Prepared<Row>)
  {
    && |pages| == |history| > 0 && history[0].id == request.segmentId
    && Prepare(Some(history[0]), request, None) == Ok(first)
    && Valid(first) && first.pageSize == request.pageSize
    && last == first.(start := last.start) && Valid(last)
    && last.start == first.start.(layoutIndex := last.start.layoutIndex, position := last.start.position)
    && pages[|pages| - 1] == PageOf(last)
    && Delivered(pages[..|pages| - 1]) + Remaining(last) == Everything(first)
  }

  /** What the last page of a walk still had to deliver. */
  lemma {:induction false} WalkProgress<Row>(history: seq<Segment<Row>>, request: Request<Row>, pages: seq<Page<Row>>)
    returns (first: Prepared<Row>, last: Prepared<Row>)
    requires IsWalk(history, request, pages)
    ensures Walked(history, request, pages, first, last)
    decreases |pages|
  {
    hide Prepare, Remaining, Everything, PageOf, Serve;
    if |pages| == 1 {
      first := FirstPrepared(history, request, pages);
      last := first;
      assert pages[..0] == [] && Delivered(pages[..0]) == [];
      assert [] + Remaining(first) == Remaining(first);
    } else {
      WalkPrefix(history, request, pages);
      var n := |pages| - 1;
      assert |history| == |pages|;
      var before;
      first, before := WalkProgress(history[..n], request, pages[..n]);
      last := WalkStep(history, request, pages, first, before);
    }
  }

  lemma {:induction false} WalkStep<Row>(history: seq<Segment<Row>>, request: Request<Row>, pages: seq<Page<Row>>,
                      first: Prepared<Row>, before: Prepared<Row>)
    returns (last: Prepared<Row>)
    requires IsWalk(history, request, pages) && |pages| > 1
    requires Walked(history[..|pages| - 1], request, pages[..|pages| - 1], first, before)
    ensures Walked(history, request, pages, first, last)
  {
    WalkPrefix(history, request, pages);
    var n := |pages| - 1;
    assert |history| == |pages| && history[0].id == request.segmentId;
    assert pages[..n][..n - 1] == pages[..n - 1] && pages[..n][n - 1] == pages[n - 1] && history[..n][0] == history[0];
    last := NextPrepared(history, request, pages, first, before);
    DeliveredStep(pages, Remaining(before), Remaining(last));
  }

  lemma {:induction false} DeliveredStep<Row>(pages: seq<Page<Row>>, before: seq<Hit<Row>>, rest: seq<Hit<Row>>)
    requires |pages| > 1 && before == pages[|pages| - 2].hits + rest
    ensures Delivered(pages[..|pages| - 1]) + rest == Delivered(pages[..|pages| - 2]) + before
  {
    var n := |pages| - 1;
    assert pages[..n][..n - 1] == pages[..n - 1];
    AppendAssociates(Delivered(pages[..n - 1]), pages[n - 1].hits, rest);
  }

  lemma {:induction false} FirstPrepared<Row>(history: seq<Segment<Row>>, request: Request<Row>,
                                        pages: seq<Page<Row>>)
    returns (first: Prepared<Row>)
    requires IsWalk(history, request, pages)
    ensures Prepare(Some(history[0]), request, None) == Ok(first)
    ensures Valid(first) && first.pageSize == request.pageSize
    ensures pages[0] == PageOf(first) && Remaining(first) == Everything(first)
  {
    PrepareIsValid(history[0], request, None);
    first := Prepare(Some(history[0]), request, None).value;
    FirstCursorCoversEverything(first);
  }

  lemma {:induction false} NextPrepared<Row>(history: seq<Segment<Row>>, request: Request<Row>, pages: seq<Page<Row>>,
                          first: Prepared<Row>, before: Prepared<Row>)
    returns (last: Prepared<Row>)
    requires IsWalk(history, request, pages) && |pages| > 1 && Follows(history, request, pages, |pages| - 2)
    requires Prepare(Some(history[0]), request, None) == Ok(first) && Valid(first)
    requires before == first.(start := before.start) && Valid(before)
    requires before.start == first.start.(layoutIndex := before.start.layoutIndex, position := before.start.position)
    requires pages[|pages| - 2] == PageOf(before)
    ensures last == first.(start := last.start) && Valid(last) && pages[|pages| - 1] == PageOf(last)
    ensures last.start == first.start.(layoutIndex := last.start.layoutIndex, position := last.start.position)
    ensures Remaining(before) == pages[|pages| - 2].hits + Remaining(last)
  {
    var n := |pages| - 1;
    var next := pages[n - 1].next.value;
    PageCuts(before);
    assert Serve(history[n], request, Some(next)) == Ok(pages[n]);
    assert Extends(history[n], history[0]) && ValidParts(history[n].parts);
    CursorPinsCapture(history[0], history[n], request, None, next);
    last := before.(start := next);
  }

  /** A page that is not the last leaves exactly what its cursor resumes. */
  lemma {:induction false} PageCuts<Row>(p: Prepared<Row>)
    requires Valid(p) && PageOf(p).next.Some?
    ensures var q := p.(start := PageOf(p).next.value);
            && Valid(q) && Remaining(p) == PageOf(p).hits + Remaining(q)
            && q.start == p.start.(layoutIndex := q.start.layoutIndex, position := q.start.position)
            && |PageOf(p).hits| == p.pageSize
  {
    hide Remaining, Valid;
    ResumeAt(p, p.pageSize);
  }

  /** Following a page's cursor is never refused, on any later capture that extends the first. */
  lemma {:induction false} WalkContinues<Row>(history: seq<Segment<Row>>, request: Request<Row>, pages: seq<Page<Row>>,
                                        later: Segment<Row>)
    requires IsWalk(history, request, pages) && pages[|pages| - 1].next.Some?
    requires Extends(later, history[0]) && ValidParts(later.parts)
    ensures later.id == request.segmentId
    ensures Serve(later, request, pages[|pages| - 1].next).Ok?
    ensures IsWalk(history + [later], request, pages + [Serve(later, request, pages[|pages| - 1].next).value])
  {
    hide Prepare, Remaining, Everything, PageOf, Valid;
    var first, last := WalkProgress(history, request, pages);
    PageCuts(last);
    CursorIsValid(last);
    CursorPinsCapture(history[0], later, request, None, pages[|pages| - 1].next.value);
    assert Serve(later, request, pages[|pages| - 1].next).Ok?;
    WalkExtends(history, request, pages, later);
  }

  lemma {:induction false} CursorIsValid<Row>(p: Prepared<Row>)
    requires Valid(p) && PageOf(p).next.Some? && Valid(p.(start := PageOf(p).next.value))
    ensures ValidCursor(p, PageOf(p).next.value.layoutIndex, PageOf(p).next.value.position)
  {
  }

  lemma {:induction false} WalkExtends<Row>(history: seq<Segment<Row>>, request: Request<Row>, pages: seq<Page<Row>>,
                                        later: Segment<Row>)
    requires IsWalk(history, request, pages) && pages[|pages| - 1].next.Some?
    requires Extends(later, history[0]) && ValidParts(later.parts) && later.id == request.segmentId
    requires Serve(later, request, pages[|pages| - 1].next).Ok?
    ensures IsWalk(history + [later], request, pages + [Serve(later, request, pages[|pages| - 1].next).value])
  {
    hide Serve, Extends;
    var h, w := history + [later], pages + [Serve(later, request, pages[|pages| - 1].next).value];
    forall i | 0 <= i < |w| - 1
      ensures Follows(h, request, w, i)
    {
      if i < |pages| - 1 { assert Follows(history, request, pages, i); }
    }
  }

  /** A client whose first request is answered can always walk to the end, whatever is appended in
      the meantime: `captures` are what its requests find, and they are enough. */
  lemma {:induction false} WalkFinishes<Row>(captures: seq<Segment<Row>>, request: Request<Row>)
    returns (pages: seq<Page<Row>>)
    requires request.pageSize >= 1 && captures != []
    requires forall i :: 0 <= i < |captures| ==> captures[i].id == request.segmentId && ValidParts(captures[i].parts)
    requires forall i :: 0 <= i < |captures| ==> Extends(captures[i], captures[0])
    requires Serve(captures[0], request, None).Ok?
    requires Enough(captures, request)
    ensures 0 < |pages| <= |captures| && IsWalk(captures[..|pages|], request, pages)
    ensures pages[|pages| - 1].next.None?
  {
    hide Serve, Extends, Everything, ValidParts, Prepare;
    pages := [Serve(captures[0], request, None).value];
    assert captures[..1] == [captures[0]];
    while pages[|pages| - 1].next.Some?
      invariant 0 < |pages| <= |captures| && IsWalk(captures[..|pages|], request, pages)
      decreases |captures| - |pages|
    {
      var n := |pages|;
      UnfinishedIsShort(captures, request, pages);
      WalkContinues(captures[..n], request, pages, captures[n]);
      assert captures[..n + 1] == captures[..n] + [captures[n]];
      pages := pages + [Serve(captures[n], request, pages[n - 1].next).value];
    }
  }

  /** One capture for each filtered row and one more. */
  ghost predicate Enough<Row>(captures: seq<Segment<Row>>, request: Request<Row>)
    requires captures != [] && captures[0].id == request.segmentId
  {
    var prepared := Prepare(Some(captures[0]), request, None);
    prepared.Ok? ==> ValidPlans(prepared.value) && |captures| > |Everything(prepared.value)|
  }

  lemma {:induction false} UnfinishedIsShort<Row>(captures: seq<Segment<Row>>, request: Request<Row>,
                                        pages: seq<Page<Row>>)
    requires captures != [] && captures[0].id == request.segmentId && request.pageSize >= 1 && Enough(captures, request)
    requires 0 < |pages| <= |captures| && IsWalk(captures[..|pages|], request, pages)
    requires pages[|pages| - 1].next.Some?
    ensures |pages| < |captures|
  {
    hide Everything, Prepare;
    var history, n := captures[..|pages|], |pages|;
    WalkDeliversEverything(history, request, pages);
    assert history[0] == captures[0];
    forall i | 0 <= i < n
      ensures |pages[i].hits| >= 1
    {
      if i == n - 1 { ContinuedPageIsFull(history, request, pages); }
    }
    PagesAreCounted(pages, n);
    assert pages[..n] == pages;
  }

  /** Following `next` from the first page delivers every filtered row of the first capture once,
      in the requested order, through full pages, whatever is appended between the pages. */
  lemma {:induction false} WalkDeliversEverything<Row>(history: seq<Segment<Row>>, request: Request<Row>,
                                        pages: seq<Page<Row>>)
    requires IsWalk(history, request, pages) && request.pageSize >= 1
    ensures var prepared := Prepare(Some(history[0]), request, None);
            prepared.Ok? && ValidPlans(prepared.value)
    ensures var all := Everything(Prepare(Some(history[0]), request, None).value);
            Delivered(pages) <= all
            && (pages[|pages| - 1].next.None? <==> Delivered(pages) == all)
            && |pages| <= |all| + 1
    ensures forall i :: 0 <= i < |pages| - 1 ==> |pages[i].hits| == request.pageSize
  {
    var n := |pages| - 1;
    var first, last := WalkProgress(history, request, pages);
    forall i | 0 <= i < n
      ensures |pages[i].hits| == request.pageSize
    {
      hide IsWalk, Prepare, Remaining, Everything, Serve;
      PageIsFull(history, request, pages, i);
    }
    PagesAreCounted(pages, n);
    AppendAssociates(Delivered(pages[..n]), pages[n].hits, Remaining(last)[|pages[n].hits|..]);
  }

  lemma {:induction false} ContinuedPageIsFull<Row>(history: seq<Segment<Row>>, request: Request<Row>,
                                        pages: seq<Page<Row>>)
    requires IsWalk(history, request, pages) && pages[|pages| - 1].next.Some?
    ensures |pages[|pages| - 1].hits| == request.pageSize
  {
    var first, last := WalkProgress(history, request, pages);
  }

  lemma {:induction false} PageIsFull<Row>(history: seq<Segment<Row>>, request: Request<Row>, pages: seq<Page<Row>>,
                                        i: nat)
    requires IsWalk(history, request, pages) && i < |pages| - 1
    ensures |pages[i].hits| == request.pageSize
    decreases |pages|
  {
    var n := |pages| - 1;
    WalkPrefix(history, request, pages);
    if i == n - 1 {
      ContinuedPageIsFull(history[..n], request, pages[..n]);
    } else {
      PageIsFull(history[..n], request, pages[..n], i);
    }
  }

  lemma {:induction false} PagesAreCounted<Row>(pages: seq<Page<Row>>, n: nat)
    requires n <= |pages| && forall i :: 0 <= i < n ==> |pages[i].hits| >= 1
    ensures n <= |Delivered(pages[..n])|
  {
    if n == 0 {
    } else {
      assert pages[..n][..n - 1] == pages[..n - 1];
      PagesAreCounted(pages, n - 1);
    }
  }
}
