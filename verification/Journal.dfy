/** The captured journal prefix behind an active segment: frame boundaries, the compact section
    catalog and row traversal over parts
    (crates/kronika-store/src/local/snapshot.rs, crates/kronika-reader/src/lib.rs,
    crates/kronika-reader/src/segment/rows.rs). A finished segment is a single part. */
module Journal {
  import opened Machine

  const HEADER_LEN: nat := 36

  /** One section of a part: the rows its body decodes to. */
  datatype Entry<+Row> = Entry(typeId: nat, rows: seq<Row>)

  /** A committed part; `end` is the journal position just after it. */
  datatype Part<+Row> = Part(end: nat, entries: seq<Entry<Row>>)

  /** Catalog layout validation admits each section type once. */
  predicate UniqueTypes<Row>(entries: seq<Entry<Row>>) {
    forall i, j :: 0 <= i < j < |entries| ==> entries[i].typeId != entries[j].typeId
  }

  predicate ValidParts<Row>(parts: seq<Part<Row>>) {
    && (forall i :: 0 <= i < |parts| ==> HEADER_LEN < parts[i].end && UniqueTypes(parts[i].entries))
    && (forall i, j :: 0 <= i < j < |parts| ==> parts[i].end < parts[j].end)
  }

  /** The position of a committed prefix: after its last part, or after the journal header. */
  function Boundary<Row>(parts: seq<Part<Row>>): nat {
    if parts == [] then HEADER_LEN else parts[|parts| - 1].end
  }

  function Find<Row>(entries: seq<Entry<Row>>, typeId: nat): Option<seq<Row>> {
    if entries == [] then None
    else if entries[0].typeId == typeId then Some(entries[0].rows)
    else Find(entries[1..], typeId)
  }

  function PartRows<Row>(part: Part<Row>, typeId: nat): seq<Row> {
    match Find(part.entries, typeId)
    case Some(rows) => rows
    case None => []
  }

  /** All rows of one section type in physical order. */
  function Rows<Row>(parts: seq<Part<Row>>, typeId: nat): seq<Row> {
    if parts == [] then []
    else Rows(parts[..|parts| - 1], typeId) + PartRows(parts[|parts| - 1], typeId)
  }

  predicate Present<Row>(parts: seq<Part<Row>>, typeId: nat) {
    exists i :: 0 <= i < |parts| && Find(parts[i].entries, typeId).Some?
  }

  // ----- pinning to a frame boundary -----

  /** The committed prefix that ends exactly at `position`. */
  function PrefixAt<Row>(parts: seq<Part<Row>>, position: nat): Option<seq<Part<Row>>> {
    if Boundary(parts) == position then Some(parts)
    else if parts == [] then None
    else PrefixAt(parts[..|parts| - 1], position)
  }

  /** Counts the complete parts before `position` and rejects any position that is not the end
      of the header or of one of them. */
  method AtPosition<Row>(parts: seq<Part<Row>>, position: nat) returns (pinned: Option<seq<Part<Row>>>)
    requires ValidParts(parts)
    ensures pinned == PrefixAt(parts, position)
  {
    if position > Boundary(parts) {
      NoPrefixBeyond(parts, position);
      return None;
    }
    var boundary, count := HEADER_LEN, 0;
    while count < |parts| && parts[count].end <= position
      invariant count <= |parts|
      invariant boundary == Boundary(parts[..count])
      invariant count > 0 ==> boundary <= position
    {
      boundary := parts[count].end;
      count := count + 1;
    }
    PrefixIsUnique(parts, count, position);
    if position != boundary {
      return None;
    }
    return Some(parts[..count]);
  }

  lemma {:induction false} NoPrefixBeyond<Row>(parts: seq<Part<Row>>, position: nat)
    requires ValidParts(parts) && position > Boundary(parts)
    ensures PrefixAt(parts, position) == None
  {
    if parts == [] {
    } else {
      NoPrefixBeyond(parts[..|parts| - 1], position);
    }
  }

  /** When the parts from `count` on end beyond `position`, only the first `count` can match. */
  lemma {:induction false} PrefixIsUnique<Row>(parts: seq<Part<Row>>, count: nat, position: nat)
    requires ValidParts(parts) && count <= |parts|
    requires forall i :: count <= i < |parts| ==> parts[i].end > position
    requires Boundary(parts[..count]) <= position || count == 0
    ensures PrefixAt(parts, position) == if Boundary(parts[..count]) == position then Some(parts[..count]) else None
  {
    if count == |parts| {
      assert parts[..count] == parts;
      if position > Boundary(parts) { NoPrefixBeyond(parts, position); }
    } else {
      var init := parts[..|parts| - 1];
      assert init[..count] == parts[..count];
      PrefixIsUnique(init, count, position);
    }
  }

  /** A committed prefix is found again at its own boundary, whatever was appended after it. */
  lemma {:induction false} PrefixSurvivesAppends<Row>(prefix: seq<Part<Row>>, parts: seq<Part<Row>>)
    requires ValidParts(parts) && prefix <= parts
    ensures PrefixAt(parts, Boundary(prefix)) == Some(prefix)
    decreases |parts|
  {
    if |prefix| == |parts| {
      assert prefix == parts;
    } else {
      PrefixSurvivesAppends(prefix, parts[..|parts| - 1]);
      if prefix != [] { assert prefix[|prefix| - 1] == parts[|prefix| - 1]; }
    }
  }

  /** A pinned prefix is a prefix. */
  lemma {:induction false} PrefixIsPrefix<Row>(parts: seq<Part<Row>>, position: nat)
    ensures var p := PrefixAt(parts, position);
            p.Some? ==> p.value <= parts && Boundary(p.value) == position
  {
    if Boundary(parts) != position && parts != [] { PrefixIsPrefix(parts[..|parts| - 1], position); }
  }

  /** A journal header without parts is a capture of nothing. */
  lemma {:induction false} HeaderIsEmptyCapture<Row>(parts: seq<Part<Row>>)
    requires ValidParts(parts)
    ensures PrefixAt(parts, 36) == Some([])
  {
    PrefixSurvivesAppends([], parts);
  }

  // ----- rows under appends -----

  lemma {:induction false} RowsAppend<Row>(prefix: seq<Part<Row>>, parts: seq<Part<Row>>, typeId: nat)
    requires prefix <= parts
    ensures Rows(prefix, typeId) <= Rows(parts, typeId)
    ensures Present(prefix, typeId) ==> Present(parts, typeId)
    decreases |parts|
  {
    if |prefix| == |parts| {
      assert prefix == parts;
    } else {
      RowsAppend(prefix, parts[..|parts| - 1], typeId);
    }
    if Present(prefix, typeId) {
      var i :| 0 <= i < |prefix| && Find(prefix[i].entries, typeId).Some?;
      assert parts[i] == prefix[i];
    }
  }

  lemma {:induction false} AbsentMeansNoRows<Row>(parts: seq<Part<Row>>, typeId: nat)
    requires !Present(parts, typeId)
    ensures Rows(parts, typeId) == []
  {
    if parts == [] {
    } else {
      var init := parts[..|parts| - 1];
      assert forall i :: 0 <= i < |init| ==> init[i] == parts[i];
      AbsentMeansNoRows(init, typeId);
      assert Find(parts[|parts| - 1].entries, typeId).None?;
    }
  }

  // ----- the compact section catalog -----

  ghost predicate Counts<Row>(sections: map<nat, nat>, before: seq<Part<Row>>, entries: seq<Entry<Row>>) {
    && (forall t :: t in sections <==> Present(before, t) || Find(entries, t).Some?)
    && (forall t :: t in sections ==> sections[t] == |Rows(before, t)| + FoundRows(entries, t))
  }

  /** Row counts of every section type, over all parts. */
  method SectionsOf<Row>(parts: seq<Part<Row>>) returns (sections: map<nat, nat>)
    requires ValidParts(parts)
    ensures forall t :: t in sections <==> Present(parts, t)
    ensures forall t :: t in sections ==> sections[t] == |Rows(parts, t)|
  {
    sections := map[];
    for p := 0 to |parts|
      invariant Counts(sections, parts[..p], [])
    {
      sections := CountEntries(sections, parts[..p], parts[p].entries);
      NextPart(sections, parts, p);
    }
    assert parts[..|parts|] == parts;
  }

  method CountEntries<Row>(counted: map<nat, nat>, ghost before: seq<Part<Row>>, entries: seq<Entry<Row>>)
    returns (sections: map<nat, nat>)
    requires UniqueTypes(entries) && Counts(counted, before, [])
    ensures Counts(sections, before, entries)
  {
    hide Counts;
    sections := counted;
    assert entries[..0] == [];
    for e := 0 to |entries|
      invariant Counts(sections, before, entries[..e])
    {
      var entry := entries[e];
      CountOne(sections, before, entries, e);
      var seen := if entry.typeId in sections then sections[entry.typeId] else 0;
      sections := sections[entry.typeId := seen + |entry.rows|];
    }
    assert entries[..|entries|] == entries;
  }

  /** One more entry adds its rows to what its type had, or to nothing. */
  lemma {:induction false} CountOne<Row>(sections: map<nat, nat>, before: seq<Part<Row>>, entries: seq<Entry<Row>>,
                                         e: nat)
    requires e < |entries| && UniqueTypes(entries) && Counts(sections, before, entries[..e])
    ensures var t, n := entries[e].typeId, |entries[e].rows|;
            Counts(sections[t := (if t in sections then sections[t] else 0) + n], before, entries[..e + 1])
  {
    hide Rows, Present, Find;
    var t := entries[e].typeId;
    FindSnoc(entries, e);
    if t !in sections { AbsentMeansNoRows(before, t); }
  }

  lemma {:induction false} NextPart<Row>(sections: map<nat, nat>, parts: seq<Part<Row>>, p: nat)
    requires p < |parts| && Counts(sections, parts[..p], parts[p].entries)
    ensures Counts(sections, parts[..p + 1], [])
  {
    PresentSnoc(parts, p);
    assert parts[..p + 1][..p] == parts[..p];
  }

  function FoundRows<Row>(entries: seq<Entry<Row>>, typeId: nat): nat {
    match Find(entries, typeId)
    case Some(rows) => |rows|
    case None => 0
  }

  lemma {:induction false} FindAppend<Row>(entries: seq<Entry<Row>>, last: Entry<Row>, typeId: nat)
    ensures Find(entries + [last], typeId)
         == if Find(entries, typeId).Some? then Find(entries, typeId)
            else if last.typeId == typeId then Some(last.rows) else None
  {
    if entries != [] {
      assert (entries + [last])[1..] == entries[1..] + [last];
      FindAppend(entries[1..], last, typeId);
    } else {
      assert (entries + [last])[1..] == [];
    }
  }

  lemma {:induction false} FoundIsListed<Row>(entries: seq<Entry<Row>>, typeId: nat)
    requires Find(entries, typeId).Some?
    ensures exists i :: 0 <= i < |entries| && entries[i].typeId == typeId
  {
    if entries[0].typeId == typeId {
    } else {
      FoundIsListed(entries[1..], typeId);
      var i :| 0 <= i < |entries[1..]| && entries[1..][i].typeId == typeId;
      assert entries[i + 1].typeId == typeId;
    }
  }

  lemma {:induction false} FindSnoc<Row>(entries: seq<Entry<Row>>, e: nat)
    requires UniqueTypes(entries) && e < |entries|
    ensures Find(entries[..e], entries[e].typeId).None?
    ensures forall t :: Find(entries[..e + 1], t)
                     == if t == entries[e].typeId then Some(entries[e].rows) else Find(entries[..e], t)
  {
    if Find(entries[..e], entries[e].typeId).Some? {
      FoundIsListed(entries[..e], entries[e].typeId);
    }
    assert entries[..e + 1] == entries[..e] + [entries[e]];
    forall t
      ensures Find(entries[..e + 1], t)
           == if t == entries[e].typeId then Some(entries[e].rows) else Find(entries[..e], t)
    {
      FindAppend(entries[..e], entries[e], t);
    }
  }

  lemma {:induction false} PresentSnoc<Row>(parts: seq<Part<Row>>, p: nat)
    requires p < |parts|
    ensures forall t :: Present(parts[..p + 1], t) <==> Present(parts[..p], t) || Find(parts[p].entries, t).Some?
    ensures forall t :: Rows(parts[..p + 1], t) == Rows(parts[..p], t) + PartRows(parts[p], t)
  {
    var now, was := parts[..p + 1], parts[..p];
    assert now[..p] == was && now[p] == parts[p];
    forall t
      ensures Present(now, t) <==> Present(was, t) || Find(parts[p].entries, t).Some?
    {
      if Present(was, t) {
        var i :| 0 <= i < |was| && Find(was[i].entries, t).Some?;
        assert now[i] == was[i];
      }
      if Present(now, t) {
        var i :| 0 <= i < |now| && Find(now[i].entries, t).Some?;
        if i < p { assert was[i] == now[i]; }
      }
    }
  }

  // ----- traversal -----

  /** Rows `lo..hi` with their ordinals. */
  function Numbered<Row>(rows: seq<Row>, lo: nat, hi: nat): (numbered: seq<(nat, Row)>)
    requires lo <= hi <= |rows|
    ensures |numbered| == hi - lo
    ensures forall k :: 0 <= k < hi - lo ==> numbered[k] == (lo + k, rows[lo + k])
  {
    seq(hi - lo, k requires 0 <= k < hi - lo => (lo + k, rows[lo + k]))
  }

  /** At most `limit` rows from `offset` on, numbered from the start of the segment. */
  function Window<Row>(rows: seq<Row>, offset: nat, limit: nat): seq<(nat, Row)> {
    if offset < |rows| then Numbered(rows, offset, Min(offset + limit, |rows|)) else []
  }

  /** Skips whole parts by their row counts, then decodes from inside a part; the result is one
      window of the concatenated rows. */
  method VisitRows<Row>(parts: seq<Part<Row>>, typeId: nat, offset: nat, limit: nat)
    returns (visited: seq<(nat, Row)>)
    ensures visited == Window(Rows(parts, typeId), offset, limit)
  {
    visited := [];
    var globalBase, remainingOffset := 0, offset;
    for p := 0 to |parts|
      invariant globalBase == |Rows(parts[..p], typeId)|
      invariant remainingOffset == if offset >= globalBase then offset - globalBase else 0
      invariant visited == Window(Rows(parts[..p], typeId), offset, limit)
    {
      ghost var before := Rows(parts[..p], typeId);
      PresentSnoc(parts, p);
      match Find(parts[p].entries, typeId) {
        case None =>
          assert before + [] == before;
        case Some(rows) =>
          if |visited| >= limit {
            FullWindow(parts, p, typeId, offset, limit);
            break;
          }
          WindowStep(before, rows, offset, limit, remainingOffset);
          if remainingOffset >= |rows| {
            remainingOffset := remainingOffset - |rows|;
          } else {
            var decoded := Window(rows, remainingOffset, limit - |visited|);
            visited := visited + Rebased(decoded, globalBase);
            remainingOffset := 0;
          }
          globalBase := globalBase + |rows|;
      }
    }
    assert parts[..|parts|] == parts;
  }

  lemma {:induction false} FullWindow<Row>(parts: seq<Part<Row>>, p: nat, typeId: nat, offset: nat, limit: nat)
    requires p <= |parts| && |Window(Rows(parts[..p], typeId), offset, limit)| >= limit
    ensures Window(Rows(parts, typeId), offset, limit) == Window(Rows(parts[..p], typeId), offset, limit)
  {
    RowsAppend(parts[..p], parts, typeId);
  }

  lemma {:induction false} WindowStep<Row>(before: seq<Row>, rows: seq<Row>, offset: nat, limit: nat, remaining: nat)
    requires remaining == if offset >= |before| then offset - |before| else 0
    requires |Window(before, offset, limit)| < limit
    ensures var visited := Window(before, offset, limit);
            Window(before + rows, offset, limit)
            == visited + Rebased(Window(rows, remaining, limit - |visited|), |before|)
  {
    hide Numbered, Rebased;
    var visited := Window(before, offset, limit);
    if rows == [] || remaining >= |rows| {
      NothingToAdd(before, rows, offset, limit, remaining);
    } else {
      var taken, all := Min(remaining + limit - |visited|, |rows|), before + rows;
      assert Window(rows, remaining, limit - |visited|) == Numbered(rows, remaining, taken);
      NumberedShift(before, rows, remaining, taken);
      assert Window(all, offset, limit) == Numbered(all, offset, |before| + taken);
      if offset < |before| {
        assert visited == Numbered(before, offset, |before|);
        NumberedSplit(before, rows, offset, taken);
      } else {
        assert [] + Numbered(all, offset, |before| + taken) == Numbered(all, offset, |before| + taken);
      }
    }
  }

  lemma {:induction false} NothingToAdd<Row>(before: seq<Row>, rows: seq<Row>, offset: nat, limit: nat,
                                        remaining: nat)
    requires remaining == if offset >= |before| then offset - |before| else 0
    requires rows == [] || remaining >= |rows|
    ensures Window(before + rows, offset, limit) == Window(before, offset, limit)
    ensures Window(rows, remaining, limit) == []
    ensures forall l ::
              Window(before, offset, limit) + Rebased(Window(rows, remaining, l), |before|)
              == Window(before, offset, limit)
  {
    if rows == [] { assert before + rows == before; }
  }

  lemma {:induction false} NumberedShift<Row>(before: seq<Row>, rows: seq<Row>, lo: nat, hi: nat)
    requires lo <= hi <= |rows|
    ensures Numbered(before + rows, |before| + lo, |before| + hi) == Rebased(Numbered(rows, lo, hi), |before|)
  {
  }

  lemma {:induction false} NumberedSplit<Row>(before: seq<Row>, rows: seq<Row>, lo: nat, hi: nat)
    requires lo <= |before| && hi <= |rows|
    ensures Numbered(before + rows, lo, |before| + hi)
         == Numbered(before, lo, |before|) + Numbered(before + rows, |before|, |before| + hi)
  {
  }

  function Rebased<Row>(rows: seq<(nat, Row)>, base: nat): (rebased: seq<(nat, Row)>)
    ensures |rebased| == |rows|
    ensures forall k :: 0 <= k < |rows| ==> rebased[k] == (base + rows[k].0, rows[k].1)
  {
    seq(|rows|, k requires 0 <= k < |rows| => (base + rows[k].0, rows[k].1))
  }
}
