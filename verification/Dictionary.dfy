/** The interning dictionaries of one segment (crates/kronika-format/src/dictionary.rs and its
    entry and limits modules). */
module Dictionary {
  import opened Machine

  datatype Requirements = Requirements(blob: bool, hotHard: bool, hotSoft: bool)

  datatype Stored = Stored(
    bytes: seq<byte>, fullLen: nat, fullSha: Option<seq<byte>>, oversized: bool, req: Requirements)
  {
    predicate IsBlob() { req.blob || oversized }

    predicate IsHot() { !IsBlob() && (req.hotHard || req.hotSoft) }
  }

  datatype Limits = Limits(blobThreshold: nat, truncateLimit: nat, maxTotalBytes: nat) {
    predicate Valid() { 0 < blobThreshold <= truncateLimit <= maxTotalBytes <= USIZE_MAX }
  }

  datatype Error = Collision(id: nat) | PlacementConflict(id: nat) | Full(storedBytes: nat, max: nat)

  datatype Result = Ok(id: nat) | Err(error: Error)

  /** The id hash (zero is reserved) and SHA-256, both uninterpreted. */
  datatype Hashes = Hashes(idOf: seq<byte> -> nat, sha: seq<byte> -> seq<byte>)

  datatype State = State(entries: map<nat, Stored>, storedBytes: nat)

  datatype Outcome = Outcome(state: State, result: Result)

  datatype Call = Call(bytes: seq<byte>, req: Requirements)

  // ----- the insertion path -----

  function Merged(a: Requirements, b: Requirements): Requirements {
    Requirements(a.blob || b.blob, a.hotHard || b.hotHard, a.hotSoft || b.hotSoft)
  }

  predicate SameValue(h: Hashes, existing: Stored, bytes: seq<byte>) {
    existing.fullLen == |bytes|
    && match existing.fullSha
       case None => existing.bytes == bytes
       case Some(sha) => h.sha(bytes) == sha
  }

  function StoredOf(l: Limits, h: Hashes, bytes: seq<byte>, req: Requirements): Stored {
    var truncated := |bytes| > l.truncateLimit;
    Stored(if truncated then bytes[..l.truncateLimit] else bytes, |bytes|,
           if truncated then Some(h.sha(bytes)) else None, |bytes| >= l.blobThreshold, req)
  }

  function Inserted(l: Limits, h: Hashes, st: State, id: nat, bytes: seq<byte>, req: Requirements): Outcome {
    if id in st.entries then
      var existing := st.entries[id];
      var merged := Merged(existing.req, req);
      if !SameValue(h, existing, bytes) then Outcome(st, Err(Collision(id)))
      else if merged.hotHard && (merged.blob || existing.oversized) then Outcome(st, Err(PlacementConflict(id)))
      else Outcome(st.(entries := st.entries[id := existing.(req := merged)]), Ok(id))
    else
      var oversized := |bytes| >= l.blobThreshold;
      var storedLen := Min(|bytes|, l.truncateLimit);
      if req.hotHard && (req.blob || oversized) then Outcome(st, Err(PlacementConflict(id)))
      else if !req.hotHard && Min(st.storedBytes + storedLen, USIZE_MAX) > l.maxTotalBytes then
        Outcome(st, Err(Full(st.storedBytes, l.maxTotalBytes)))
      else
        Outcome(State(st.entries[id := StoredOf(l, h, bytes, req)], st.storedBytes + storedLen), Ok(id))
  }

  function Interned(l: Limits, h: Hashes, st: State, call: Call): Outcome {
    if h.idOf(call.bytes) == 0 then Outcome(st, Err(Collision(0)))
    else Inserted(l, h, st, h.idOf(call.bytes), call.bytes, call.req)
  }

  const EMPTY := State(map[], 0)

  class SegmentDicts {
    const limits: Limits
    const hashes: Hashes
    var entries: map<nat, Stored>
    var storedBytes: nat

    ghost function Now(): State
      reads this
    {
      State(entries, storedBytes)
    }

    constructor (limits: Limits, hashes: Hashes)
      ensures Now() == EMPTY && this.limits == limits && this.hashes == hashes
    {
      this.limits, this.hashes := limits, hashes;
      entries, storedBytes := map[], 0;
    }

    /** All checks run before any mutation. */
    method TryInsert(id: nat, bytes: seq<byte>, req: Requirements) returns (result: Result)
      modifies this
      ensures Outcome(Now(), result) == Inserted(limits, hashes, old(Now()), id, bytes, req)
    {
      if id in entries {
        var existing := entries[id];
        if !SameValue(hashes, existing, bytes) {
          return Err(Collision(id));
        }
        var merged := Merged(existing.req, req);
        if merged.hotHard && (merged.blob || existing.oversized) {
          return Err(PlacementConflict(id));
        }
        entries := entries[id := existing.(req := merged)];
        return Ok(id);
      }
      var oversized := |bytes| >= limits.blobThreshold;
      if req.hotHard && (req.blob || oversized) {
        return Err(PlacementConflict(id));
      }
      var storedLen := Min(|bytes|, limits.truncateLimit);
      if !req.hotHard && Min(storedBytes + storedLen, USIZE_MAX) > limits.maxTotalBytes {
        return Err(Full(storedBytes, limits.maxTotalBytes));
      }
      storedBytes := storedBytes + storedLen;
      entries := entries[id := StoredOf(limits, hashes, bytes, req)];
      return Ok(id);
    }

    method Insert(bytes: seq<byte>, req: Requirements) returns (result: Result)
      modifies this
      ensures Outcome(Now(), result) == Interned(limits, hashes, old(Now()), Call(bytes, req))
    {
      var id := hashes.idOf(bytes);
      if id == 0 {
        return Err(Collision(0));
      }
      result := TryInsert(id, bytes, req);
    }

    /** Also tells whether the value is in the hot cache after the call. */
    method InternHotBestEffort(bytes: seq<byte>) returns (result: Result, hot: bool)
      modifies this
      ensures Outcome(Now(), result)
           == Interned(limits, hashes, old(Now()), Call(bytes, Requirements(false, false, true)))
      ensures hot <==> result.Ok? && result.id in Hot(Now())
    {
      result := Insert(bytes, Requirements(false, false, true));
      hot := result.Ok? && result.id in entries && entries[result.id].IsHot();
    }
  }

  // ----- views -----

  function Strings(st: State): set<nat> { set id | id in st.entries && !st.entries[id].IsBlob() }

  function Blobs(st: State): set<nat> { set id | id in st.entries && st.entries[id].IsBlob() }

  function Hot(st: State): set<nat> { set id | id in st.entries && st.entries[id].IsHot() }

  // ----- weighing entries -----

  ghost function Weigh(weights: map<nat, nat>, keys: set<nat>): nat
    requires keys <= weights.Keys
  {
    if keys == {} then 0
    else
      var k := Least(keys);
      weights[k] + Weigh(weights, keys - {k})
  }

  ghost predicate IsLeast(k: nat, keys: set<nat>) {
    k in keys && forall j :: j in keys ==> k <= j
  }

  ghost function Least(keys: set<nat>): (k: nat)
    requires keys != {}
    ensures IsLeast(k, keys)
  {
    LeastExists(keys);
    var k :| IsLeast(k, keys);
    k
  }

  lemma {:induction false} LeastExists(keys: set<nat>)
    requires keys != {}
    ensures exists k :: IsLeast(k, keys)
  {
    var k :| k in keys;
    if keys == {k} {
      assert IsLeast(k, keys);
    } else {
      LeastExists(keys - {k});
      var m :| IsLeast(m, keys - {k});
      assert keys == keys - {k} + {k};
      assert IsLeast(if k < m then k else m, keys - {k} + {k});
    }
  }

  lemma {:induction false} WeighWithout(weights: map<nat, nat>, keys: set<nat>, k: nat)
    requires keys <= weights.Keys && k in keys
    ensures Weigh(weights, keys) == weights[k] + Weigh(weights, keys - {k})
  {
    var least := Least(keys);
    if least == k {
    } else {
      WeighWithout(weights, keys - {least}, k);
      assert keys - {least} - {k} == keys - {k} - {least};
      assert least in keys - {k} && Least(keys - {k}) in keys;
    }
  }

  lemma {:induction false} WeighSame(a: map<nat, nat>, b: map<nat, nat>, keys: set<nat>)
    requires keys <= a.Keys && keys <= b.Keys && forall k :: k in keys ==> a[k] == b[k]
    ensures Weigh(a, keys) == Weigh(b, keys)
  {
    if keys == {} {
    } else {
      WeighSame(a, b, keys - {Least(keys)});
    }
  }

  function Lens(entries: map<nat, Stored>): map<nat, nat> {
    map id | id in entries :: |entries[id].bytes|
  }

  function NotStrictHot(entries: map<nat, Stored>): set<nat> {
    set id | id in entries && !entries[id].req.hotHard
  }

  ghost function TotalBytes(st: State): nat { Weigh(Lens(st.entries), st.entries.Keys) }

  ghost function CappedBytes(st: State): nat { Weigh(Lens(st.entries), NotStrictHot(st.entries)) }

  // ----- invariants of every run -----

  predicate WellStored(l: Limits, e: Stored) {
    |e.bytes| == Min(e.fullLen, l.truncateLimit)
    && (e.fullSha.Some? <==> e.fullLen > l.truncateLimit)
    && (e.oversized <==> e.fullLen >= l.blobThreshold)
    && !(e.req.hotHard && e.IsBlob())
  }

  ghost predicate Inv(l: Limits, st: State) {
    (forall id :: id in st.entries ==> id != 0 && WellStored(l, st.entries[id]))
    && st.storedBytes == TotalBytes(st)
    && (l.maxTotalBytes < USIZE_MAX ==> CappedBytes(st) <= l.maxTotalBytes)
  }

  lemma {:induction false} WeighSubset(weights: map<nat, nat>, part: set<nat>, keys: set<nat>)
    requires part <= keys <= weights.Keys
    ensures Weigh(weights, part) <= Weigh(weights, keys)
  {
    if part == {} {
    } else {
      var k := Least(part);
      WeighWithout(weights, keys, k);
      WeighSubset(weights, part - {k}, keys - {k});
    }
  }

  /** A new entry adds its stored length to the total, and to the capped part unless strict-hot. */
  lemma {:induction false} NewEntry(st: State, id: nat, e: Stored)
    requires id !in st.entries
    ensures var after := st.(entries := st.entries[id := e]);
            TotalBytes(after) == TotalBytes(st) + |e.bytes|
            && CappedBytes(after) == CappedBytes(st) + (if e.req.hotHard then 0 else |e.bytes|)
  {
    hide Weigh;
    var after := st.(entries := st.entries[id := e]);
    var w, v := Lens(after.entries), Lens(st.entries);
    WeighWithout(w, after.entries.Keys, id);
    assert after.entries.Keys - {id} == st.entries.Keys;
    WeighSame(w, v, st.entries.Keys);
    WeighSame(w, v, NotStrictHot(st.entries));
    if e.req.hotHard {
      assert NotStrictHot(after.entries) == NotStrictHot(st.entries);
    } else {
      WeighWithout(w, NotStrictHot(after.entries), id);
      assert NotStrictHot(after.entries) - {id} == NotStrictHot(st.entries);
    }
  }

  /** Merging requirements stores nothing and can only take bytes out of the capped part. */
  lemma {:induction false} MergedEntry(st: State, id: nat, req: Requirements)
    requires id in st.entries
    ensures var after := st.(entries := st.entries[id := st.entries[id].(req := Merged(st.entries[id].req, req))]);
            TotalBytes(after) == TotalBytes(st) && CappedBytes(after) <= CappedBytes(st)
  {
    var after := st.(entries := st.entries[id := st.entries[id].(req := Merged(st.entries[id].req, req))]);
    assert after.entries.Keys == st.entries.Keys;
    assert Lens(after.entries) == Lens(st.entries);
    WeighSubset(Lens(st.entries), NotStrictHot(after.entries), NotStrictHot(st.entries));
  }

  lemma {:induction false} CappedIsPart(st: State)
    ensures CappedBytes(st) <= TotalBytes(st)
  {
    WeighSubset(Lens(st.entries), NotStrictHot(st.entries), st.entries.Keys);
  }

  lemma {:induction false} InsertKeepsInv(l: Limits, h: Hashes, st: State, call: Call)
    requires l.Valid() && Inv(l, st)
    ensures Inv(l, Interned(l, h, st, call).state)
    ensures Interned(l, h, st, call).result.Err? ==> Interned(l, h, st, call).state == st
  {
    hide Weigh, Lens, NotStrictHot;
    var id := h.idOf(call.bytes);
    if Interned(l, h, st, call).result.Ok? {
      if id in st.entries {
        MergedEntry(st, id, call.req);
      } else {
        NewEntry(st, id, StoredOf(l, h, call.bytes, call.req));
        CappedIsPart(st);
      }
    }
  }

  /** Any sequence of calls, failed ones included. */
  function Run(l: Limits, h: Hashes, calls: seq<Call>): State {
    if calls == [] then EMPTY
    else Interned(l, h, Run(l, h, calls[..|calls| - 1]), calls[|calls| - 1]).state
  }

  predicate AllOk(l: Limits, h: Hashes, calls: seq<Call>) {
    calls == []
    || (AllOk(l, h, calls[..|calls| - 1])
        && Interned(l, h, Run(l, h, calls[..|calls| - 1]), calls[|calls| - 1]).result.Ok?)
  }

  /** In every reachable state: exact byte accounting, the cap holds for everything that is not
      strict-hot, strings and blobs partition the entries and hot strings are strings. */
  lemma {:induction false} EveryRunKeepsInv(l: Limits, h: Hashes, calls: seq<Call>)
    requires l.Valid()
    ensures var st := Run(l, h, calls);
            && st.storedBytes == TotalBytes(st)
            && (l.maxTotalBytes < USIZE_MAX ==> CappedBytes(st) <= l.maxTotalBytes)
            && Strings(st) !! Blobs(st) && Strings(st) + Blobs(st) == st.entries.Keys
            && Hot(st) <= Strings(st)
            && Inv(l, st)
  {
    if calls == [] {
    } else {
      EveryRunKeepsInv(l, h, calls[..|calls| - 1]);
      InsertKeepsInv(l, h, Run(l, h, calls[..|calls| - 1]), calls[|calls| - 1]);
    }
  }

  /** Whether call `i` of the run succeeded. */
  predicate Succeeded(l: Limits, h: Hashes, calls: seq<Call>, i: nat)
    requires i < |calls|
  {
    Interned(l, h, Run(l, h, calls[..i]), calls[i]).result.Ok?
  }

  /** The value of a successful call can be recovered from the state, where the call wanted it. */
  predicate Resolves(l: Limits, h: Hashes, st: State, call: Call) {
    var id := h.idOf(call.bytes);
    && id in st.entries
    && st.entries[id].fullLen == |call.bytes|
    && (if |call.bytes| > l.truncateLimit then st.entries[id].fullSha == Some(h.sha(call.bytes))
        else st.entries[id].fullSha == None && st.entries[id].bytes == call.bytes)
    && (call.req.hotHard ==> st.entries[id].req.hotHard && id in Hot(st) && id in Strings(st))
    && (call.req.blob ==> id in Blobs(st))
  }

  lemma {:induction false} SuccessResolves(l: Limits, h: Hashes, st: State, call: Call)
    requires l.Valid() && Inv(l, st) && Interned(l, h, st, call).result.Ok?
    ensures Resolves(l, h, Interned(l, h, st, call).state, call)
  {
    hide TotalBytes, CappedBytes;
    InsertKeepsInv(l, h, st, call);
  }

  lemma {:induction false} ResolvesStays(l: Limits, h: Hashes, st: State, call: Call, next: Call)
    requires l.Valid() && Inv(l, st) && Resolves(l, h, st, call)
    ensures Resolves(l, h, Interned(l, h, st, next).state, call)
  {
    hide TotalBytes, CappedBytes;
    InsertKeepsInv(l, h, st, next);
  }

  /** An issued id keeps resolving to its value, and a strict-hot value stays a hot string, in
      every later state of the run. */
  lemma {:induction false} IssuedIdsResolve(l: Limits, h: Hashes, calls: seq<Call>, i: nat)
    requires l.Valid() && i < |calls| && Succeeded(l, h, calls, i)
    ensures Resolves(l, h, Run(l, h, calls), calls[i])
    decreases |calls|
  {
    hide Interned, Inv, Resolves, TotalBytes, CappedBytes, Hot, Strings, Blobs;
    var n := |calls| - 1;
    EveryRunKeepsInv(l, h, calls[..n]);
    if i < n {
      assert calls[..n][..i] == calls[..i];
      IssuedIdsResolve(l, h, calls[..n], i);
      ResolvesStays(l, h, Run(l, h, calls[..n]), calls[i], calls[n]);
    } else {
      SuccessResolves(l, h, Run(l, h, calls[..n]), calls[n]);
    }
  }

  // ----- call order does not matter -----

  /** The calls tell apart the values they intern. */
  ghost predicate ShaInjective(h: Hashes, calls: set<Call>) {
    forall c, d :: c in calls && d in calls && h.sha(c.bytes) == h.sha(d.bytes) ==> c.bytes == d.bytes
  }

  function Calls(calls: seq<Call>): set<Call> { set i | 0 <= i < |calls| :: calls[i] }

  /** The state holds exactly these calls: a description that mentions no order. */
  ghost predicate Represents(l: Limits, h: Hashes, st: State, calls: set<Call>) {
    && (forall id :: id in st.entries <==> exists c :: c in calls && h.idOf(c.bytes) == id)
    && (forall c :: c in calls ==>
          h.idOf(c.bytes) in st.entries
          && st.entries[h.idOf(c.bytes)] == StoredOf(l, h, c.bytes, st.entries[h.idOf(c.bytes)].req))
    && (forall id :: id in st.entries ==> ReqIsUnion(h, calls, id, st.entries[id].req))
  }

  ghost predicate ReqIsUnion(h: Hashes, calls: set<Call>, id: nat, req: Requirements) {
    && (req.blob <==> exists c :: c in calls && h.idOf(c.bytes) == id && c.req.blob)
    && (req.hotHard <==> exists c :: c in calls && h.idOf(c.bytes) == id && c.req.hotHard)
    && (req.hotSoft <==> exists c :: c in calls && h.idOf(c.bytes) == id && c.req.hotSoft)
  }

  /** Where a value is kept, said over the calls: in blobs when it is long or some call forces it
      there, in strings otherwise, and in the hot cache when some call asked for that, strictly or
      not, and it is a string. */
  lemma {:induction false} PlacementFollowsCalls(l: Limits, h: Hashes, st: State, calls: set<Call>, id: nat)
    requires Represents(l, h, st, calls) && id in st.entries
    ensures id in Blobs(st)
       <==> exists c :: c in calls && h.idOf(c.bytes) == id && (c.req.blob || |c.bytes| >= l.blobThreshold)
    ensures id in Strings(st)
       <==> forall c :: c in calls && h.idOf(c.bytes) == id ==> !c.req.blob && |c.bytes| < l.blobThreshold
    ensures id in Hot(st)
       <==> && (exists c :: c in calls && h.idOf(c.bytes) == id && (c.req.hotHard || c.req.hotSoft))
            && (forall c :: c in calls && h.idOf(c.bytes) == id ==> !c.req.blob && |c.bytes| < l.blobThreshold)
  {
    var e := st.entries[id];
    assert ReqIsUnion(h, calls, id, e.req);
    var first :| first in calls && h.idOf(first.bytes) == id;
    assert forall c :: c in calls && h.idOf(c.bytes) == id ==> e == StoredOf(l, h, c.bytes, e.req);
  }

  /** What is kept of a value: a bounded prefix, its full length, and its SHA-256 if it was cut. */
  lemma {:induction false} EntryHoldsValue(l: Limits, h: Hashes, st: State, calls: set<Call>, c: Call)
    requires Represents(l, h, st, calls) && c in calls
    ensures var id := h.idOf(c.bytes);
            && id in st.entries && st.entries[id].fullLen == |c.bytes|
            && (|c.bytes| <= l.truncateLimit ==> st.entries[id].bytes == c.bytes && st.entries[id].fullSha == None)
            && (|c.bytes| > l.truncateLimit ==>
                  st.entries[id].bytes == c.bytes[..l.truncateLimit] && st.entries[id].fullSha == Some(h.sha(c.bytes)))
  {
  }

  /** Some call of this id must be hot, while the value is long or some call must be in blobs. */
  ghost predicate Conflicting(l: Limits, h: Hashes, calls: set<Call>, id: nat, len: nat) {
    && (exists c :: c in calls && h.idOf(c.bytes) == id && c.req.hotHard)
    && (len >= l.blobThreshold || exists d :: d in calls && h.idOf(d.bytes) == id && d.req.blob)
  }

  /** What a call answers, by the calls before it: a reserved id or another value under the id
      collides; then contradictory placement; then a full dictionary, which only a new value that is
      not strict-hot can meet; otherwise the id. */
  lemma {:induction false} AnswerFollowsCalls(l: Limits, h: Hashes, st: State, calls: set<Call>, call: Call)
    requires l.Valid() && Represents(l, h, st, calls) && ShaInjective(h, calls + {call})
    ensures var id := h.idOf(call.bytes);
            Interned(l, h, st, call).result
            == if id == 0 || exists c :: c in calls && h.idOf(c.bytes) == id && c.bytes != call.bytes then
                 Err(Collision(id))
               else if Conflicting(l, h, calls + {call}, id, |call.bytes|) then Err(PlacementConflict(id))
               else if !call.req.hotHard && (forall c :: c in calls ==> h.idOf(c.bytes) != id)
                       && l.maxTotalBytes < USIZE_MAX
                       && st.storedBytes + Min(|call.bytes|, l.truncateLimit) > l.maxTotalBytes then
                 Err(Full(st.storedBytes, l.maxTotalBytes))
               else Ok(id)
  {
    hide StoredOf, SameValue;
    var id, all := h.idOf(call.bytes), calls + {call};
    assert call in all && forall c :: c in all <==> c in calls || c == call;
    if id in st.entries {
      var existing := st.entries[id];
      var first :| first in calls && h.idOf(first.bytes) == id;
      assert ReqIsUnion(h, calls, id, existing.req);
      forall c | c in calls && h.idOf(c.bytes) == id
        ensures SameValue(h, existing, call.bytes) <==> c.bytes == call.bytes
        ensures existing.oversized <==> |c.bytes| >= l.blobThreshold
      {
        assert existing == StoredOf(l, h, c.bytes, existing.req);
        SameValueIsEqual(l, h, c.bytes, call.bytes, existing.req);
        StoredKeepsReq(l, h, c.bytes, existing.req);
      }
      UnionGrows(h, calls, call, id, existing.req);
      ConflictIsUnion(l, h, all, id, Merged(existing.req, call.req), |call.bytes|);
    } else {
      assert ReqIsUnion(h, {call}, id, call.req);
      forall c | c in calls
        ensures h.idOf(c.bytes) != id
      {
      }
      assert ReqIsUnion(h, all, id, call.req);
      ConflictIsUnion(l, h, all, id, call.req, |call.bytes|);
    }
  }

  lemma {:induction false} ConflictIsUnion(l: Limits, h: Hashes, calls: set<Call>, id: nat, req: Requirements, len: nat)
    requires ReqIsUnion(h, calls, id, req)
    ensures Conflicting(l, h, calls, id, len) <==> req.hotHard && (req.blob || len >= l.blobThreshold)
  {
  }

  /** An order-free description determines the entries. */
  lemma {:induction false} RepresentedEntriesAreEqual(l: Limits, h: Hashes, a: State, b: State, calls: set<Call>)
    requires Represents(l, h, a, calls) && Represents(l, h, b, calls)
    ensures a.entries == b.entries
  {
    forall id | id in a.entries
      ensures id in b.entries && a.entries[id] == b.entries[id]
    {
      var c :| c in calls && h.idOf(c.bytes) == id;
      assert ReqIsUnion(h, calls, id, a.entries[id].req) && ReqIsUnion(h, calls, id, b.entries[id].req);
    }
  }

  /** What a successful call leaves at its id: this value, under the merged requirements. */
  lemma {:induction false} EntryAfter(l: Limits, h: Hashes, st: State, calls: set<Call>, call: Call)
    requires Represents(l, h, st, calls) && ShaInjective(h, calls + {call})
    requires Interned(l, h, st, call).result.Ok?
    ensures var id := h.idOf(call.bytes);
            Interned(l, h, st, call).state.entries
            == st.entries[id := StoredOf(l, h, call.bytes, MergedAt(st, id, call.req))]
    ensures var id := h.idOf(call.bytes);
            forall c :: c in calls && h.idOf(c.bytes) == id ==> c.bytes == call.bytes
  {
    hide StoredOf, SameValue, ReqIsUnion;
    var id := h.idOf(call.bytes);
    forall c | c in calls && h.idOf(c.bytes) == id
      ensures c.bytes == call.bytes
    {
      assert c in calls + {call} && call in calls + {call};
      SameValueIsEqual(l, h, c.bytes, call.bytes, st.entries[id].req);
    }
    StoredKeepsReq(l, h, call.bytes, if id in st.entries then st.entries[id].req else call.req);
  }

  /** A stored value is the given one exactly when their bytes are equal. */
  lemma {:induction false} SameValueIsEqual(l: Limits, h: Hashes, a: seq<byte>, b: seq<byte>, req: Requirements)
    requires h.sha(a) == h.sha(b) ==> a == b
    ensures SameValue(h, StoredOf(l, h, a, req), b) <==> a == b
  {
  }

  function MergedAt(st: State, id: nat, req: Requirements): Requirements {
    Merged(if id in st.entries then st.entries[id].req else Requirements(false, false, false), req)
  }

  lemma {:induction false} StepRepresents(l: Limits, h: Hashes, st: State, calls: set<Call>, call: Call)
    requires Represents(l, h, st, calls) && ShaInjective(h, calls + {call})
    requires Interned(l, h, st, call).result.Ok?
    ensures Represents(l, h, Interned(l, h, st, call).state, calls + {call})
  {
    hide Interned, ShaInjective, MergedAt, StoredOf, ReqIsUnion;
    var id, all, after := h.idOf(call.bytes), calls + {call}, Interned(l, h, st, call).state;
    EntryAfter(l, h, st, calls, call);
    StoredKeepsReq(l, h, call.bytes, MergedAt(st, id, call.req));
    forall c | c in all
      ensures h.idOf(c.bytes) in after.entries
           && after.entries[h.idOf(c.bytes)] == StoredOf(l, h, c.bytes, after.entries[h.idOf(c.bytes)].req)
    {
      if c != call { assert c in calls; }
    }
    forall k | k in after.entries
      ensures ReqIsUnion(h, all, k, after.entries[k].req)
    {
      UnionStep(h, st, calls, call, k, after.entries[k].req);
    }
    KeysStep(h, st.entries.Keys, calls, call);
    assert after.entries.Keys == st.entries.Keys + {id};
  }

  lemma {:induction false} StoredKeepsReq(l: Limits, h: Hashes, bytes: seq<byte>, req: Requirements)
    ensures StoredOf(l, h, bytes, req).req == req
    ensures StoredOf(l, h, bytes, req).fullLen == |bytes|
    ensures StoredOf(l, h, bytes, req).oversized <==> |bytes| >= l.blobThreshold
    ensures forall r :: StoredOf(l, h, bytes, req).(req := r) == StoredOf(l, h, bytes, r)
  {
  }

  lemma {:induction false} KeysStep(h: Hashes, keys: set<nat>, calls: set<Call>, call: Call)
    requires forall id :: id in keys <==> exists c :: c in calls && h.idOf(c.bytes) == id
    ensures forall id :: id in keys + {h.idOf(call.bytes)} <==> exists c :: c in calls + {call} && h.idOf(c.bytes) == id
  {
    assert call in calls + {call};
    forall id | id in keys
      ensures exists c :: c in calls + {call} && h.idOf(c.bytes) == id
    {
      var c :| c in calls && h.idOf(c.bytes) == id;
      assert c in calls + {call};
    }
  }

  lemma {:induction false} UnionStep(h: Hashes, st: State, calls: set<Call>, call: Call, k: nat, req: Requirements)
    requires k in st.entries ==> ReqIsUnion(h, calls, k, st.entries[k].req)
    requires k !in st.entries ==> forall c :: c in calls ==> h.idOf(c.bytes) != k
    requires req == if h.idOf(call.bytes) == k then MergedAt(st, k, call.req)
                    else if k in st.entries then st.entries[k].req else Requirements(false, false, false)
    ensures ReqIsUnion(h, calls + {call}, k, req)
  {
    UnionGrows(h, calls, call, k, if k in st.entries then st.entries[k].req else Requirements(false, false, false));
  }

  lemma {:induction false} UnionGrows(h: Hashes, calls: set<Call>, call: Call, id: nat, req: Requirements)
    requires ReqIsUnion(h, calls, id, req)
    ensures ReqIsUnion(h, calls + {call}, id, if h.idOf(call.bytes) == id then Merged(req, call.req) else req)
  {
    var all := calls + {call};
    assert call in all;
    assert forall c :: c in all <==> c in calls || c == call;
    if req.blob { var c :| c in calls && h.idOf(c.bytes) == id && c.req.blob; assert c in all; }
    if req.hotHard { var c :| c in calls && h.idOf(c.bytes) == id && c.req.hotHard; assert c in all; }
    if req.hotSoft { var c :| c in calls && h.idOf(c.bytes) == id && c.req.hotSoft; assert c in all; }
  }

  lemma {:induction false} CallsSnoc(calls: seq<Call>)
    requires calls != []
    ensures Calls(calls) == Calls(calls[..|calls| - 1]) + {calls[|calls| - 1]}
  {
    var n := |calls| - 1;
    forall c | c in Calls(calls)
      ensures c in Calls(calls[..n]) + {calls[n]}
    {
      var i :| 0 <= i < |calls| && calls[i] == c;
      if i < n { assert calls[..n][i] == c; }
    }
    forall c | c in Calls(calls[..n])
      ensures c in Calls(calls)
    {
      var i :| 0 <= i < n && calls[..n][i] == c;
      assert calls[i] == c;
    }
  }

  lemma {:induction false} RunRepresents(l: Limits, h: Hashes, calls: seq<Call>)
    requires AllOk(l, h, calls) && ShaInjective(h, Calls(calls))
    ensures Represents(l, h, Run(l, h, calls), Calls(calls))
  {
    if calls == [] {
    } else {
      var init := calls[..|calls| - 1];
      CallsSnoc(calls);
      RunRepresents(l, h, init);
      StepRepresents(l, h, Run(l, h, init), Calls(init), calls[|calls| - 1]);
    }
  }

  /** Two successful runs of the same calls, in any order and with any repetition, end in the same
      state: entries, placement, hot marks and byte count. */
  lemma {:induction false} OrderDoesNotMatter(l: Limits, h: Hashes, a: seq<Call>, b: seq<Call>)
    requires l.Valid() && Calls(a) == Calls(b) && ShaInjective(h, Calls(a))
    requires AllOk(l, h, a) && AllOk(l, h, b)
    ensures Run(l, h, a) == Run(l, h, b)
  {
    RunRepresents(l, h, a);
    RunRepresents(l, h, b);
    RepresentedEntriesAreEqual(l, h, Run(l, h, a), Run(l, h, b), Calls(a));
    EveryRunKeepsInv(l, h, a);
    EveryRunKeepsInv(l, h, b);
  }

  // ----- when a run succeeds -----

  /** No zero id, no id collision, and no value required both hot and in blobs. */
  ghost predicate Compatible(l: Limits, h: Hashes, calls: set<Call>) {
    && (forall c :: c in calls ==> h.idOf(c.bytes) != 0)
    && (forall c, d :: c in calls && d in calls && h.idOf(c.bytes) == h.idOf(d.bytes) ==>
          c.bytes == d.bytes
          && !(c.req.hotHard && (d.req.blob || |d.bytes| >= l.blobThreshold)))
  }

  /** The ids of these calls, and those with no strict-hot call. */
  function Ids(h: Hashes, calls: set<Call>): set<nat> { set c | c in calls :: h.idOf(c.bytes) }

  function StrictIds(h: Hashes, calls: set<Call>): set<nat> { set c | c in calls && c.req.hotHard :: h.idOf(c.bytes) }

  function PlainIds(h: Hashes, calls: set<Call>): set<nat> { Ids(h, calls) - StrictIds(h, calls) }

  ghost function StoredLen(l: Limits, h: Hashes, calls: set<Call>, id: nat): nat
    requires id in Ids(h, calls)
  {
    var c :| c in calls && h.idOf(c.bytes) == id;
    Min(|c.bytes|, l.truncateLimit)
  }

  ghost function StoredLens(l: Limits, h: Hashes, calls: set<Call>): map<nat, nat> {
    map id | id in Ids(h, calls) :: StoredLen(l, h, calls, id)
  }

  /** The bytes these calls store, over distinct ids. */
  ghost function Total(l: Limits, h: Hashes, calls: set<Call>): nat {
    Weigh(StoredLens(l, h, calls), Ids(h, calls))
  }

  /** The part of them under ids with no strict-hot call. */
  ghost function Plain(l: Limits, h: Hashes, calls: set<Call>): nat {
    Weigh(StoredLens(l, h, calls), PlainIds(h, calls))
  }

  /** At the largest pointer-sized integer there is no cap: the saturating sum never exceeds it. */
  predicate Within(l: Limits, bytes: nat) { l.maxTotalBytes == USIZE_MAX || bytes <= l.maxTotalBytes }

  /** The state that holds these calls weighs what the calls do. */
  lemma {:induction false} RepresentsBytes(l: Limits, h: Hashes, st: State, calls: set<Call>)
    requires Represents(l, h, st, calls)
    ensures st.entries.Keys == Ids(h, calls)
    ensures TotalBytes(st) == Total(l, h, calls) && CappedBytes(st) == Plain(l, h, calls)
  {
    hide ReqIsUnion, Weigh;
    forall id | id in st.entries
      ensures id in Ids(h, calls) && Lens(st.entries)[id] == StoredLen(l, h, calls, id)
      ensures id in NotStrictHot(st.entries) <==> id in PlainIds(h, calls)
    {
      var c :| c in calls && h.idOf(c.bytes) == id;
      HeldIsStrict(h, calls, id, st.entries[id].req);
    }
    assert st.entries.Keys == Ids(h, calls);
    assert Lens(st.entries) == StoredLens(l, h, calls);
    assert NotStrictHot(st.entries) == PlainIds(h, calls);
  }

  lemma {:induction false} HeldIsStrict(h: Hashes, calls: set<Call>, id: nat, req: Requirements)
    requires ReqIsUnion(h, calls, id, req)
    ensures req.hotHard <==> id in StrictIds(h, calls)
  {
  }

  /** Among compatible calls an id has one stored length, so fewer ids weigh no more. */
  lemma {:induction false} PartWeighs(l: Limits, h: Hashes, part: set<Call>, calls: set<Call>, ids: set<nat>)
    requires part <= calls && Compatible(l, h, calls) && Ids(h, part) <= ids <= Ids(h, calls)
    ensures Total(l, h, part) <= Weigh(StoredLens(l, h, calls), ids)
    ensures Ids(h, part) == ids ==> Total(l, h, part) == Weigh(StoredLens(l, h, calls), ids)
  {
    forall id | id in Ids(h, part)
      ensures StoredLen(l, h, part, id) == StoredLen(l, h, calls, id)
    {
    }
    WeighSame(StoredLens(l, h, part), StoredLens(l, h, calls), Ids(h, part));
    WeighSubset(StoredLens(l, h, calls), Ids(h, part), ids);
  }

  /** A call under a new id adds its own stored length. */
  lemma {:induction false} NewIdWeighs(l: Limits, h: Hashes, calls: set<Call>, call: Call)
    requires Compatible(l, h, calls + {call}) && h.idOf(call.bytes) !in Ids(h, calls)
    ensures Total(l, h, calls + {call}) == Total(l, h, calls) + Min(|call.bytes|, l.truncateLimit)
  {
    var id, all := h.idOf(call.bytes), calls + {call};
    assert call in all;
    assert Ids(h, all) - {id} == Ids(h, calls);
    PartWeighs(l, h, calls, all, Ids(h, calls));
    WeighWithout(StoredLens(l, h, all), Ids(h, all), id);
    assert StoredLen(l, h, all, id) == Min(|call.bytes|, l.truncateLimit);
  }

  /** One more call succeeds exactly when the calls stay compatible and it has room, unless it is
      strict-hot or its id is known. */
  lemma {:induction false} NextSucceeds(l: Limits, h: Hashes, st: State, calls: set<Call>, call: Call)
    requires Represents(l, h, st, calls) && ShaInjective(h, calls + {call}) && Compatible(l, h, calls)
    requires l.Valid() && st.storedBytes == Total(l, h, calls)
    ensures Interned(l, h, st, call).result.Ok?
       <==> Compatible(l, h, calls + {call})
            && (call.req.hotHard || h.idOf(call.bytes) in Ids(h, calls) || Within(l, Total(l, h, calls + {call})))
  {
    hide Interned, Compatible, ShaInjective, ReqIsUnion, StoredOf, Total;
    RepresentsBytes(l, h, st, calls);
    if h.idOf(call.bytes) in st.entries {
      KnownValueSucceeds(l, h, st, calls, call);
    } else {
      NewValueSucceeds(l, h, st, calls, call);
      if Compatible(l, h, calls + {call}) { NewIdWeighs(l, h, calls, call); }
    }
  }

  /** A value under a new id is refused only for its own requirements, a zero id or lack of room. */
  lemma {:induction false} NewValueSucceeds(l: Limits, h: Hashes, st: State, calls: set<Call>, call: Call)
    requires l.Valid() && h.idOf(call.bytes) !in st.entries && Compatible(l, h, calls)
    requires forall c :: c in calls ==> h.idOf(c.bytes) != h.idOf(call.bytes)
    ensures Interned(l, h, st, call).result.Ok?
       <==> Compatible(l, h, calls + {call})
            && (call.req.hotHard || Within(l, st.storedBytes + Min(|call.bytes|, l.truncateLimit)))
  {
    hide StoredOf;
    assert call in calls + {call};
    assert forall c :: c in calls + {call} <==> c in calls || c == call;
  }

  /** Re-interning succeeds exactly when the value is the same and the requirements agree. */
  lemma {:induction false} KnownValueSucceeds(l: Limits, h: Hashes, st: State, calls: set<Call>, call: Call)
    requires Represents(l, h, st, calls) && ShaInjective(h, calls + {call})
    requires Compatible(l, h, calls) && h.idOf(call.bytes) in st.entries
    ensures Interned(l, h, st, call).result.Ok? <==> Compatible(l, h, calls + {call})
  {
    hide StoredOf, SameValue;
    var id, all := h.idOf(call.bytes), calls + {call};
    var first :| first in calls && h.idOf(first.bytes) == id;
    var existing := st.entries[id];
    assert first in all && call in all;
    assert existing == StoredOf(l, h, first.bytes, existing.req) && ReqIsUnion(h, calls, id, existing.req);
    SameValueIsEqual(l, h, first.bytes, call.bytes, existing.req);
    StoredKeepsReq(l, h, first.bytes, existing.req);
    if first.bytes == call.bytes {
      var merged := Merged(existing.req, call.req);
      UnionGrows(h, calls, call, id, existing.req);
      MergedConflict(l, h, calls, call, merged);
    }
  }

  /** The merged requirements conflict exactly when some pair of calls does. */
  lemma {:induction false} MergedConflict(l: Limits, h: Hashes, calls: set<Call>, call: Call, merged: Requirements)
    requires Compatible(l, h, calls) && h.idOf(call.bytes) != 0
    requires forall c :: c in calls && h.idOf(c.bytes) == h.idOf(call.bytes) ==> c.bytes == call.bytes
    requires ReqIsUnion(h, calls + {call}, h.idOf(call.bytes), merged)
    ensures !(merged.hotHard && (merged.blob || |call.bytes| >= l.blobThreshold)) <==> Compatible(l, h, calls + {call})
  {
    var id, all := h.idOf(call.bytes), calls + {call};
    if merged.hotHard && (merged.blob || |call.bytes| >= l.blobThreshold) {
      var c :| c in all && h.idOf(c.bytes) == id && c.req.hotHard;
      if merged.blob {
        var d :| d in all && h.idOf(d.bytes) == id && d.req.blob;
        assert !Compatible(l, h, all);
      }
    } else {
      forall c, d | c in all && d in all && h.idOf(c.bytes) == h.idOf(d.bytes)
        ensures c.bytes == d.bytes && !(c.req.hotHard && (d.req.blob || |d.bytes| >= l.blobThreshold))
      {
        assert c == call || c in calls;
        assert d == call || d in calls;
      }
    }
  }

  /** Call `i` stores no new bytes, is exempt, or leaves the total within the cap. */
  ghost predicate Fits(l: Limits, h: Hashes, calls: seq<Call>, i: nat)
    requires i < |calls|
  {
    || calls[i].req.hotHard
    || h.idOf(calls[i].bytes) in Ids(h, Calls(calls[..i]))
    || Within(l, Total(l, h, Calls(calls[..i + 1])))
  }

  /** A run succeeds exactly when its calls are compatible and each one fits where it stands. */
  lemma {:induction false} RunSucceeds(l: Limits, h: Hashes, calls: seq<Call>)
    requires l.Valid() && ShaInjective(h, Calls(calls))
    ensures AllOk(l, h, calls)
       <==> Compatible(l, h, Calls(calls)) && forall i :: 0 <= i < |calls| ==> Fits(l, h, calls, i)
  {
    hide Total, Interned, Fits, ShaInjective, Represents;
    if calls == [] {
    } else {
      var n := |calls| - 1;
      var init, last := calls[..n], calls[n];
      CallsSnoc(calls);
      FewerCalls(l, h, Calls(init), Calls(calls));
      FitsSnoc(l, h, calls);
      RunSucceeds(l, h, init);
      if AllOk(l, h, init) {
        RunRepresents(l, h, init);
        EveryRunKeepsInv(l, h, init);
        RepresentsBytes(l, h, Run(l, h, init), Calls(init));
        NextSucceeds(l, h, Run(l, h, init), Calls(init), last);
      }
    }
  }

  lemma {:induction false} FewerCalls(l: Limits, h: Hashes, part: set<Call>, calls: set<Call>)
    requires part <= calls
    ensures ShaInjective(h, calls) ==> ShaInjective(h, part)
    ensures Compatible(l, h, calls) ==> Compatible(l, h, part)
  {
  }

  lemma {:induction false} FitsSnoc(l: Limits, h: Hashes, calls: seq<Call>)
    requires calls != []
    ensures var n := |calls| - 1;
            (forall i :: 0 <= i < |calls| ==> Fits(l, h, calls, i))
            <==> (forall i :: 0 <= i < n ==> Fits(l, h, calls[..n], i))
                 && (calls[n].req.hotHard || h.idOf(calls[n].bytes) in Ids(h, Calls(calls[..n]))
                     || Within(l, Total(l, h, Calls(calls))))
  {
    hide Total, Within, Ids, Calls;
    var n := |calls| - 1;
    assert calls[..n + 1] == calls;
    forall i | 0 <= i < n
      ensures Fits(l, h, calls, i) <==> Fits(l, h, calls[..n], i)
    {
      assert calls[..i] == calls[..n][..i] && calls[..i + 1] == calls[..n][..i + 1];
    }
    if forall i :: 0 <= i < n ==> Fits(l, h, calls[..n], i) {
      assert forall i :: 0 <= i < n ==> Fits(l, h, calls, i);
      assert Fits(l, h, calls, n) <==> forall i :: 0 <= i < |calls| ==> Fits(l, h, calls, i);
    }
  }

  // ----- when the order decides success -----

  ghost predicate IsOrder(order: seq<Call>, calls: seq<Call>) { multiset(order) == multiset(calls) }

  ghost predicate EveryOrderSucceeds(l: Limits, h: Hashes, calls: seq<Call>) {
    forall order :: IsOrder(order, calls) ==> AllOk(l, h, order)
  }

  ghost predicate SomeOrderSucceeds(l: Limits, h: Hashes, calls: seq<Call>) {
    exists order :: IsOrder(order, calls) && AllOk(l, h, order)
  }

  predicate AllStrict(calls: seq<Call>) { forall i :: 0 <= i < |calls| ==> calls[i].req.hotHard }

  lemma {:induction false} CallsMember(calls: seq<Call>, c: Call)
    ensures c in Calls(calls) <==> c in multiset(calls)
  {
  }

  lemma {:induction false} SameCalls(order: seq<Call>, calls: seq<Call>)
    requires IsOrder(order, calls)
    ensures Calls(order) == Calls(calls)
  {
    forall c
      ensures c in Calls(order) <==> c in Calls(calls)
    {
      CallsMember(order, c);
      CallsMember(calls, c);
    }
  }

  function Keep(calls: seq<Call>, wanted: Call -> bool): (kept: seq<Call>)
    ensures forall i :: 0 <= i < |kept| ==> wanted(kept[i]) && kept[i] in calls
  {
    if calls == [] then []
    else if wanted(calls[0]) then [calls[0]] + Keep(calls[1..], wanted)
    else Keep(calls[1..], wanted)
  }

  lemma {:induction false} KeepSplits(calls: seq<Call>, wanted: Call -> bool)
    ensures multiset(Keep(calls, wanted)) + multiset(Keep(calls, c => !wanted(c))) == multiset(calls)
  {
    if calls == [] {
    } else {
      KeepSplits(calls[1..], wanted);
      assert [calls[0]] + calls[1..] == calls;
    }
  }

  /** Every order succeeds exactly when the calls are compatible and even all of them together fit,
      or none of them is subject to the cap. */
  lemma {:induction false} EveryOrder(l: Limits, h: Hashes, calls: seq<Call>)
    requires l.Valid() && ShaInjective(h, Calls(calls))
    ensures EveryOrderSucceeds(l, h, calls)
       <==> Compatible(l, h, Calls(calls)) && (Within(l, Total(l, h, Calls(calls))) || AllStrict(calls))
  {
    hide Total, Compatible, AllOk, ShaInjective;
    assert IsOrder(calls, calls);
    RunSucceeds(l, h, calls);
    if Compatible(l, h, Calls(calls)) {
      if Within(l, Total(l, h, Calls(calls))) || AllStrict(calls) {
        forall order | IsOrder(order, calls)
          ensures AllOk(l, h, order)
        {
          AnyOrderFits(l, h, order, calls);
        }
      } else {
        var k :| 0 <= k < |calls| && !calls[k].req.hotHard;
        CrowdedOrder(l, h, calls, k);
      }
    }
  }

  lemma {:induction false} AnyOrderFits(l: Limits, h: Hashes, order: seq<Call>, calls: seq<Call>)
    requires l.Valid() && ShaInjective(h, Calls(calls)) && IsOrder(order, calls)
    requires Compatible(l, h, Calls(calls)) && (Within(l, Total(l, h, Calls(calls))) || AllStrict(calls))
    ensures AllOk(l, h, order)
  {
    hide Compatible, AllOk, ShaInjective;
    SameCalls(order, calls);
    RunSucceeds(l, h, order);
    forall i | 0 <= i < |order|
      ensures Fits(l, h, order, i)
    {
      if AllStrict(calls) {
        assert order[i] in multiset(calls);
      } else {
        PrefixCalls(order, i + 1);
        PartWeighs(l, h, Calls(order[..i + 1]), Calls(order), Ids(h, Calls(order)));
      }
    }
  }

  lemma {:induction false} PrefixCalls(calls: seq<Call>, n: nat)
    requires n <= |calls|
    ensures Calls(calls[..n]) <= Calls(calls)
  {
    forall c | c in Calls(calls[..n])
      ensures c in Calls(calls)
    {
      var i :| 0 <= i < n && calls[..n][i] == c;
      assert calls[i] == c;
    }
  }

  /** With an ordinary call interned after all other ids, the first refusal is its own. */
  lemma {:induction false} CrowdedOrder(l: Limits, h: Hashes, calls: seq<Call>, k: nat)
    requires l.Valid() && ShaInjective(h, Calls(calls)) && Compatible(l, h, Calls(calls))
    requires !Within(l, Total(l, h, Calls(calls))) && k < |calls| && !calls[k].req.hotHard
    ensures !EveryOrderSucceeds(l, h, calls)
  {
    hide Compatible, AllOk, ShaInjective, Total, Fits, Calls, IsOrder;
    var order, n := MovedLate(h, calls, k);
    SameCalls(order, calls);
    RunSucceeds(l, h, order);
    LastOneCrowds(l, h, order, n);
  }

  /** Call `k` after every call of another id and before the others of its own. */
  lemma {:induction false} MovedLate(h: Hashes, calls: seq<Call>, k: nat) returns (order: seq<Call>, n: nat)
    requires k < |calls|
    ensures IsOrder(order, calls) && n < |order| && order[n] == calls[k]
    ensures forall i :: 0 <= i < n ==> h.idOf(order[i].bytes) != h.idOf(order[n].bytes)
    ensures forall i :: n <= i < |order| ==> h.idOf(order[i].bytes) == h.idOf(order[n].bytes)
  {
    hide IsOrder;
    var last, rest := calls[k], calls[..k] + calls[k + 1..];
    var other := (c: Call) => h.idOf(c.bytes) != h.idOf(last.bytes);
    var before, after := Keep(rest, other), Keep(rest, c => !other(c));
    order, n := before + ([last] + after), |before|;
    KeepSplits(rest, other);
    Moved(calls, k, before, after);
    forall i | n <= i < |order|
      ensures h.idOf(order[i].bytes) == h.idOf(last.bytes)
    {
      assert order[i] == if i == n then last else after[i - n - 1];
    }
  }

  lemma {:induction false} Moved(calls: seq<Call>, k: nat, before: seq<Call>, after: seq<Call>)
    requires k < |calls| && multiset(before) + multiset(after) == multiset(calls[..k] + calls[k + 1..])
    ensures IsOrder(before + ([calls[k]] + after), calls)
  {
    var a, b, last := calls[..k], calls[k + 1..], [calls[k]];
    assert calls == a + (last + b);
    Swap(multiset(before), multiset(after), multiset(a), multiset(b), multiset(last));
    assert multiset(calls) == multiset(a) + (multiset(last) + multiset(b));
    assert multiset(before + (last + after)) == multiset(before) + (multiset(last) + multiset(after));
  }

  lemma {:induction false} Swap(x: multiset<Call>, y: multiset<Call>, u: multiset<Call>, v: multiset<Call>,
                                w: multiset<Call>)
    requires x + y == u + v
    ensures x + (w + y) == u + (w + v)
  {
    assert x + (w + y) == w + (x + y);
    assert u + (w + v) == w + (u + v);
  }

  lemma {:induction false} LastOneCrowds(l: Limits, h: Hashes, order: seq<Call>, n: nat)
    requires n < |order| && !order[n].req.hotHard
    requires Compatible(l, h, Calls(order)) && !Within(l, Total(l, h, Calls(order)))
    requires forall i :: 0 <= i < n ==> h.idOf(order[i].bytes) != h.idOf(order[n].bytes)
    requires forall i :: n <= i < |order| ==> h.idOf(order[i].bytes) == h.idOf(order[n].bytes)
    ensures !Fits(l, h, order, n)
  {
    hide Compatible, Weigh;
    PrefixCalls(order, n + 1);
    CrowdedIds(h, order, n);
    PartWeighs(l, h, Calls(order[..n + 1]), Calls(order), Ids(h, Calls(order)));
  }

  lemma {:induction false} CrowdedIds(h: Hashes, order: seq<Call>, n: nat)
    requires n < |order|
    requires forall i :: n <= i < |order| ==> h.idOf(order[i].bytes) == h.idOf(order[n].bytes)
    ensures Ids(h, Calls(order[..n + 1])) == Ids(h, Calls(order))
  {
    PrefixCalls(order, n + 1);
    forall id | id in Ids(h, Calls(order))
      ensures id in Ids(h, Calls(order[..n + 1]))
    {
      var i :| 0 <= i < |order| && h.idOf(order[i].bytes) == id;
      var j := if i < n then i else n;
      assert order[..n + 1][j] in Calls(order[..n + 1]);
    }
  }

  /** Some order succeeds exactly when the calls are compatible and what is subject to the cap fits. */
  lemma {:induction false} SomeOrder(l: Limits, h: Hashes, calls: seq<Call>)
    requires l.Valid() && ShaInjective(h, Calls(calls))
    ensures SomeOrderSucceeds(l, h, calls)
       <==> Compatible(l, h, Calls(calls)) && Within(l, Plain(l, h, Calls(calls)))
  {
    hide Compatible, AllOk, ShaInjective, Plain;
    if SomeOrderSucceeds(l, h, calls) {
      var order :| IsOrder(order, calls) && AllOk(l, h, order);
      SameCalls(order, calls);
      RunSucceeds(l, h, order);
      RunRepresents(l, h, order);
      EveryRunKeepsInv(l, h, order);
      RepresentsBytes(l, h, Run(l, h, order), Calls(order));
    }
    if Compatible(l, h, Calls(calls)) && Within(l, Plain(l, h, Calls(calls))) {
      RoomyOrder(l, h, calls);
    }
  }

  /** Ids with no strict-hot call first, then the strict-hot calls, then the rest. */
  lemma {:induction false} RoomyOrder(l: Limits, h: Hashes, calls: seq<Call>)
    requires l.Valid() && ShaInjective(h, Calls(calls))
    requires Compatible(l, h, Calls(calls)) && Within(l, Plain(l, h, Calls(calls)))
    ensures SomeOrderSucceeds(l, h, calls)
  {
    hide Compatible, AllOk, ShaInjective, Plain, PlainIds, IsOrder, Within, Fits, Calls;
    var order, a, b := StrictInTheMiddle(h, calls);
    SameCalls(order, calls);
    RunSucceeds(l, h, order);
    forall i | 0 <= i < |order|
      ensures Fits(l, h, order, i)
    {
      if i < a {
        PlainFits(l, h, order, i);
      } else {
        StrictOrKnownFits(l, h, order, a, b, i);
      }
    }
  }

  lemma {:induction false} StrictInTheMiddle(h: Hashes, calls: seq<Call>) returns (order: seq<Call>, a: nat, b: nat)
    ensures IsOrder(order, calls) && a <= b <= |order|
    ensures forall i :: 0 <= i < |order| ==> (i < a <==> h.idOf(order[i].bytes) in PlainIds(h, Calls(calls)))
    ensures forall i :: a <= i < |order| ==> (i < b <==> order[i].req.hotHard)
  {
    hide PlainIds, Calls, IsOrder;
    var all := Calls(calls);
    var plain := (c: Call) => h.idOf(c.bytes) in PlainIds(h, all);
    var strict := (c: Call) => c.req.hotHard;
    var first, others := Keep(calls, plain), Keep(calls, c => !plain(c));
    var second, third := Keep(others, strict), Keep(others, c => !strict(c));
    KeepSplits(calls, plain);
    KeepSplits(others, strict);
    order, a, b := first + (second + third), |first|, |first| + |second|;
    InThree(calls, first, others, second, third);
    Sections(first, second, third, plain, strict);
  }

  lemma {:induction false} Sections(a: seq<Call>, b: seq<Call>, c: seq<Call>, p: Call -> bool, q: Call -> bool)
    requires forall i :: 0 <= i < |a| ==> p(a[i])
    requires forall i :: 0 <= i < |b| ==> !p(b[i]) && q(b[i])
    requires forall i :: 0 <= i < |c| ==> !p(c[i]) && !q(c[i])
    ensures forall i :: 0 <= i < |a + (b + c)| ==> (i < |a| <==> p((a + (b + c))[i]))
    ensures forall i :: |a| <= i < |a + (b + c)| ==> (i < |a| + |b| <==> q((a + (b + c))[i]))
  {
    forall i | 0 <= i < |a + (b + c)|
      ensures (a + (b + c))[i] == if i < |a| then a[i] else if i < |a| + |b| then b[i - |a|] else c[i - |a| - |b|]
    {
    }
  }

  lemma {:induction false} InThree(calls: seq<Call>, a: seq<Call>, others: seq<Call>, b: seq<Call>, c: seq<Call>)
    requires multiset(a) + multiset(others) == multiset(calls) && multiset(b) + multiset(c) == multiset(others)
    ensures IsOrder(a + (b + c), calls)
  {
    assert multiset(a + (b + c)) == multiset(a) + multiset(b + c);
  }

  lemma {:induction false} PlainFits(l: Limits, h: Hashes, order: seq<Call>, i: nat)
    requires i < |order| && Compatible(l, h, Calls(order)) && Within(l, Plain(l, h, Calls(order)))
    requires forall j :: 0 <= j <= i ==> h.idOf(order[j].bytes) in PlainIds(h, Calls(order))
    ensures Fits(l, h, order, i)
  {
    hide Compatible, PlainIds;
    var part, all := Calls(order[..i + 1]), Calls(order);
    PrefixCalls(order, i + 1);
    forall id | id in Ids(h, part)
      ensures id in PlainIds(h, all)
    {
      var j :| 0 <= j <= i && h.idOf(order[j].bytes) == id;
    }
    PlainIdsAreIds(h, all);
    PartWeighs(l, h, part, all, PlainIds(h, all));
  }

  lemma {:induction false} PlainIdsAreIds(h: Hashes, calls: set<Call>)
    ensures PlainIds(h, calls) <= Ids(h, calls)
  {
  }

  /** A later ordinary call under an id with a strict-hot call comes after that call. */
  lemma {:induction false} StrictOrKnownFits(l: Limits, h: Hashes, order: seq<Call>, a: nat, b: nat, i: nat)
    requires a <= b && a <= i < |order|
    requires forall j :: 0 <= j < |order| ==> (j < a <==> h.idOf(order[j].bytes) in PlainIds(h, Calls(order)))
    requires forall j :: a <= j < |order| ==> (j < b <==> order[j].req.hotHard)
    ensures Fits(l, h, order, i)
  {
    hide Within, Total;
    if !order[i].req.hotHard {
      assert order[i] in Calls(order) && h.idOf(order[i].bytes) !in PlainIds(h, Calls(order));
      var c :| c in Calls(order) && c.req.hotHard && h.idOf(c.bytes) == h.idOf(order[i].bytes);
      var j :| 0 <= j < |order| && order[j] == c;
      assert j < b <= i && order[..i][j] == c;
      assert c in Calls(order[..i]);
    }
  }

  /** Success does not depend on the order of the calls, except exactly for compatible calls that
      are not all strict-hot, whose capped part fits but whose total does not. */
  lemma {:induction false} SuccessIsOrderFree(l: Limits, h: Hashes, calls: seq<Call>)
    requires l.Valid() && ShaInjective(h, Calls(calls))
    ensures (forall a, b :: IsOrder(a, calls) && IsOrder(b, calls) ==> (AllOk(l, h, a) <==> AllOk(l, h, b)))
       <==> !(Compatible(l, h, Calls(calls)) && !AllStrict(calls)
              && Within(l, Plain(l, h, Calls(calls))) && !Within(l, Total(l, h, Calls(calls))))
  {
    hide Compatible, AllOk, ShaInjective, Total, Plain, AllStrict, Within;
    EveryOrder(l, h, calls);
    SomeOrder(l, h, calls);
    assert IsOrder(calls, calls);
  }

  ghost predicate OrderMatters(l: Limits, h: Hashes, a: Call, b: Call) {
    l.Valid() && ShaInjective(h, Calls([a, b])) && AllOk(l, h, [a, b]) && !AllOk(l, h, [b, a])
  }

  lemma {:induction false} RunOne(l: Limits, h: Hashes, a: Call)
    ensures Run(l, h, [a]) == Interned(l, h, EMPTY, a).state
    ensures AllOk(l, h, [a]) <==> Interned(l, h, EMPTY, a).result.Ok?
  {
    assert [a][..0] == [];
  }

  lemma {:induction false} RunTwo(l: Limits, h: Hashes, a: Call, b: Call)
    ensures AllOk(l, h, [a, b]) <==> AllOk(l, h, [a]) && Interned(l, h, Run(l, h, [a]), b).result.Ok?
  {
    assert [a, b][..1] == [a];
  }

  /** With a cap that binds, order does matter: a strict-hot value is exempt but still counted, so
      interning it first can leave no room for an ordinary one. */
  lemma {:induction false} CapMakesOrderMatter()
    ensures exists l: Limits, h: Hashes, a: Call, b: Call :: OrderMatters(l, h, a, b)
  {
    hide Run, AllOk;
    var l := Limits(2, 2, 2);
    var h := Hashes(bytes => 1 + |bytes|, bytes => bytes);
    var hot, plain := Call([7], Requirements(false, true, false)), Call([7, 7], Requirements(false, false, false));
    RunOne(l, h, plain);
    RunOne(l, h, hot);
    RunTwo(l, h, plain, hot);
    RunTwo(l, h, hot, plain);
    assert OrderMatters(l, h, plain, hot);
  }
}
