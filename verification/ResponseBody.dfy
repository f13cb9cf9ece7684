/** Staging, compression and bounded delivery of one response
    (bins/kronika-web/src/body.rs, bins/kronika-web/src/encoding.rs). */
module ResponseBody {
  import opened Machine

  type Octets = seq<bv8>

  const STAGED_PREFIX_BYTES: nat := 8192
  const BODY_CHUNK_BYTES: nat := 8192
  const BODY_CHANNEL_CAPACITY: nat := 8

  // ----- content coding -----

  datatype ContentCoding = Identity | Gzip

  datatype AcceptedEncodings = AcceptedEncodings(gzip: nat, identity: nat) {
    function ForLarge(): ContentCoding { if gzip > 0 then Gzip else Identity }

    function ForSmall(): ContentCoding { if identity > 0 then Identity else Gzip }

    /** The coding of a response of this many bytes. */
    function ForLength(n: nat): ContentCoding {
      if n <= STAGED_PREFIX_BYTES then ForSmall() else ForLarge()
    }
  }

  /** What a coding is worth to the client; zero means it is refused. */
  function Quality(a: AcceptedEncodings, coding: ContentCoding): nat {
    match coding case Identity => a.identity case Gzip => a.gzip
  }

  /** A client that accepts anything gets a coding it accepts: compressed above 8 KiB whenever it
      takes that, and plain up to 8 KiB whenever it takes that. */
  lemma {:induction false} ChosenIsAccepted(a: AcceptedEncodings, n: nat)
    requires a.gzip > 0 || a.identity > 0
    ensures Quality(a, a.ForLength(n)) > 0
    ensures n > 8192 ==> (a.ForLength(n) == Gzip <==> a.gzip > 0)
    ensures n <= 8192 ==> (a.ForLength(n) == Identity <==> a.identity > 0)
    ensures Quality(a, a.ForLarge()) > 0 && (a.ForLarge() == Gzip <==> a.gzip > 0)
  {
  }

  function Flatten(pieces: seq<Octets>): Octets {
    if pieces == [] then [] else Flatten(pieces[..|pieces| - 1]) + pieces[|pieces| - 1]
  }

  /** The compressor, as a transducer with a client-side decoder. */
  datatype Coder<!S> = Coder(start: S, step: (S, Octets) -> (S, Octets), finish: S -> Octets,
                             decode: Octets -> Option<Octets>)

  function After<S>(c: Coder<S>, pieces: seq<Octets>): S {
    if pieces == [] then c.start
    else c.step(After(c, pieces[..|pieces| - 1]), pieces[|pieces| - 1]).0
  }

  /** What the coder has put out after these writes. */
  function Output<S>(c: Coder<S>, pieces: seq<Octets>): Octets {
    if pieces == [] then []
    else Output(c, pieces[..|pieces| - 1]) + c.step(After(c, pieces[..|pieces| - 1]), pieces[|pieces| - 1]).1
  }

  function Encoded<S>(c: Coder<S>, pieces: seq<Octets>): Octets {
    Output(c, pieces) + c.finish(After(c, pieces))
  }

  /** Decoding gives back what was written, however it was split. */
  ghost predicate Faithful<S>(c: Coder<S>) {
    forall pieces :: c.decode(Encoded(c, pieces)) == Some(Flatten(pieces))
  }

  /** Coding a staged prefix stays within what the channel can queue. */
  ghost predicate Compact<S>(c: Coder<S>) {
    forall p: Octets :: |p| <= STAGED_PREFIX_BYTES ==>
      |Encoded(c, [p])| <= 64 * 1024
  }

  /** The writes a run of emitted pieces becomes: a staged prefix, its remainder, then each piece. */
  function Staged(prefix: Octets, emits: seq<Octets>): seq<Octets>
    requires |prefix| <= STAGED_PREFIX_BYTES
    decreases |emits|
  {
    if emits == [] then [prefix]
    else if |prefix| + |emits[0]| <= STAGED_PREFIX_BYTES then Staged(prefix + emits[0], emits[1..])
    else
      var room := STAGED_PREFIX_BYTES - |prefix|;
      [prefix + emits[0][..room], emits[0][room..]] + emits[1..]
  }

  function Writes(emits: seq<Octets>): seq<Octets> {
    Staged([], emits)
  }

  /** What a complete response delivers under a coding. */
  function Coded<S>(coding: ContentCoding, c: Coder<S>, pieces: seq<Octets>): Octets {
    match coding
    case Identity => Flatten(pieces)
    case Gzip => Encoded(c, pieces)
  }

  /** What the coding has produced while the response is still growing. */
  function Produced<S>(coding: ContentCoding, c: Coder<S>, pieces: seq<Octets>): Octets {
    match coding
    case Identity => Flatten(pieces)
    case Gzip => Output(c, pieces)
  }

  /** The client's view of delivered bytes. */
  function Received<S>(coding: ContentCoding, c: Coder<S>, bytes: Octets): Option<Octets> {
    match coding
    case Identity => Some(bytes)
    case Gzip => c.decode(bytes)
  }

  lemma {:induction false} FlattenAppend(a: seq<Octets>, b: seq<Octets>)
    ensures Flatten(a + b) == Flatten(a) + Flatten(b)
  {
    if b == [] {
      assert a + b == a;
    } else {
      var n := |b| - 1;
      var all := a + b;
      FlattenAppend(a, b[..n]);
      assert all[..|all| - 1] == a + b[..n] && all[|all| - 1] == b[n];
      assert Flatten(all) == Flatten(a + b[..n]) + b[n];
    }
  }

  lemma {:induction false} FlattenOne(p: Octets)
    ensures Flatten([p]) == p
  {
    assert [p][..0] == [];
  }

  lemma {:induction false} StagedKeepsBytes(prefix: Octets, emits: seq<Octets>)
    requires |prefix| <= STAGED_PREFIX_BYTES
    ensures Flatten(Staged(prefix, emits)) == prefix + Flatten(emits)
    decreases |emits|
  {
    FlattenOne(prefix);
    if emits == [] {
    } else {
      var e, rest := emits[0], emits[1..];
      assert emits == [e] + rest;
      FlattenAppend([e], rest);
      FlattenOne(e);
      if |prefix| + |e| <= STAGED_PREFIX_BYTES {
        StagedKeepsBytes(prefix + e, rest);
      } else {
        var room := STAGED_PREFIX_BYTES - |prefix|;
        var head, tail := prefix + e[..room], e[room..];
        FlattenAppend([head, tail], rest);
        FlattenAppend([head], [tail]);
        FlattenOne(head);
        FlattenOne(tail);
        assert [head, tail] == [head] + [tail];
        assert head + tail == prefix + e;
      }
    }
  }

  /** A client that decodes a complete delivery gets the emitted bytes, for any split into pieces. */
  lemma {:induction false} CompleteDeliveryDecodes<S>(coding: ContentCoding, c: Coder<S>, emits: seq<Octets>)
    requires Faithful(c)
    ensures Received(coding, c, Coded(coding, c, Writes(emits))) == Some(Flatten(emits))
  {
    StagedKeepsBytes([], emits);
    assert Flatten(Writes(emits)) == Flatten(emits);
  }

  /** While everything fits the prefix, there is a single write. */
  lemma {:induction false} StagedFits(prefix: Octets, emits: seq<Octets>)
    requires |prefix| + |Flatten(emits)| <= STAGED_PREFIX_BYTES
    ensures Staged(prefix, emits) == [prefix + Flatten(emits)]
    decreases |emits|
  {
    if emits == [] {
      assert prefix + Flatten(emits) == prefix;
    } else {
      assert emits == [emits[0]] + emits[1..];
      FlattenAppend([emits[0]], emits[1..]);
      FlattenOne(emits[0]);
      StagedFits(prefix + emits[0], emits[1..]);
      assert prefix + emits[0] + Flatten(emits[1..]) == prefix + Flatten(emits);
    }
  }

  /** The piece that overflows the prefix splits there. */
  lemma {:induction false} StagedOverflows(prefix: Octets, emits: seq<Octets>, e: Octets)
    requires |prefix| + |Flatten(emits)| <= STAGED_PREFIX_BYTES < |prefix| + |Flatten(emits)| + |e|
    ensures var room := STAGED_PREFIX_BYTES - |prefix| - |Flatten(emits)|;
            Staged(prefix, emits + [e]) == [prefix + Flatten(emits) + e[..room]] + [e[room..]]
    decreases |emits|
  {
    if emits == [] {
      assert emits + [e] == [e] && [e][1..] == [];
      assert prefix + Flatten(emits) == prefix;
    } else {
      assert emits == [emits[0]] + emits[1..];
      FlattenAppend([emits[0]], emits[1..]);
      FlattenOne(emits[0]);
      assert (emits + [e])[1..] == emits[1..] + [e];
      StagedOverflows(prefix + emits[0], emits[1..], e);
      assert prefix + emits[0] + Flatten(emits[1..]) == prefix + Flatten(emits);
    }
  }

  /** After that, each piece is one more write. */
  lemma {:induction false} StagedGrows(prefix: Octets, emits: seq<Octets>, e: Octets)
    requires |prefix| <= STAGED_PREFIX_BYTES < |prefix| + |Flatten(emits)|
    ensures Staged(prefix, emits + [e]) == Staged(prefix, emits) + [e]
    decreases |emits|
  {
    var more := emits + [e];
    if emits == [] {
    } else {
      assert emits == [emits[0]] + emits[1..];
      FlattenAppend([emits[0]], emits[1..]);
      FlattenOne(emits[0]);
      assert more[1..] == emits[1..] + [e];
      if |prefix| + |emits[0]| <= STAGED_PREFIX_BYTES {
        StagedGrows(prefix + emits[0], emits[1..], e);
      } else {
        var room := STAGED_PREFIX_BYTES - |prefix|;
        var two := [prefix + emits[0][..room], emits[0][room..]];
        assert two + more[1..] == (two + emits[1..]) + [e];
      }
    }
  }

  lemma {:induction false} FlattenSnoc(emits: seq<Octets>, e: Octets)
    ensures Flatten(emits + [e]) == Flatten(emits) + e
  {
    assert (emits + [e])[..|emits|] == emits;
  }

  lemma {:induction false} OutputSnoc<S>(c: Coder<S>, pieces: seq<Octets>, e: Octets)
    ensures Output(c, pieces + [e]) == Output(c, pieces) + c.step(After(c, pieces), e).1
    ensures After(c, pieces + [e]) == c.step(After(c, pieces), e).0
  {
    assert (pieces + [e])[..|pieces|] == pieces;
  }

  /** One more write only adds to what was produced. */
  lemma {:induction false} ProducedSnoc<S>(coding: ContentCoding, c: Coder<S>, pieces: seq<Octets>, e: Octets)
    ensures Produced(coding, c, pieces + [e])
         == Produced(coding, c, pieces) + if coding == Identity then e else c.step(After(c, pieces), e).1
    ensures Produced(coding, c, pieces) <= Produced(coding, c, pieces + [e])
  {
    FlattenSnoc(pieces, e);
    OutputSnoc(c, pieces, e);
  }

  /** Beyond the prefix, every emitted piece is one more write. */
  lemma {:induction false} WritesGrow(emits: seq<Octets>, e: Octets)
    requires |Flatten(emits)| > STAGED_PREFIX_BYTES
    ensures Writes(emits + [e]) == Writes(emits) + [e]
    ensures |Flatten(emits + [e])| > STAGED_PREFIX_BYTES
  {
    FlattenSnoc(emits, e);
    StagedGrows([], emits, e);
  }

  /** The piece that overflows the prefix becomes its last part and a first streamed write. */
  lemma {:induction false} WritesOverflow(emits: seq<Octets>, e: Octets)
    requires |Flatten(emits)| <= 8192 < |Flatten(emits)| + |e|
    ensures var room := 8192 - |Flatten(emits)|;
            Writes(emits + [e]) == [Flatten(emits) + e[..room]] + [e[room..]]
    ensures |Flatten(emits + [e])| > STAGED_PREFIX_BYTES
  {
    FlattenSnoc(emits, e);
    StagedOverflows([], emits, e);
    assert [] + Flatten(emits) == Flatten(emits);
  }

  lemma {:induction false} WritesFit(emits: seq<Octets>)
    requires |Flatten(emits)| <= STAGED_PREFIX_BYTES
    ensures Writes(emits) == [Flatten(emits)]
  {
    StagedFits([], emits);
    assert [] + Flatten(emits) == Flatten(emits);
  }

  lemma {:induction false} OneWrite<S>(c: Coder<S>, prefix: Octets)
    ensures Flatten([prefix]) == prefix
    ensures Output(c, [prefix]) == c.step(c.start, prefix).1 && After(c, [prefix]) == c.step(c.start, prefix).0
  {
    FlattenOne(prefix);
    OutputSnoc(c, [], prefix);
    assert [] + [prefix] == [prefix];
  }

  // ----- the channel to the response body -----

  datatype Item = Data(bytes: Octets) | Aborted

  function Delivered(items: seq<Item>): Octets {
    if items == [] then []
    else Delivered(items[..|items| - 1])
         + match items[|items| - 1] case Data(bytes) => bytes case Aborted => []
  }

  /** Only data, in chunks of the bounded size. */
  predicate Chunks(items: seq<Item>) {
    forall i :: 0 <= i < |items| ==> items[i].Data? && 0 < |items[i].bytes| <= BODY_CHUNK_BYTES
  }

  /** No chunk is empty or longer than 8 KiB. */
  predicate SmallChunks(items: seq<Item>) {
    forall i :: 0 <= i < |items| && items[i].Data? ==> 0 < |items[i].bytes| <= 8192
  }

  predicate FullChunks(items: seq<Item>) {
    forall i :: 0 <= i < |items| ==> items[i].Data? && |items[i].bytes| == BODY_CHUNK_BYTES
  }

  lemma {:induction false} DeliveredSnoc(items: seq<Item>, bytes: Octets)
    ensures Delivered(items + [Data(bytes)]) == Delivered(items) + bytes
    ensures Delivered(items + [Aborted]) == Delivered(items)
  {
    assert (items + [Data(bytes)])[..|items|] == items;
    assert (items + [Aborted])[..|items|] == items;
  }

  /** `patient` receivers never disconnect; any other may at any moment. Nothing is read from the
      channel before the head arrives, so until then a send beyond the capacity would never return. */
  class Body {
    const patient: bool
    var open: bool
    var items: seq<Item>
    ghost var read: bool

    predicate Valid()
      reads this
    {
      patient ==> open
    }

    constructor (patient: bool)
      ensures Valid() && this.patient == patient && items == [] && !read
    {
      this.patient, open, items, read := patient, true, [], false;
    }

    method BlockingSend(item: Item) returns (ok: bool)
      requires Valid() && (read || |items| < BODY_CHANNEL_CAPACITY)
      modifies this
      ensures Valid() && read == old(read)
      ensures items == if ok then old(items) + [item] else old(items)
      ensures patient ==> ok
      ensures !ok ==> !open
    {
      var gone: bool := *;
      if gone && !patient { open := false; }
      ok := open;
      if ok { items := items + [item]; }
    }

    method IsClosed() returns (closed: bool)
      requires Valid()
      modifies this
      ensures Valid() && read == old(read) && items == old(items) && closed == !open
      ensures !old(open) ==> !open
    {
      var gone: bool := *;
      if gone && !patient { open := false; }
      closed := !open;
    }
  }

  method SendIdentity(body: Body, bytes: Octets) returns (ok: bool)
    requires body.Valid() && (body.read || (body.items == [] && |bytes| <= BODY_CHUNK_BYTES))
    modifies body
    ensures body.Valid() && body.read == old(body.read)
    ensures body.patient ==> ok
    ensures !ok ==> !body.open
    ensures old(Chunks(body.items)) ==> Chunks(body.items)
    ensures old(SmallChunks(body.items)) ==> SmallChunks(body.items)
    ensures ok ==> Delivered(body.items) == old(Delivered(body.items)) + bytes
    ensures Delivered(body.items) <= old(Delivered(body.items)) + bytes
  {
    hide Delivered, Chunks;
    var start := 0;
    ghost var before, clean := Delivered(body.items), Chunks(body.items);
    ghost var small := SmallChunks(body.items);
    assert bytes[..0] == [];
    while start < |bytes|
      invariant start <= |bytes|
      invariant body.Valid() && body.read == old(body.read)
      invariant body.read || start == |bytes| || body.items == []
      invariant clean ==> Chunks(body.items)
      invariant small ==> SmallChunks(body.items)
      invariant Delivered(body.items) == before + bytes[..start]
    {
      var end := if start + BODY_CHUNK_BYTES <= |bytes| then start + BODY_CHUNK_BYTES else |bytes|;
      NextChunk(body.items, before, bytes, start, end);
      ok := body.BlockingSend(Data(bytes[start..end]));
      if !ok {
        return;
      }
      start := end;
    }
    assert bytes[..|bytes|] == bytes;
    ok := true;
  }

  lemma {:induction false} NextChunk(items: seq<Item>, before: Octets, bytes: Octets, start: nat, end: nat)
    requires start < end <= |bytes| && end - start <= BODY_CHUNK_BYTES
    requires Delivered(items) == before + bytes[..start]
    ensures var next := items + [Data(bytes[start..end])];
            Delivered(next) == before + bytes[..end] && (Chunks(items) ==> Chunks(next))
    ensures Delivered(items) <= before + bytes
  {
    hide Delivered, Chunks;
    var chunk := bytes[start..end];
    DeliveredSnoc(items, chunk);
    ChunkSent(items, chunk);
    MorePending(before + bytes[..start], [], before, bytes, start, end - start);
    assert [] + chunk == chunk && (before + bytes[..start]) + [] == before + bytes[..start];
    assert before + bytes == (before + bytes[..start]) + bytes[start..];
  }

  /** Collects coder output into full chunks. */
  class ChunkWriter {
    const body: Body
    var bytes: Octets
    var aborted: bool

    predicate Valid()
      reads this, body
    {
      body.Valid() && |bytes| < BODY_CHUNK_BYTES
    }

    constructor (body: Body)
      requires body.Valid()
      ensures Valid() && this.body == body && bytes == [] && !aborted
    {
      this.body, bytes, aborted := body, [], false;
    }

    method Abort()
      requires Valid()
      modifies this
      ensures Valid() && aborted && bytes == []
    {
      bytes, aborted := [], true;
    }

    method SendPending() returns (ok: bool)
      requires body.Valid() && |bytes| <= BODY_CHUNK_BYTES
      requires body.read || bytes == [] || |body.items| < BODY_CHANNEL_CAPACITY
      modifies this, body
      ensures body.Valid() && body.read == old(body.read) && aborted == old(aborted)
      ensures aborted ==> !ok && body.items == old(body.items) && bytes == old(bytes)
      ensures !aborted ==> bytes == [] && (body.patient ==> ok) && (!ok ==> !body.open)
      ensures ok ==> Delivered(body.items) == old(Delivered(body.items) + bytes)
      ensures Delivered(body.items) <= old(Delivered(body.items) + bytes)
      ensures body.items == if ok && old(bytes) != [] then old(body.items) + [Data(old(bytes))] else old(body.items)
    {
      if aborted {
        return false;
      }
      if bytes == [] {
        return true;
      }
      var pending := bytes;
      bytes := [];
      DeliveredSnoc(body.items, pending);
      ok := body.BlockingSend(Data(pending));
    }

    /** Until the head is sent, the queue has room for everything pending. */
    ghost predicate Room(extra: nat)
      reads this, body
    {
      body.read || (FullChunks(body.items)
                    && |Delivered(body.items)| + |bytes| + extra <= BODY_CHUNK_BYTES * BODY_CHANNEL_CAPACITY)
    }

    method Write(input: Octets) returns (ok: bool)
      requires Valid() && Room(|input|)
      modifies this, body
      ensures Valid() && body.read == old(body.read) && aborted == old(aborted)
      ensures aborted ==> !ok && body.items == old(body.items)
      ensures !aborted ==> (body.patient ==> ok) && (!ok ==> !body.open)
      ensures ok ==> Delivered(body.items) + bytes == old(Delivered(body.items) + bytes) + input
      ensures Delivered(body.items) <= old(Delivered(body.items) + bytes) + input
      ensures old(Chunks(body.items)) ==> Chunks(body.items)
      ensures ok ==> body.read || FullChunks(body.items)
    {
      hide Delivered, Chunks, FullChunks;
      if aborted {
        return false;
      }
      var taken := 0;
      ghost var before, clean := Delivered(body.items) + bytes, Chunks(body.items);
      assert input[..0] == [];
      while taken < |input|
        invariant taken <= |input| && |bytes| < BODY_CHUNK_BYTES
        invariant body.Valid() && body.read == old(body.read) && !aborted
        invariant Delivered(body.items) + bytes == before + input[..taken]
        invariant clean ==> Chunks(body.items)
        invariant body.read
               || (FullChunks(body.items) && |before| + |input| <= BODY_CHUNK_BYTES * BODY_CHANNEL_CAPACITY)
        decreases |input| - taken
      {
        var room := BODY_CHUNK_BYTES - |bytes|;
        var take := if room < |input| - taken then room else |input| - taken;
        MorePending(Delivered(body.items), bytes, before, input, taken, take);
        bytes := bytes + input[taken..taken + take];
        taken := taken + take;
        if |bytes| == BODY_CHUNK_BYTES {
          FullSize(body.items);
          ChunkSent(body.items, bytes);
          ok := SendPending();
          if !ok {
            return;
          }
        }
      }
      assert input[..taken] == input;
      ok := true;
    }

    method Finish() returns (ok: bool)
      requires Valid() && Room(0)
      modifies this, body
      ensures body.Valid() && body.read == old(body.read)
      ensures old(aborted) ==> !ok && body.items == old(body.items)
      ensures !old(aborted) ==> (body.patient ==> ok) && (!ok ==> !body.open)
      ensures ok ==> Delivered(body.items) == old(Delivered(body.items) + bytes)
      ensures Delivered(body.items) <= old(Delivered(body.items) + bytes)
      ensures old(Chunks(body.items)) ==> Chunks(body.items)
    {
      FullSize(body.items);
      ChunkSent(body.items, bytes);
      ok := SendPending();
    }
  }

  lemma {:induction false} FullSize(items: seq<Item>)
    ensures FullChunks(items) ==> |Delivered(items)| == BODY_CHUNK_BYTES * |items|
  {
    if items != [] && FullChunks(items) { FullSize(items[..|items| - 1]); }
  }

  lemma {:induction false} MorePending(delivered: Octets, bytes: Octets, before: Octets, input: Octets, taken: nat,
                                       take: nat)
    requires taken + take <= |input| && delivered + bytes == before + input[..taken]
    ensures delivered + (bytes + input[taken..taken + take]) == before + input[..taken + take]
    ensures before + input[..taken + take] <= before + input
  {
    assert input[..taken + take] == input[..taken] + input[taken..taken + take];
    assert delivered + (bytes + input[taken..taken + take]) == (delivered + bytes) + input[taken..taken + take];
    assert before + input == (before + input[..taken + take]) + input[taken + take..];
  }

  lemma {:induction false} ChunkSent(items: seq<Item>, bytes: Octets)
    ensures Chunks(items) && 0 < |bytes| <= BODY_CHUNK_BYTES ==> Chunks(items + [Data(bytes)])
    ensures FullChunks(items) && |bytes| == BODY_CHUNK_BYTES ==> FullChunks(items + [Data(bytes)])
  {
  }
}
