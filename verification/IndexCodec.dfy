/** The blocks of a derived index (crates/kronika-index/src/series.rs and findings.rs).

    Every block is a header and fixed-width records in canonical order. `Codec` is what the record
    loops of the source have in common; each record kind below is one codec. */
module IndexCodec {
  import opened Machine
  import opened Bytes

  datatype Error = Truncated | BadMagic | BadChecksum | BadLayout | TooLarge

  datatype Result<+T> = Ok(value: T) | Err(error: Error)

  // ----- records -----

  datatype Codec<!T> = Codec(
    width: nat, valid: T -> bool, inOrder: (T, T) -> bool, put: T -> seq<byte>, get: seq<byte> -> Result<T>)

  /** Writing a valid record and reading it gives the record. */
  ghost predicate ReadsBack<T(!new)>(c: Codec<T>) {
    c.width > 0
    && forall t :: c.valid(t) ==> |c.put(t)| == c.width && c.get(c.put(t)) == Ok(t)
  }

  /** Only valid records are read. */
  ghost predicate ReadsValid<T(!new)>(c: Codec<T>) {
    forall raw :: |raw| == c.width && c.get(raw).Ok? ==> c.valid(c.get(raw).value)
  }

  /** Reading these bytes and writing the record gives the bytes. */
  ghost predicate WritesBack<T(!new)>(c: Codec<T>, raw: seq<byte>) {
    |raw| == c.width && c.get(raw).Ok? ==> c.put(c.get(raw).value) == raw
  }

  function Written<T>(c: Codec<T>, items: seq<T>): seq<byte> {
    if items == [] then [] else Written(c, items[..|items| - 1]) + c.put(items[|items| - 1])
  }

  predicate Follows<T>(c: Codec<T>, items: seq<T>, i: nat)
    requires i < |items|
  {
    c.valid(items[i]) && (i > 0 ==> c.inOrder(items[i - 1], items[i]))
  }

  predicate Canonical<T>(c: Codec<T>, items: seq<T>) {
    forall i :: 0 <= i < |items| ==> Follows(c, items, i)
  }

  /** The first `n` records of `body`, each readable and in order. */
  function Read<T>(c: Codec<T>, body: seq<byte>, n: nat): Result<seq<T>>
    requires |body| >= c.width * n
    decreases n
  {
    if n == 0 then Ok([])
    else
      RecordFits(c.width, n, |body|);
      match Read(c, body, n - 1)
      case Err(e) => Err(e)
      case Ok(items) =>
        match c.get(body[c.width * (n - 1)..c.width * n])
        case Err(_) => Err(BadLayout)
        case Ok(item) =>
          if n > 1 && |items| == n - 1 && !c.inOrder(items[n - 2], item) then Err(BadLayout) else Ok(items + [item])
  }

  lemma {:induction false} RecordFits(width: nat, n: nat, len: nat)
    requires n > 0 && len >= width * n
    ensures 0 <= width * (n - 1) <= width * n <= len && width * n - width * (n - 1) == width
  {
    assert width * n == width * (n - 1) + width;
  }

  lemma {:induction false} ReadCount<T>(c: Codec<T>, body: seq<byte>, n: nat)
    requires |body| >= c.width * n
    ensures Read(c, body, n).Ok? ==> |Read(c, body, n).value| == n
  {
    if n == 0 {
    } else {
      RecordFits(c.width, n, |body|);
      ReadCount(c, body, n - 1);
    }
  }

  // ----- the record loops -----

  method WriteRecords<T>(c: Codec<T>, header: seq<byte>, items: seq<T>) returns (written: Result<seq<byte>>)
    ensures written == if Canonical(c, items) then Ok(header + Written(c, items)) else Err(BadLayout)
  {
    var out := header;
    assert items[..0] == [] && header + [] == header;
    for i := 0 to |items|
      invariant forall k :: 0 <= k < i ==> Follows(c, items, k)
      invariant out == header + Written(c, items[..i])
    {
      if !c.valid(items[i]) || (i > 0 && !c.inOrder(items[i - 1], items[i])) {
        assert !Follows(c, items, i);
        return Err(BadLayout);
      }
      assert items[..i + 1][..i] == items[..i];
      assert Written(c, items[..i + 1]) == Written(c, items[..i]) + c.put(items[i]);
      out := out + c.put(items[i]);
    }
    assert items[..|items|] == items;
    return Ok(out);
  }

  method ReadRecords<T>(c: Codec<T>, body: seq<byte>, count: nat) returns (read: Result<seq<T>>)
    requires |body| == c.width * count
    ensures read == Read(c, body, count)
  {
    var items: seq<T> := [];
    Monotone(c.width, 0, count);
    for i := 0 to count
      invariant |body| >= c.width * i
      invariant Read(c, body, i) == Ok(items) && |items| == i
    {
      Monotone(c.width, i + 1, count);
      RecordFits(c.width, i + 1, |body|);
      match c.get(body[c.width * i..c.width * (i + 1)]) {
        case Err(_) =>
          Stays(c, body, i + 1, count);
          return Err(BadLayout);
        case Ok(item) =>
          if i > 0 && !c.inOrder(items[i - 1], item) {
            Stays(c, body, i + 1, count);
            return Err(BadLayout);
          }
          items := items + [item];
      }
    }
    return Ok(items);
  }

  lemma {:induction false} Monotone(width: nat, a: nat, b: nat)
    requires a <= b
    ensures width * a <= width * b
  {
  }

  lemma {:induction false} Stays<T>(c: Codec<T>, body: seq<byte>, k: nat, n: nat)
    requires k <= n && |body| >= c.width * n && |body| >= c.width * k
    requires Read(c, body, k).Err?
    ensures Read(c, body, n) == Read(c, body, k)
    decreases n
  {
    if k >= n {
    } else {
      RecordFits(c.width, n, |body|);
      Stays(c, body, k, n - 1);
    }
  }

  // ----- round trips of record sequences -----

  lemma {:induction false} WrittenLen<T(!new)>(c: Codec<T>, items: seq<T>)
    requires ReadsBack(c) && Canonical(c, items)
    ensures |Written(c, items)| == c.width * |items|
  {
    if items == [] {
    } else {
      var init, n := items[..|items| - 1], |items| - 1;
      CanonicalPrefix(c, items, n);
      WrittenLen(c, init);
      assert Follows(c, items, n);
      assert c.width * (n + 1) == c.width * n + c.width;
    }
  }

  lemma {:induction false} CanonicalPrefix<T>(c: Codec<T>, items: seq<T>, n: nat)
    requires n <= |items| && Canonical(c, items)
    ensures Canonical(c, items[..n])
  {
    forall i | 0 <= i < n
      ensures Follows(c, items[..n], i)
    {
      assert Follows(c, items, i);
    }
  }

  lemma {:induction false} ReadWritten<T(!new)>(c: Codec<T>, items: seq<T>, tail: seq<byte>)
    requires ReadsBack(c) && Canonical(c, items)
    ensures |Written(c, items) + tail| >= c.width * |items|
    ensures Read(c, Written(c, items) + tail, |items|) == Ok(items)
  {
    WrittenLen(c, items);
    if items == [] {
    } else {
      var init, n, last := items[..|items| - 1], |items| - 1, items[|items| - 1];
      CanonicalPrefix(c, items, n);
      WrittenLen(c, init);
      assert Follows(c, items, n);
      ReadWritten(c, init, c.put(last) + tail);
      var body := Written(c, items) + tail;
      assert body == Written(c, init) + (c.put(last) + tail);
      RecordFits(c.width, n + 1, |body|);
      assert body[c.width * n..c.width * (n + 1)] == c.put(last);
      assert init + [last] == items;
    }
  }

  lemma {:induction false} ReadIsCanonical<T(!new)>(c: Codec<T>, body: seq<byte>, n: nat)
    requires ReadsValid(c) && |body| >= c.width * n && Read(c, body, n).Ok?
    ensures Canonical(c, Read(c, body, n).value)
  {
    if n == 0 {
    } else {
      RecordFits(c.width, n, |body|);
      ReadIsCanonical(c, body, n - 1);
      ReadCount(c, body, n - 1);
      var init, items := Read(c, body, n - 1).value, Read(c, body, n).value;
      forall i | 0 <= i < |items|
        ensures Follows(c, items, i)
      {
        if i < n - 1 { assert Follows(c, init, i); }
      }
    }
  }

  /** Record `i` of a body. */
  function Record(width: nat, body: seq<byte>, i: nat): seq<byte> {
    if width * i <= width * (i + 1) <= |body| then body[width * i..width * (i + 1)] else []
  }

  ghost predicate AllWriteBack<T(!new)>(c: Codec<T>, body: seq<byte>, n: nat) {
    forall i :: 0 <= i < n ==> WritesBack(c, Record(c.width, body, i))
  }

  /** What was read writes back to the same bytes exactly when every record does. */
  lemma {:induction false} WrittenRead<T(!new)>(c: Codec<T>, body: seq<byte>, n: nat)
    requires ReadsBack(c) && ReadsValid(c) && |body| >= c.width * n && Read(c, body, n).Ok?
    ensures |Written(c, Read(c, body, n).value)| == c.width * n
    ensures Written(c, Read(c, body, n).value) == body[..c.width * n] <==> AllWriteBack(c, body, n)
  {
    hide ReadsBack, ReadsValid, WritesBack;
    if n == 0 {
      assert body[..c.width * 0] == [];
    } else {
      RecordFits(c.width, n, |body|);
      WrittenRead(c, body, n - 1);
      WrittenReadStep(c, body, n);
    }
  }

  lemma {:induction false} WrittenReadStep<T(!new)>(c: Codec<T>, body: seq<byte>, n: nat)
    requires n > 0 && 0 <= c.width * (n - 1) <= c.width * n <= |body| && c.width * n - c.width * (n - 1) == c.width
    requires ReadsBack(c) && ReadsValid(c) && Read(c, body, n).Ok?
    requires |Written(c, Read(c, body, n - 1).value)| == c.width * (n - 1)
    ensures var init, raw := Written(c, Read(c, body, n - 1).value), Record(c.width, body, n - 1);
            |Written(c, Read(c, body, n).value)| == c.width * n
            && (Written(c, Read(c, body, n).value) == body[..c.width * n]
                <==> init == body[..c.width * (n - 1)] && WritesBack(c, raw))
  {
    hide Written, ReadsBack;
    ReadCount(c, body, n - 1);
    var items, raw := Read(c, body, n - 1).value, Record(c.width, body, n - 1);
    var item := c.get(raw).value;
    assert c.valid(item);
    PutLen(c, item);
    assert Read(c, body, n).value == items + [item];
    WrittenSnoc(c, items, item);
    assert body[..c.width * n] == body[..c.width * (n - 1)] + raw;
    SplitEqual(Written(c, items), c.put(item), body[..c.width * (n - 1)], raw);
  }

  lemma {:induction false} WrittenSnoc<T>(c: Codec<T>, items: seq<T>, item: T)
    ensures Written(c, items + [item]) == Written(c, items) + c.put(item)
  {
    assert (items + [item])[..|items|] == items;
  }

  lemma {:induction false} SplitEqual(a: seq<byte>, b: seq<byte>, x: seq<byte>, y: seq<byte>)
    requires |a| == |x|
    ensures a + b == x + y <==> a == x && b == y
  {
    if a + b == x + y {
      assert a == (a + b)[..|a|] && b == (a + b)[|a|..];
      assert x == (x + y)[..|x|] && y == (x + y)[|x|..];
    }
  }

  /** A whole body of readable records reads as canonical records, and is their writing exactly when
      every record writes back. */
  lemma {:induction false} RecordsCanonical<T(!new)>(c: Codec<T>, body: seq<byte>, n: nat)
    requires ReadsBack(c) && ReadsValid(c) && |body| == c.width * n && Read(c, body, n).Ok?
    ensures var items := Read(c, body, n).value;
            |items| == n && Canonical(c, items) && (Written(c, items) == body <==> AllWriteBack(c, body, n))
  {
    ReadCount(c, body, n);
    ReadIsCanonical(c, body, n);
    WrittenRead(c, body, n);
    assert body[..c.width * n] == body;
  }

  // ----- counted blocks -----

  function EncodeCounted<T>(c: Codec<T>, items: seq<T>): Result<seq<byte>> {
    if |items| > U32_MAX then Err(TooLarge)
    else if !Canonical(c, items) then Err(BadLayout)
    else Ok(U32(|items|) + Written(c, items))
  }

  function DecodeCounted<T>(c: Codec<T>, bytes: seq<byte>): Result<seq<T>> {
    if |bytes| < 4 then Err(Truncated)
    else
      var count := U32At(bytes, 0);
      if |bytes| != 4 + c.width * count then Err(BadLayout) else Read(c, bytes[4..], count)
  }

  method EncodeCountedBlock<T>(c: Codec<T>, items: seq<T>) returns (encoded: Result<seq<byte>>)
    ensures encoded == EncodeCounted(c, items)
  {
    if |items| > U32_MAX {
      return Err(TooLarge);
    }
    encoded := WriteRecords(c, U32(|items|), items);
  }

  method DecodeCountedBlock<T>(c: Codec<T>, bytes: seq<byte>) returns (decoded: Result<seq<T>>)
    ensures decoded == DecodeCounted(c, bytes)
  {
    if |bytes| < 4 {
      return Err(Truncated);
    }
    var count := U32At(bytes, 0);
    if |bytes| != 4 + c.width * count {
      return Err(BadLayout);
    }
    decoded := ReadRecords(c, bytes[4..], count);
  }

  /** A body without its count is truncated; any other refusal is of its layout. */
  lemma {:induction false} CountedRefusals<T(!new)>(c: Codec<T>, bytes: seq<byte>)
    requires DecodeCounted(c, bytes).Err?
    ensures DecodeCounted(c, bytes).error == if |bytes| < 4 then Truncated else BadLayout
  {
    if |bytes| >= 4 && |bytes| == 4 + c.width * U32At(bytes, 0) { ReadErrors(c, bytes[4..], U32At(bytes, 0)); }
  }

  lemma {:induction false} ReadErrors<T(!new)>(c: Codec<T>, body: seq<byte>, n: nat)
    requires |body| >= c.width * n
    ensures Read(c, body, n).Err? ==> Read(c, body, n).error == BadLayout
  {
    if n == 0 {
    } else {
      RecordFits(c.width, n, |body|);
      ReadErrors(c, body, n - 1);
    }
  }

  lemma {:induction false} CountedRoundTrip<T(!new)>(c: Codec<T>, items: seq<T>)
    requires ReadsBack(c) && EncodeCounted(c, items).Ok?
    ensures DecodeCounted(c, EncodeCounted(c, items).value) == Ok(items)
  {
    var bytes := EncodeCounted(c, items).value;
    WrittenLen(c, items);
    ReadWritten(c, items, []);
    U32RoundTrip(|items|, bytes, 0);
    assert bytes[4..] == Written(c, items) + [];
  }

  /** An accepted block is the encoding of what it decodes to exactly when its records write back. */
  lemma {:induction false} CountedCanonical<T(!new)>(c: Codec<T>, bytes: seq<byte>)
    requires ReadsBack(c) && ReadsValid(c) && DecodeCounted(c, bytes).Ok?
    ensures EncodeCounted(c, DecodeCounted(c, bytes).value) == Ok(bytes)
       <==> AllWriteBack(c, bytes[4..], U32At(bytes, 0))
  {
    hide AllWriteBack, Read, ReadsBack, ReadsValid, Canonical;
    var count, items := U32At(bytes, 0), DecodeCounted(c, bytes).value;
    RecordsCanonical(c, bytes[4..], count);
    FieldsCanonical(bytes, 0);
    assert bytes[0..4] + bytes[4..] == bytes;
    SplitEqual(U32(count), Written(c, items), bytes[0..4], bytes[4..]);
  }

  /** A block is its count and its records, one after the other. */
  lemma {:induction false} BlockLayout<T(!new)>(c: Codec<T>, items: seq<T>)
    requires ReadsBack(c) && EncodeCounted(c, items).Ok?
    ensures var bytes := EncodeCounted(c, items).value;
            && |bytes| == 4 + c.width * |items| && U32At(bytes, 0) == |items|
            && forall i :: 0 <= i < |items| ==> Record(c.width, bytes[4..], i) == c.put(items[i])
  {
    hide ReadsBack, Written, Record;
    var bytes := EncodeCounted(c, items).value;
    WrittenLen(c, items);
    U32RoundTrip(|items|, bytes, 0);
    assert bytes[4..] == Written(c, items);
    forall i | 0 <= i < |items|
      ensures Record(c.width, Written(c, items), i) == c.put(items[i])
    {
      WrittenRecord(c, items, i);
    }
  }

  lemma {:induction false} WrittenRecord<T(!new)>(c: Codec<T>, items: seq<T>, i: nat)
    requires ReadsBack(c) && Canonical(c, items) && i < |items|
    ensures Record(c.width, Written(c, items), i) == c.put(items[i])
  {
    hide Record, ReadsBack;
    var n := |items| - 1;
    CanonicalPrefix(c, items, n);
    WrittenLen(c, items[..n]);
    assert Follows(c, items, n);
    PutLen(c, items[n]);
    WrittenLen(c, items);
    RecordFits(c.width, n + 1, |Written(c, items)|);
    Monotone(c.width, i + 1, n + 1);
    assert Written(c, items) == Written(c, items[..n]) + c.put(items[n]);
    if i == n {
      RecordAtEnd(c.width, Written(c, items[..n]), c.put(items[n]), n);
    } else {
      Monotone(c.width, i + 1, n);
      Monotone(c.width, i, i + 1);
      WrittenRecord(c, items[..n], i);
      RecordOfPrefix(c.width, Written(c, items[..n]), c.put(items[n]), i);
    }
  }

  lemma {:induction false} PutLen<T(!new)>(c: Codec<T>, item: T)
    requires ReadsBack(c) && c.valid(item)
    ensures |c.put(item)| == c.width
  {
  }

  lemma {:induction false} RecordAtEnd(width: nat, a: seq<byte>, b: seq<byte>, n: nat)
    requires |a| == width * n && |b| == width && width * (n + 1) == width * n + width
    ensures Record(width, a + b, n) == b
  {
  }

  lemma {:induction false} RecordOfPrefix(width: nat, a: seq<byte>, b: seq<byte>, i: nat)
    requires width * i <= width * (i + 1) <= |a|
    ensures Record(width, a + b, i) == Record(width, a, i)
  {
  }

  // ----- health points -----

  datatype HealthPoint = HealthPoint(timestamp: i64, value: Option<u8>)

  function PutHealth(p: HealthPoint): seq<byte> {
    I64(p.timestamp) + (match p.value case Some(v) => [1, v] case None => [0, 0])
  }

  function GetHealth(raw: seq<byte>): Result<HealthPoint> {
    if |raw| != 10 then Err(BadLayout)
    else if raw[8] == 0 && raw[9] == 0 then Ok(HealthPoint(I64At(raw, 0), None))
    else if raw[8] == 1 && raw[9] <= 100 then Ok(HealthPoint(I64At(raw, 0), Some(raw[9])))
    else Err(BadLayout)
  }

  function Health(): Codec<HealthPoint> {
    Codec(10, (p: HealthPoint) => p.value.Some? ==> p.value.value <= 100,
          (a: HealthPoint, b: HealthPoint) => a.timestamp <= b.timestamp, PutHealth, GetHealth)
  }

  lemma {:induction false} HealthLaws()
    ensures ReadsBack(Health()) && ReadsValid(Health())
    ensures forall raw :: WritesBack(Health(), raw)
  {
    forall p: HealthPoint
      ensures Health().valid(p) ==> GetHealth(PutHealth(p)) == Ok(p)
    {
      I64RoundTrip(p.timestamp, PutHealth(p), 0);
    }
    forall raw
      ensures WritesBack(Health(), raw)
    {
      if |raw| == 10 && GetHealth(raw).Ok? {
        FieldsCanonical(raw, 0);
        assert raw[0..8] + [raw[8], raw[9]] == raw;
      }
    }
  }

  /** Byte by byte: the timestamp, whether there is a value, and the value. */
  lemma {:induction false} HealthRecord(p: HealthPoint)
    ensures var raw := PutHealth(p);
            && |raw| == 10 && I64At(raw, 0) == p.timestamp
            && (p.value.None? ==> raw[8] == 0 && raw[9] == 0)
            && (p.value.Some? ==> raw[8] == 1 && raw[9] == p.value.value)
  {
    I64RoundTrip(p.timestamp, PutHealth(p), 0);
  }

  /** Which health series can be stored: percentages in time order. */
  lemma {:induction false} HealthBlocks(points: seq<HealthPoint>)
    ensures EncodeCounted(Health(), points).Ok?
       <==> |points| <= 0xffff_ffff
            && (forall i :: 0 <= i < |points| && points[i].value.Some? ==> points[i].value.value <= 100)
            && (forall i :: 0 < i < |points| ==> points[i - 1].timestamp <= points[i].timestamp)
  {
    forall i | 0 <= i < |points|
      ensures Follows(Health(), points, i)
         <==> (points[i].value.Some? ==> points[i].value.value <= 100)
              && (i > 0 ==> points[i - 1].timestamp <= points[i].timestamp)
    {
    }
    if Canonical(Health(), points) {
      forall i | 0 <= i < |points|
        ensures (points[i].value.Some? ==> points[i].value.value <= 100)
                  && (i > 0 ==> points[i - 1].timestamp <= points[i].timestamp)
      {
        assert Follows(Health(), points, i);
      }
    }
  }

  // ----- transactions per second -----

  /** A 64-bit float by its bits. */
  const SIGN: nat := 0x8000_0000_0000_0000

  predicate IsZero(bits: u64) { bits == 0 || bits == SIGN }

  predicate IsFinite(bits: u64) { bits / 0x10_0000_0000_0000 % 0x800 != 0x7ff }

  predicate NotNegative(bits: u64) { bits < SIGN || IsZero(bits) }

  datatype TransactionPoint = TransactionPoint(timestamp: i64, datid: u32, value: Option<u64>)

  function PutTransaction(p: TransactionPoint): seq<byte> {
    I64(p.timestamp) + U32(p.datid)
    + (match p.value case Some(bits) => [1] + U64(bits) case None => [0] + U64(0))
  }

  function GetTransaction(raw: seq<byte>): Result<TransactionPoint> {
    if |raw| != 21 then Err(BadLayout)
    else
      var bits := U64At(raw, 13);
      if raw[12] == 0 && IsZero(bits) then Ok(TransactionPoint(I64At(raw, 0), U32At(raw, 8), None))
      else if raw[12] == 1 && IsFinite(bits) && NotNegative(bits) then
        Ok(TransactionPoint(I64At(raw, 0), U32At(raw, 8), Some(bits)))
      else Err(BadLayout)
  }

  function Transactions(): Codec<TransactionPoint> {
    Codec(21, (p: TransactionPoint) => p.value.Some? ==> IsFinite(p.value.value) && NotNegative(p.value.value),
          (a: TransactionPoint, b: TransactionPoint) =>
            a.datid < b.datid || (a.datid == b.datid && a.timestamp <= b.timestamp),
          PutTransaction, GetTransaction)
  }

  lemma {:induction false} TransactionLaws()
    ensures ReadsBack(Transactions()) && ReadsValid(Transactions())
  {
    forall p: TransactionPoint
      ensures |PutTransaction(p)| == 21
      ensures Transactions().valid(p) ==> GetTransaction(PutTransaction(p)) == Ok(p)
    {
      TransactionReadsBack(p);
    }
  }

  lemma {:induction false} TransactionReadsBack(p: TransactionPoint)
    ensures |PutTransaction(p)| == 21
    ensures Transactions().valid(p) ==> GetTransaction(PutTransaction(p)) == Ok(p)
  {
    var raw := PutTransaction(p);
    var bits := if p.value.Some? then p.value.value else 0;
    I64RoundTrip(p.timestamp, raw, 0);
    U32RoundTrip(p.datid, raw, 8);
    assert raw[13..21] == U64(bits);
    U64RoundTrip(bits, raw, 13);
  }

  /** A transaction record whose value is absent and stored as the bits of negative zero. */
  predicate AbsentNegativeZero(raw: seq<byte>) { |raw| == 21 && raw[12] == 0 && U64At(raw, 13) == SIGN }

  /** Whether a block of transactions has such a record. */
  predicate HasNegativeZero(bytes: seq<byte>) {
    |bytes| >= 4 && exists i :: 0 <= i < U32At(bytes, 0) && AbsentNegativeZero(Record(21, bytes[4..], i))
  }

  /** An accepted block of transactions is stored canonically exactly when it has no such record. */
  lemma {:induction false} TransactionsCanonical(bytes: seq<byte>)
    requires DecodeCounted(Transactions(), bytes).Ok?
    ensures EncodeCounted(Transactions(), DecodeCounted(Transactions(), bytes).value) == Ok(bytes)
       <==> !HasNegativeZero(bytes)
  {
    hide EncodeCounted, AbsentNegativeZero, WritesBack, Record, ReadsBack, ReadsValid, Read;
    TransactionLaws();
    CountedCanonical(Transactions(), bytes);
    forall i | 0 <= i < U32At(bytes, 0)
      ensures WritesBack(Transactions(), Record(21, bytes[4..], i))
         <==> !AbsentNegativeZero(Record(21, bytes[4..], i))
    {
      NegativeZeroIsLost(Record(21, bytes[4..], i));
    }
  }

  /** A record without a value, stored as negative zero. */
  function NegativeZeroRecord(timestamp: i64, datid: u32): seq<byte> {
    I64(timestamp) + U32(datid) + ([0] + U64(SIGN))
  }

  lemma {:induction false} NegativeZeroReads(timestamp: i64, datid: u32)
    ensures AbsentNegativeZero(NegativeZeroRecord(timestamp, datid))
    ensures GetTransaction(NegativeZeroRecord(timestamp, datid)) == Ok(TransactionPoint(timestamp, datid, None))
  {
    hide IsFinite, U64At, I64At, U32At, I64, U32, U64;
    var raw := NegativeZeroRecord(timestamp, datid);
    assert raw[0..8] == I64(timestamp) && raw[8..12] == U32(datid) && raw[13..21] == U64(SIGN);
    I64RoundTrip(timestamp, raw, 0);
    U32RoundTrip(datid, raw, 8);
    U64RoundTrip(SIGN, raw, 13);
  }

  lemma {:induction false} NegativeZeroBlock(timestamp: i64, datid: u32)
    ensures var block := U32(1) + NegativeZeroRecord(timestamp, datid);
            |block| == 25 && HasNegativeZero(block) && DecodeCounted(Transactions(), block).Ok?
  {
    hide AbsentNegativeZero, GetTransaction, U64, U64At, NegativeZeroRecord;
    var raw := NegativeZeroRecord(timestamp, datid);
    var block := U32(1) + raw;
    NegativeZeroReads(timestamp, datid);
    NegativeZeroLen(timestamp, datid);
    U32RoundTrip(1, block, 0);
    assert block[4..] == raw && Record(21, raw, 0) == raw == raw[0..21];
    assert Read(Transactions(), raw, 0) == Ok([]);
  }

  lemma {:induction false} NegativeZeroLen(timestamp: i64, datid: u32)
    ensures |NegativeZeroRecord(timestamp, datid)| == 21
  {
  }

  lemma {:induction false} NegativeZeroIsLost(raw: seq<byte>)
    ensures WritesBack(Transactions(), raw) <==> !AbsentNegativeZero(raw)
  {
    if |raw| == 21 && GetTransaction(raw).Ok? { TransactionWritesBack(raw); }
  }

  /** Exactly one family of accepted records does not write back: an absent value stored as the
      bits of negative zero. */
  lemma {:induction false} TransactionWritesBack(raw: seq<byte>)
    requires |raw| == 21 && GetTransaction(raw).Ok?
    ensures PutTransaction(GetTransaction(raw).value) == raw <==> !AbsentNegativeZero(raw)
  {
    hide IsFinite, U64At, I64At, U32At, I64, U32, U64;
    var p, bits := GetTransaction(raw).value, U64At(raw, 13);
    TransactionBytes(raw);
    assert PutTransaction(p) == raw[..13] + U64(if raw[12] == 1 then bits else 0);
    if raw[12] == 0 && bits == SIGN {
      SignIsNotZero();
      assert PutTransaction(p)[13..] == U64(0) && raw[13..] == U64(SIGN);
    }
  }

  lemma {:induction false} TransactionBytes(raw: seq<byte>)
    requires |raw| == 21
    ensures raw == raw[..13] + U64(U64At(raw, 13))
    ensures raw[..13] == I64(I64At(raw, 0)) + U32(U32At(raw, 8)) + [raw[12]]
    ensures raw[13..] == U64(U64At(raw, 13))
  {
    hide I64, U32, U64, I64At, U32At, U64At;
    FieldsCanonical(raw, 0);
    FieldsCanonical(raw, 8);
    FieldsCanonical(raw, 13);
    assert raw[13..21] == raw[13..];
    assert raw[..13] == raw[0..8] + raw[8..12] + [raw[12]];
  }

  lemma {:induction false} SignIsNotZero()
    ensures U64(SIGN) != U64(0)
  {
    U64RoundTrip(SIGN, U64(SIGN), 0);
    U64RoundTrip(0, U64(0), 0);
  }

  lemma {:induction false} TransactionRecord(p: TransactionPoint)
    ensures var raw := PutTransaction(p);
            && |raw| == 21 && I64At(raw, 0) == p.timestamp && U32At(raw, 8) == p.datid
            && (p.value.None? ==> raw[12] == 0 && U64At(raw, 13) == 0)
            && (p.value.Some? ==> raw[12] == 1 && U64At(raw, 13) == p.value.value)
  {
    hide I64, U32, U64, I64At, U32At, U64At;
    var raw := PutTransaction(p);
    var bits := if p.value.Some? then p.value.value else 0;
    assert raw[0..8] == I64(p.timestamp) && raw[8..12] == U32(p.datid) && raw[13..21] == U64(bits);
    I64RoundTrip(p.timestamp, raw, 0);
    U32RoundTrip(p.datid, raw, 8);
    U64RoundTrip(bits, raw, 13);
  }

  /** The bits of finite floats that are not negative: below infinity, or negative zero. */
  predicate StorableRate(bits: u64) { bits < 0x7ff0_0000_0000_0000 || bits == 0x8000_0000_0000_0000 }

  lemma {:induction false} RatesAreFinite(bits: u64)
    ensures StorableRate(bits) <==> IsFinite(bits) && NotNegative(bits)
  {
    var top := bits / 0x10_0000_0000_0000;
    if bits < SIGN {
      assert top < 0x800 && top % 0x800 == top;
    } else if bits == SIGN {
      assert top == 0x800;
    }
  }

  predicate FollowsRate(points: seq<TransactionPoint>, i: nat)
    requires i < |points|
  {
    && (points[i].value.Some? ==> StorableRate(points[i].value.value))
    && (i > 0 ==> points[i - 1].datid < points[i].datid
                  || (points[i - 1].datid == points[i].datid && points[i - 1].timestamp <= points[i].timestamp))
  }

  /** Which transaction series can be stored: finite rates, by database and then by time. */
  lemma {:induction false} TransactionBlocks(points: seq<TransactionPoint>)
    ensures EncodeCounted(Transactions(), points).Ok?
       <==> |points| <= 0xffff_ffff
            && forall i :: 0 <= i < |points| ==> FollowsRate(points, i)
  {
    hide StorableRate, IsFinite, NotNegative;
    forall bits: u64
      ensures StorableRate(bits) <==> IsFinite(bits) && NotNegative(bits)
    {
      RatesAreFinite(bits);
    }
    forall i | 0 <= i < |points|
      ensures Follows(Transactions(), points, i) <==> FollowsRate(points, i)
    {
    }
    if Canonical(Transactions(), points) {
      forall i | 0 <= i < |points|
        ensures FollowsRate(points, i)
      {
        assert Follows(Transactions(), points, i);
      }
    }
  }

  // ----- counts -----

  datatype CountPoint = CountPoint(timestamp: i64, count: u32)

  function PutCount(p: CountPoint): seq<byte> { I64(p.timestamp) + U32(p.count) }

  function GetCount(raw: seq<byte>): Result<CountPoint> {
    if |raw| != 12 then Err(BadLayout) else Ok(CountPoint(I64At(raw, 0), U32At(raw, 8)))
  }

  function Counts(): Codec<CountPoint> {
    Codec(12, (p: CountPoint) => true, (a: CountPoint, b: CountPoint) => a.timestamp <= b.timestamp, PutCount, GetCount)
  }

  lemma {:induction false} CountLaws()
    ensures ReadsBack(Counts()) && ReadsValid(Counts())
    ensures forall raw :: WritesBack(Counts(), raw)
  {
    forall p: CountPoint
      ensures GetCount(PutCount(p)) == Ok(p)
    {
      I64RoundTrip(p.timestamp, PutCount(p), 0);
      U32RoundTrip(p.count, PutCount(p), 8);
    }
    forall raw
      ensures WritesBack(Counts(), raw)
    {
      if |raw| == 12 {
        FieldsCanonical(raw, 0);
        FieldsCanonical(raw, 8);
        assert raw[0..8] + raw[8..12] == raw;
      }
    }
  }

  lemma {:induction false} CountRecord(p: CountPoint)
    ensures var raw := PutCount(p);
            |raw| == 12 && I64At(raw, 0) == p.timestamp && U32At(raw, 8) == p.count
  {
    I64RoundTrip(p.timestamp, PutCount(p), 0);
    U32RoundTrip(p.count, PutCount(p), 8);
  }

  /** Which count series can be stored: those in time order. */
  lemma {:induction false} CountBlocks(points: seq<CountPoint>)
    ensures EncodeCounted(Counts(), points).Ok?
       <==> |points| <= 0xffff_ffff
            && forall i :: 0 < i < |points| ==> points[i - 1].timestamp <= points[i].timestamp
  {
    forall i | 0 <= i < |points|
      ensures Follows(Counts(), points, i) <==> (i > 0 ==> points[i - 1].timestamp <= points[i].timestamp)
    {
    }
    if Canonical(Counts(), points) {
      forall i | 0 <= i < |points|
        ensures (i > 0 ==> points[i - 1].timestamp <= points[i].timestamp)
      {
        assert Follows(Counts(), points, i);
      }
    }
  }

  // ----- findings -----

  const MAX_FINDINGS_PER_BLOCK: nat := 4_096
  const PG_LOG_ERRORS_TYPE_ID: u32 := 2_001_001
  const MAX_LOG_ERROR_CATEGORY: u8 := 10
  const NO_CATEGORY: u8 := 255
  const FINDING_HEADER_LEN: nat := 9

  datatype FindingKind = KnownBad | Spike | Event {
    function Raw(): u8 { match this case KnownBad => 1 case Spike => 2 case Event => 3 }
  }

  function FindingKindFromRaw(raw: u8): Result<FindingKind> {
    match raw case 1 => Ok(KnownBad) case 2 => Ok(Spike) case 3 => Ok(Event) case _ => Err(BadLayout)
  }

  datatype Finding = Finding(
    kind: FindingKind, fieldOrdinal: u16, rowOrdinal: u32, timestamp: i64, category: Option<u8>)

  datatype FindingBlock = FindingBlock(typeId: u32, totalHits: u32, truncated: bool, findings: seq<Finding>)

  /** Strictly increasing (timestamp, row, field, kind). */
  predicate FindingBefore(a: Finding, b: Finding) {
    a.timestamp < b.timestamp
    || (a.timestamp == b.timestamp
        && (a.rowOrdinal < b.rowOrdinal
            || (a.rowOrdinal == b.rowOrdinal
                && (a.fieldOrdinal < b.fieldOrdinal
                    || (a.fieldOrdinal == b.fieldOrdinal && a.kind.Raw() < b.kind.Raw())))))
  }

  predicate ValidFinding(typeId: u32, f: Finding) {
    if typeId == PG_LOG_ERRORS_TYPE_ID then f.category.Some? && f.category.value <= MAX_LOG_ERROR_CATEGORY
    else f.category.None?
  }

  function FindingLen(typeId: u32): nat { if typeId == PG_LOG_ERRORS_TYPE_ID then 16 else 15 }

  function PutFinding(typeId: u32, f: Finding): seq<byte> {
    [f.kind.Raw()] + U16(f.fieldOrdinal) + U32(f.rowOrdinal) + I64(f.timestamp)
    + (if typeId == PG_LOG_ERRORS_TYPE_ID then [if f.category.Some? then f.category.value else NO_CATEGORY] else [])
  }

  /** The decoder checks categories after the loop; no record it would reject there survives. */
  function GetFinding(typeId: u32, raw: seq<byte>): Result<Finding> {
    if |raw| != FindingLen(typeId) then Err(BadLayout)
    else match FindingKindFromRaw(raw[0])
         case Err(e) => Err(e)
         case Ok(kind) =>
           var category :=
             if typeId == PG_LOG_ERRORS_TYPE_ID && raw[15] != NO_CATEGORY then Some(raw[15]) else None;
           var f := Finding(kind, U16At(raw, 1), U32At(raw, 3), I64At(raw, 7), category);
           if ValidFinding(typeId, f) then Ok(f) else Err(BadLayout)
  }

  function Findings(typeId: u32): Codec<Finding> {
    Codec(FindingLen(typeId), (f: Finding) => ValidFinding(typeId, f), FindingBefore,
          (f: Finding) => PutFinding(typeId, f), (raw: seq<byte>) => GetFinding(typeId, raw))
  }

  lemma {:induction false} FindingReadsBack(typeId: u32, f: Finding)
    ensures |PutFinding(typeId, f)| == FindingLen(typeId)
    ensures ValidFinding(typeId, f) ==> GetFinding(typeId, PutFinding(typeId, f)) == Ok(f)
  {
    var raw := PutFinding(typeId, f);
    U16RoundTrip(f.fieldOrdinal, raw, 1);
    U32RoundTrip(f.rowOrdinal, raw, 3);
    assert raw[7..15] == I64(f.timestamp);
    I64RoundTrip(f.timestamp, raw, 7);
  }

  lemma {:induction false} FindingWritesBack(typeId: u32, raw: seq<byte>)
    ensures GetFinding(typeId, raw).Ok? ==> PutFinding(typeId, GetFinding(typeId, raw).value) == raw
  {
    if GetFinding(typeId, raw).Ok? {
      FieldsCanonical(raw, 1);
      FieldsCanonical(raw, 3);
      FieldsCanonical(raw, 7);
      assert raw == [raw[0]] + raw[1..3] + raw[3..7] + raw[7..15] + raw[15..];
    }
  }

  lemma {:induction false} FindingLaws(typeId: u32)
    ensures ReadsBack(Findings(typeId)) && ReadsValid(Findings(typeId))
    ensures forall raw :: WritesBack(Findings(typeId), raw)
  {
    forall f: Finding
      ensures |PutFinding(typeId, f)| == FindingLen(typeId)
      ensures ValidFinding(typeId, f) ==> GetFinding(typeId, PutFinding(typeId, f)) == Ok(f)
    {
      FindingReadsBack(typeId, f);
    }
    forall raw
      ensures WritesBack(Findings(typeId), raw)
    {
      FindingWritesBack(typeId, raw);
    }
  }

  lemma {:induction false} FindingRecord(typeId: u32, f: Finding)
    ensures var raw := PutFinding(typeId, f);
            && raw != [] && raw[0] == (match f.kind case KnownBad => 1 case Spike => 2 case Event => 3)
            && |raw| == (if typeId == 2_001_001 then 16 else 15)
            && U16At(raw, 1) == f.fieldOrdinal && U32At(raw, 3) == f.rowOrdinal && I64At(raw, 7) == f.timestamp
            && (typeId == 2_001_001 ==> raw[15] == if f.category.Some? then f.category.value else 255)
  {
    hide U16, U32, I64, U16At, U32At, I64At;
    var raw := PutFinding(typeId, f);
    assert raw[1..3] == U16(f.fieldOrdinal) && raw[3..7] == U32(f.rowOrdinal) && raw[7..15] == I64(f.timestamp);
    U16RoundTrip(f.fieldOrdinal, raw, 1);
    U32RoundTrip(f.rowOrdinal, raw, 3);
    I64RoundTrip(f.timestamp, raw, 7);
  }

  /** Strictly later: by time, then row, then field, then kind. */
  predicate Later(a: Finding, b: Finding) {
    if a.timestamp != b.timestamp then a.timestamp < b.timestamp
    else if a.rowOrdinal != b.rowOrdinal then a.rowOrdinal < b.rowOrdinal
    else if a.fieldOrdinal != b.fieldOrdinal then a.fieldOrdinal < b.fieldOrdinal
    else (a.kind.KnownBad? && !b.kind.KnownBad?) || (a.kind.Spike? && b.kind.Event?)
  }

  /** Which blocks of findings can be stored: at most 4096, consistent counters, categories exactly
      in error logs and at most 10, strictly in order. */
  lemma {:induction false} FindingBlocks(b: FindingBlock)
    ensures EncodeFindings(b).Ok?
       <==> && |b.findings| <= 4_096 && |b.findings| <= b.totalHits
            && (b.truncated <==> |b.findings| < b.totalHits)
            && (forall i :: 0 <= i < |b.findings| ==>
                  if b.typeId == 2_001_001 then b.findings[i].category.Some? && b.findings[i].category.value <= 10
                  else b.findings[i].category.None?)
            && (forall i :: 0 < i < |b.findings| ==> Later(b.findings[i - 1], b.findings[i]))
  {
    hide Written, FindingHeader, Later, FindingBefore, ValidFinding;
    forall i | 0 <= i < |b.findings|
      ensures ValidFinding(b.typeId, b.findings[i])
         <==> if b.typeId == 2_001_001 then b.findings[i].category.Some? && b.findings[i].category.value <= 10
              else b.findings[i].category.None?
      ensures i > 0 ==> (FindingBefore(b.findings[i - 1], b.findings[i]) <==> Later(b.findings[i - 1], b.findings[i]))
    {
      CategoryRule(b.typeId, b.findings[i]);
      if i > 0 { OrderRule(b.findings[i - 1], b.findings[i]); }
    }
    forall i | 0 <= i < |b.findings|
      ensures Follows(Findings(b.typeId), b.findings, i)
         <==> ValidFinding(b.typeId, b.findings[i]) && (i > 0 ==> FindingBefore(b.findings[i - 1], b.findings[i]))
    {
    }
    if Canonical(Findings(b.typeId), b.findings) {
      forall i | 0 <= i < |b.findings|
        ensures ValidFinding(b.typeId, b.findings[i]) && (i > 0 ==> FindingBefore(b.findings[i - 1], b.findings[i]))
      {
        assert Follows(Findings(b.typeId), b.findings, i);
      }
    }
  }

  lemma {:induction false} CategoryRule(typeId: u32, f: Finding)
    ensures ValidFinding(typeId, f)
       <==> if typeId == 2_001_001 then f.category.Some? && f.category.value <= 10 else f.category.None?
  {
  }

  lemma {:induction false} OrderRule(a: Finding, b: Finding)
    ensures FindingBefore(a, b) <==> Later(a, b)
  {
  }

  /** Nine bytes of header before the records: hits, records, whether some were dropped. */
  lemma {:induction false} FindingBlockLayout(b: FindingBlock)
    requires EncodeFindings(b).Ok?
    ensures var bytes, width := EncodeFindings(b).value, if b.typeId == 2_001_001 then 16 else 15;
            && |bytes| == 9 + width * |b.findings|
            && U32At(bytes, 0) == b.totalHits && U32At(bytes, 4) == |b.findings|
            && bytes[8] == (if b.truncated then 1 else 0)
            && forall i :: 0 <= i < |b.findings| ==>
                 Record(width, bytes[9..], i) == PutFinding(b.typeId, b.findings[i])
  {
    hide Record, Written, ReadsBack, ReadsValid, WritesBack, FindingHeader;
    var c := Findings(b.typeId);
    FindingLaws(b.typeId);
    WrittenLen(c, b.findings);
    FindingHeaderReads(b, Written(c, b.findings));
    forall i | 0 <= i < |b.findings|
      ensures Record(c.width, Written(c, b.findings), i) == PutFinding(b.typeId, b.findings[i])
    {
      WrittenRecord(c, b.findings, i);
    }
  }

  predicate ValidCounters(b: FindingBlock) {
    |b.findings| <= MAX_FINDINGS_PER_BLOCK
    && b.totalHits >= |b.findings|
    && (b.truncated <==> b.totalHits > |b.findings|)
  }

  function FindingHeader(b: FindingBlock): seq<byte>
    requires |b.findings| <= U32_MAX
  {
    U32(b.totalHits) + U32(|b.findings|) + [if b.truncated then 1 else 0]
  }

  function EncodeFindings(b: FindingBlock): Result<seq<byte>> {
    if !ValidCounters(b) || !Canonical(Findings(b.typeId), b.findings) then Err(BadLayout)
    else Ok(FindingHeader(b) + Written(Findings(b.typeId), b.findings))
  }

  function DecodeFindings(typeId: u32, bytes: seq<byte>): Result<FindingBlock> {
    if |bytes| < 8 then Err(Truncated)
    else if |bytes| < FINDING_HEADER_LEN || bytes[8] > 1 then Err(BadLayout)
    else
      var totalHits, count, c := U32At(bytes, 0), U32At(bytes, 4), Findings(typeId);
      if |bytes| != FINDING_HEADER_LEN + c.width * count || count > MAX_FINDINGS_PER_BLOCK then Err(BadLayout)
      else match Read(c, bytes[FINDING_HEADER_LEN..], count)
           case Err(e) => Err(e)
           case Ok(findings) =>
             var b := FindingBlock(typeId, totalHits, bytes[8] == 1, findings);
             if ValidCounters(b) then Ok(b) else Err(BadLayout)
  }

  method EncodeFindingBlock(b: FindingBlock) returns (encoded: Result<seq<byte>>)
    ensures encoded == EncodeFindings(b)
  {
    if !ValidCounters(b) {
      return Err(BadLayout);
    }
    encoded := WriteRecords(Findings(b.typeId), FindingHeader(b), b.findings);
  }

  method DecodeFindingBlock(typeId: u32, bytes: seq<byte>) returns (decoded: Result<FindingBlock>)
    ensures decoded == DecodeFindings(typeId, bytes)
  {
    if |bytes| < 8 {
      return Err(Truncated);
    }
    var totalHits, count := U32At(bytes, 0), U32At(bytes, 4);
    if |bytes| < FINDING_HEADER_LEN || bytes[8] > 1 {
      return Err(BadLayout);
    }
    if |bytes| != FINDING_HEADER_LEN + Findings(typeId).width * count || count > MAX_FINDINGS_PER_BLOCK {
      return Err(BadLayout);
    }
    var read := ReadRecords(Findings(typeId), bytes[FINDING_HEADER_LEN..], count);
    if read.Err? {
      return Err(read.error);
    }
    var b := FindingBlock(typeId, totalHits, bytes[8] == 1, read.value);
    return if ValidCounters(b) then Ok(b) else Err(BadLayout);
  }

  lemma {:induction false} FindingRefusals(typeId: u32, bytes: seq<byte>)
    requires DecodeFindings(typeId, bytes).Err?
    ensures DecodeFindings(typeId, bytes).error == if |bytes| < 8 then Truncated else BadLayout
  {
    hide FindingLen, ValidCounters;
    var c := Findings(typeId);
    if |bytes| >= 9 && |bytes| == 9 + c.width * U32At(bytes, 4) { ReadErrors(c, bytes[9..], U32At(bytes, 4)); }
  }

  lemma {:induction false} FindingsRoundTrip(b: FindingBlock)
    requires EncodeFindings(b).Ok?
    ensures DecodeFindings(b.typeId, EncodeFindings(b).value) == Ok(b)
  {
    hide Read, Canonical, Written, ReadsBack, ReadsValid, WritesBack, FindingHeader;
    var c, bytes := Findings(b.typeId), EncodeFindings(b).value;
    var body := Written(c, b.findings);
    FindingLaws(b.typeId);
    WrittenLen(c, b.findings);
    ReadWritten(c, b.findings, []);
    assert body + [] == body;
    FindingHeaderReads(b, body);
  }

  lemma {:induction false} FindingHeaderReads(b: FindingBlock, body: seq<byte>)
    requires |b.findings| <= U32_MAX
    ensures var bytes := FindingHeader(b) + body;
            |FindingHeader(b)| == FINDING_HEADER_LEN && bytes[FINDING_HEADER_LEN..] == body
            && U32At(bytes, 0) == b.totalHits && U32At(bytes, 4) == |b.findings|
            && bytes[8] == if b.truncated then 1 else 0
  {
    var bytes := FindingHeader(b) + body;
    U32RoundTrip(b.totalHits, bytes, 0);
    U32RoundTrip(|b.findings|, bytes, 4);
  }

  lemma {:induction false} FindingHeaderCanonical(bytes: seq<byte>)
    requires |bytes| >= FINDING_HEADER_LEN
    ensures U32(U32At(bytes, 0)) + U32(U32At(bytes, 4)) + [bytes[8]] + bytes[FINDING_HEADER_LEN..] == bytes
  {
    FieldsCanonical(bytes, 0);
    FieldsCanonical(bytes, 4);
    assert bytes[0..4] + bytes[4..8] + [bytes[8]] + bytes[FINDING_HEADER_LEN..] == bytes;
  }

  lemma {:induction false} FindingsCanonical(typeId: u32, bytes: seq<byte>)
    requires DecodeFindings(typeId, bytes).Ok?
    ensures EncodeFindings(DecodeFindings(typeId, bytes).value) == Ok(bytes)
  {
    hide Read, Canonical, Written, ReadsBack, ReadsValid, WritesBack, FindingLen;
    var c, count, b := Findings(typeId), U32At(bytes, 4), DecodeFindings(typeId, bytes).value;
    FindingLaws(typeId);
    RecordsCanonical(c, bytes[FINDING_HEADER_LEN..], count);
    FindingHeaderCanonical(bytes);
    assert FindingHeader(b) == U32(U32At(bytes, 0)) + U32(count) + [bytes[8]];
  }
}
