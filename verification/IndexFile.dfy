/** The derived-index container (crates/kronika-index/src/file.rs) and its targeted reads
    (crates/kronika-index/src/store.rs). */
module IndexFile {
  import opened Machine
  import opened Bytes
  import opened Crc
  import opened IndexCodec

  const HEADER_LEN: nat := 16
  const ENTRY_LEN: nat := 16
  const CHECKSUM_AT: nat := 12
  const CHECKSUM_CHUNK: nat := 16 * 1024
  const MAX_INDEX_BYTES: nat := 8 * 1024 * 1024
  const MAX_BLOCKS: nat := 39

  /** "KRNIDX3" and a zero byte. */
  const MAGIC: seq<byte> := [0x4b, 0x52, 0x4e, 0x49, 0x44, 0x58, 0x33, 0]

  // ----- blocks -----

  /** Raw series kinds are 1 to 7. */
  datatype Key = SeriesKey(kind: u32, typeId: u32)

  predicate KeyBefore(a: Key, b: Key) { a.kind < b.kind || (a.kind == b.kind && a.typeId < b.typeId) }

  datatype Block =
    | OsHealth(points: seq<HealthPoint>)
    | OverallHealth(points: seq<HealthPoint>)
    | PostgresHealth(points: seq<HealthPoint>)
    | PgTransactions(typeId: u32, transactions: seq<TransactionPoint>)
    | PgActiveBackends(typeId: u32, counts: seq<CountPoint>)
    | SourceFindings(block: FindingBlock)
    | PgLockWaiting(typeId: u32, counts: seq<CountPoint>)
  {
    function Key(): Key {
      match this
      case OsHealth(_) => SeriesKey(1, 0)
      case OverallHealth(_) => SeriesKey(2, 0)
      case PostgresHealth(_) => SeriesKey(3, 0)
      case PgTransactions(t, _) => SeriesKey(4, t)
      case PgActiveBackends(t, _) => SeriesKey(5, t)
      case SourceFindings(b) => SeriesKey(6, b.typeId)
      case PgLockWaiting(t, _) => SeriesKey(7, t)
    }

    function Encode(): Result<seq<byte>> {
      match this
      case OsHealth(p) => EncodeCounted(Health(), p)
      case OverallHealth(p) => EncodeCounted(Health(), p)
      case PostgresHealth(p) => EncodeCounted(Health(), p)
      case PgTransactions(_, p) => EncodeCounted(Transactions(), p)
      case PgActiveBackends(_, p) => EncodeCounted(Counts(), p)
      case SourceFindings(b) => EncodeFindings(b)
      case PgLockWaiting(_, p) => EncodeCounted(Counts(), p)
    }
  }

  method EncodeBlock(b: Block) returns (encoded: Result<seq<byte>>)
    ensures encoded == b.Encode()
  {
    match b {
      case OsHealth(p) => encoded := EncodeCountedBlock(Health(), p);
      case OverallHealth(p) => encoded := EncodeCountedBlock(Health(), p);
      case PostgresHealth(p) => encoded := EncodeCountedBlock(Health(), p);
      case PgTransactions(_, p) => encoded := EncodeCountedBlock(Transactions(), p);
      case PgActiveBackends(_, p) => encoded := EncodeCountedBlock(Counts(), p);
      case SourceFindings(f) => encoded := EncodeFindingBlock(f);
      case PgLockWaiting(_, p) => encoded := EncodeCountedBlock(Counts(), p);
    }
  }

  predicate DatabaseLayout(typeId: u32) { 1_005_001 <= typeId <= 1_005_004 }

  predicate ActivityLayout(typeId: u32) { typeId in {1_001_001, 1_001_002, 1_001_004} }

  predicate FindingLayout(typeId: u32) {
    typeId in {2_001_001, 2_002_001, 2_003_001, 2_004_001, 2_005_002, 2_006_001}
    || typeId in {0, 1_102_001, 1_104_001, 1_105_001, 1_106_001, 1_112_002, 1_011_001, 1_011_002, 1_008_001,
                  1_202_001, 1_202_002, 1_202_003}
    || ActivityLayout(typeId) || DatabaseLayout(typeId)
  }

  /** The keys the decoder admits. */
  predicate Admitted(k: Key) {
    if k.kind in {1, 2, 3} then k.typeId == 0
    else if k.kind == 4 then DatabaseLayout(k.typeId)
    else if k.kind in {5, 7} then ActivityLayout(k.typeId)
    else k.kind == 6 && FindingLayout(k.typeId)
  }

  function Mapped<T, U>(r: Result<T>, f: T -> U): Result<U> {
    match r case Err(e) => Err(e) case Ok(v) => Ok(f(v))
  }

  function DecodeBlock(k: Key, bytes: seq<byte>): Result<Block> {
    if !Admitted(k) then Err(BadLayout)
    else match k.kind
         case 1 => Mapped(DecodeCounted(Health(), bytes), p => OsHealth(p))
         case 2 => Mapped(DecodeCounted(Health(), bytes), p => OverallHealth(p))
         case 3 => Mapped(DecodeCounted(Health(), bytes), p => PostgresHealth(p))
         case 4 => Mapped(DecodeCounted(Transactions(), bytes), p => PgTransactions(k.typeId, p))
         case 5 => Mapped(DecodeCounted(Counts(), bytes), p => PgActiveBackends(k.typeId, p))
         case 6 => Mapped(DecodeFindings(k.typeId, bytes), b => SourceFindings(b))
         case _ => Mapped(DecodeCounted(Counts(), bytes), p => PgLockWaiting(k.typeId, p))
  }

  method DecodeBody(k: Key, bytes: seq<byte>) returns (decoded: Result<Block>)
    ensures decoded == DecodeBlock(k, bytes)
  {
    if !Admitted(k) {
      return Err(BadLayout);
    }
    if k.kind <= 3 {
      var points := DecodeCountedBlock(Health(), bytes);
      decoded := Mapped(points, p => if k.kind == 1 then OsHealth(p) else if k.kind == 2 then OverallHealth(p)
                                     else PostgresHealth(p));
    } else if k.kind == 4 {
      var points := DecodeCountedBlock(Transactions(), bytes);
      decoded := Mapped(points, p => PgTransactions(k.typeId, p));
    } else if k.kind == 6 {
      var block := DecodeFindingBlock(k.typeId, bytes);
      decoded := Mapped(block, b => SourceFindings(b));
    } else {
      var points := DecodeCountedBlock(Counts(), bytes);
      decoded := Mapped(points, p => if k.kind == 5 then PgActiveBackends(k.typeId, p) else PgLockWaiting(k.typeId, p));
    }
  }

  lemma {:induction false} BlockRoundTrip(b: Block)
    requires b.Encode().Ok? && Admitted(b.Key())
    ensures DecodeBlock(b.Key(), b.Encode().value) == Ok(b)
  {
    HealthLaws();
    TransactionLaws();
    CountLaws();
    match b
    case OsHealth(p) => CountedRoundTrip(Health(), p);
    case OverallHealth(p) => CountedRoundTrip(Health(), p);
    case PostgresHealth(p) => CountedRoundTrip(Health(), p);
    case PgTransactions(_, p) => CountedRoundTrip(Transactions(), p);
    case PgActiveBackends(_, p) => CountedRoundTrip(Counts(), p);
    case SourceFindings(f) => FindingsRoundTrip(f);
    case PgLockWaiting(_, p) => CountedRoundTrip(Counts(), p);
  }

  /** The kinds and layouts on disk: what each key holds. */
  predicate Belongs(k: Key, b: Block) {
    match b
    case OsHealth(_) => k == SeriesKey(1, 0)
    case OverallHealth(_) => k == SeriesKey(2, 0)
    case PostgresHealth(_) => k == SeriesKey(3, 0)
    case PgTransactions(t, _) => k == SeriesKey(4, t) && t in {1_005_001, 1_005_002, 1_005_003, 1_005_004}
    case PgActiveBackends(t, _) => k == SeriesKey(5, t) && t in {1_001_001, 1_001_002, 1_001_004}
    case PgLockWaiting(t, _) => k == SeriesKey(7, t) && t in {1_001_001, 1_001_002, 1_001_004}
    case SourceFindings(f) =>
      && k == SeriesKey(6, f.typeId)
      && f.typeId in {0,
                      1_001_001, 1_001_002, 1_001_004, 1_005_001, 1_005_002, 1_005_003, 1_005_004,
                      1_008_001, 1_011_001, 1_011_002, 1_102_001, 1_104_001, 1_105_001, 1_106_001, 1_112_002,
                      1_202_001, 1_202_002, 1_202_003,
                      2_001_001, 2_002_001, 2_003_001, 2_004_001, 2_005_002, 2_006_001}
  }

  /** A key decodes to its own kind of block only, and an encoded block is read back under a key
      exactly when it belongs there. */
  lemma {:induction false} KeysNameBlocks(k: Key, b: Block, bytes: seq<byte>)
    ensures DecodeBlock(k, bytes).Ok? ==> Belongs(k, DecodeBlock(k, bytes).value)
    ensures b.Encode() == Ok(bytes) ==>
              (DecodeBlock(k, bytes) == Ok(b) <==> Belongs(k, b))
  {
    hide EncodeCounted, DecodeCounted, EncodeFindings, DecodeFindings;
    if b.Encode() == Ok(bytes) && k == b.Key() && Admitted(k) { BlockRoundTrip(b); }
    if DecodeBlock(k, bytes).Ok? { BlockCanonical(k, bytes); }
  }

  /** A body of transactions with an absent value stored as negative zero. */
  predicate LosesZero(k: Key, bytes: seq<byte>) { k.kind == 4 && HasNegativeZero(bytes) }

  /** A decoded block has the key it was asked for, and is stored canonically exactly unless it
      holds an absent transaction value as negative zero. */
  lemma {:induction false} BlockCanonical(k: Key, bytes: seq<byte>)
    requires DecodeBlock(k, bytes).Ok?
    ensures DecodeBlock(k, bytes).value.Key() == k && Admitted(k)
    ensures DecodeBlock(k, bytes).value.Encode() == Ok(bytes) <==> !LosesZero(k, bytes)
  {
    hide EncodeCounted, DecodeCounted, EncodeFindings, HasNegativeZero;
    hide ReadsBack, ReadsValid, WritesBack, FindingLayout;
    HealthLaws();
    CountLaws();
    match k.kind
    case 1 => CountedCanonical(Health(), bytes);
    case 2 => CountedCanonical(Health(), bytes);
    case 3 => CountedCanonical(Health(), bytes);
    case 4 => TransactionsCanonical(bytes);
    case 5 => CountedCanonical(Counts(), bytes);
    case 6 => FindingsCanonical(k.typeId, bytes);
    case _ => CountedCanonical(Counts(), bytes);
  }

  // ----- what the container holds -----

  datatype TocEntry = TocEntry(key: Key, offset: u32, len: u32)

  function EntryBytes(e: TocEntry): (bytes: seq<byte>)
    ensures |bytes| == ENTRY_LEN
  {
    U32(e.key.kind) + U32(e.key.typeId) + U32(e.offset) + U32(e.len)
  }

  function TableBytes(table: seq<TocEntry>): (bytes: seq<byte>)
    ensures |bytes| == ENTRY_LEN * |table|
  {
    if table == [] then [] else TableBytes(table[..|table| - 1]) + EntryBytes(table[|table| - 1])
  }

  datatype Built = Built(table: seq<TocEntry>, body: seq<byte>)

  /** One more block after `built`, in an index of `total` blocks. */
  function Appended(built: Built, inOrder: bool, key: Key, body: Result<seq<byte>>, total: nat): Result<Built> {
    if !inOrder then Err(BadLayout)
    else match body
         case Err(e) => Err(e)
         case Ok(bytes) =>
           var offset, len := |built.body|, |bytes|;
           if len > U32_MAX || offset + len > U32_MAX
              || HEADER_LEN + ENTRY_LEN * total + offset + len > MAX_INDEX_BYTES
           then Err(TooLarge)
           else Ok(Built(built.table + [TocEntry(key, offset, len)], built.body + bytes))
  }

  predicate InOrder(blocks: seq<Block>, i: nat)
    requires i < |blocks|
  {
    i > 0 ==> KeyBefore(blocks[i - 1].Key(), blocks[i].Key())
  }

  /** The table and bodies of `blocks`. */
  function Build(blocks: seq<Block>, total: nat): Result<Built> {
    if blocks == [] then Ok(Built([], []))
    else
      var n := |blocks| - 1;
      match Build(blocks[..n], total)
      case Err(e) => Err(e)
      case Ok(built) => Appended(built, InOrder(blocks, n), blocks[n].Key(), blocks[n].Encode(), total)
  }

  lemma {:induction false} BuildNothing(blocks: seq<Block>)
    ensures Build(blocks[..0], |blocks|) == Ok(Built([], []))
  {
    assert blocks[..0] == [];
  }

  lemma {:induction false} BuildStep(blocks: seq<Block>, i: nat, total: nat, built: Built)
    requires i < |blocks| && Build(blocks[..i], total) == Ok(built)
    ensures Build(blocks[..i + 1], total)
         == Appended(built, InOrder(blocks, i), blocks[i].Key(), blocks[i].Encode(), total)
  {
    assert blocks[..i + 1][..i] == blocks[..i];
  }

  function Preamble(count: u32): (bytes: seq<byte>)
    ensures |bytes| == CHECKSUM_AT
  {
    MAGIC + U32(count)
  }

  function FileBytes(count: u32, crc: u32, rest: seq<byte>): seq<byte> { Preamble(count) + U32(crc) + rest }

  function FileCrc(count: u32, rest: seq<byte>): u32 { Checksum(Preamble(count) + rest) }

  /** The canonical bytes of an index. */
  function EncodeIndex(blocks: seq<Block>): Result<seq<byte>> {
    if |blocks| > MAX_BLOCKS then Err(TooLarge)
    else match Build(blocks, |blocks|)
         case Err(e) => Err(e)
         case Ok(built) =>
           var rest := TableBytes(built.table) + built.body;
           Ok(FileBytes(|blocks|, FileCrc(|blocks|, rest), rest))
  }

  // ----- the encoder -----

  function Zeros(n: nat): (zeros: seq<byte>)
    ensures |zeros| == n
  {
    seq(n, _ => 0)
  }

  /** The growing buffer: header, filled table entries, blank entries, bodies so far. */
  function Buffer(count: u32, table: seq<TocEntry>, blank: nat, body: seq<byte>): seq<byte> {
    Preamble(count) + U32(0) + TableBytes(table) + Zeros(blank) + body
  }

  function PutU32At(bytes: seq<byte>, at: nat, value: u32): (put: seq<byte>)
    requires at + 4 <= |bytes|
    ensures |put| == |bytes|
  {
    bytes[..at] + U32(value) + bytes[at + 4..]
  }

  method Encode(blocks: seq<Block>) returns (encoded: Result<seq<byte>>)
    ensures encoded == EncodeIndex(blocks)
  {
    if |blocks| > MAX_BLOCKS {
      return Err(TooLarge);
    }
    var count: u32 := |blocks|;
    BlankBuffer(count, ENTRY_LEN * |blocks|);
    var filled := AppendBlocks(blocks, count, Preamble(count) + U32(0) + Zeros(ENTRY_LEN * |blocks|));
    if filled.Err? {
      return Err(filled.error);
    }
    var bytes := filled.value;
    ghost var built := Build(blocks, |blocks|).value;
    FinishedBuffer(count, built.table, built.body);
    var value := ChecksumOf(bytes[..CHECKSUM_AT], bytes[HEADER_LEN..]);
    bytes := bytes[..CHECKSUM_AT] + U32(value) + bytes[HEADER_LEN..];
    return Ok(bytes);
  }

  lemma {:induction false} BlankBuffer(count: u32, blank: nat)
    ensures Preamble(count) + U32(0) + Zeros(blank) == Buffer(count, [], blank, [])
  {
    assert Preamble(count) + U32(0) + [] == Preamble(count) + U32(0);
  }

  /** Patches entry `i` of the table and appends its body. */
  method AppendBlock(buffer: seq<byte>, i: nat, entry: TocEntry, body: seq<byte>, count: u32, ghost total: nat,
                     ghost built: Built)
    returns (next: seq<byte>)
    requires |built.table| == i < total && |body| == entry.len
    requires buffer == Buffer(count, built.table, ENTRY_LEN * (total - i), built.body)
    ensures next == Buffer(count, built.table + [entry], ENTRY_LEN * (total - i - 1), built.body + body)
  {
    hide Buffer;
    ghost var blank := ENTRY_LEN * (total - i - 1);
    assert ENTRY_LEN * (total - i) == blank + ENTRY_LEN;
    next := PutEntry(buffer, HEADER_LEN + i * ENTRY_LEN, entry, count, built.table, blank, built.body);
    AppendBody(count, built.table + [entry], blank, built.body, body);
    next := next + body;
  }

  /** Fills the table and appends the bodies, block by block. */
  method AppendBlocks(blocks: seq<Block>, count: u32, buffer: seq<byte>) returns (filled: Result<seq<byte>>)
    requires count == |blocks| && buffer == Buffer(count, [], ENTRY_LEN * |blocks|, [])
    ensures filled == match Build(blocks, |blocks|)
                      case Err(e) => Err(e)
                      case Ok(built) => Ok(Buffer(count, built.table, 0, built.body))
  {
    hide Build, Appended, Buffer, Block.Encode, Block.Key, InOrder;
    var bytes := buffer;
    var offset: nat := 0;
    ghost var built := Built([], []);
    BuildNothing(blocks);
    for i := 0 to |blocks|
      invariant Build(blocks[..i], |blocks|) == Ok(built)
      invariant |built.table| == i && offset == |built.body| <= U32_MAX
      invariant bytes == Buffer(count, built.table, ENTRY_LEN * (|blocks| - i), built.body)
    {
      BuildNext(blocks, i, built);
      var key := blocks[i].Key();
      if !InOrder(blocks, i) {
        return Err(BadLayout);
      }
      var body := EncodeBlock(blocks[i]);
      if body.Err? {
        return Err(body.error);
      }
      var len := |body.value|;
      BufferLen(count, built.table, ENTRY_LEN * (|blocks| - i), built.body);
      if len > U32_MAX || offset + len > U32_MAX || |bytes| + len > MAX_INDEX_BYTES {
        return Err(TooLarge);
      }
      var entry := TocEntry(key, offset, len);
      bytes := AppendBlock(bytes, i, entry, body.value, count, |blocks|, built);
      built := Built(built.table + [entry], built.body + body.value);
      offset := offset + len;
    }
    assert blocks[..|blocks|] == blocks;
    return Ok(bytes);
  }

  /** How one more block extends the build, or which error ends it. */
  lemma {:induction false} BuildNext(blocks: seq<Block>, i: nat, built: Built)
    requires i < |blocks| && Build(blocks[..i], |blocks|) == Ok(built) && |built.table| == i
    ensures !InOrder(blocks, i) ==> Build(blocks, |blocks|) == Err(BadLayout)
    ensures var body, offset := blocks[i].Encode(), |built.body|;
            InOrder(blocks, i) ==>
              (if body.Err? then Build(blocks, |blocks|) == Err(body.error)
               else
                 var len, size := |body.value|, HEADER_LEN + ENTRY_LEN * |blocks| + offset;
                 if len > U32_MAX || offset + len > U32_MAX || size + len > MAX_INDEX_BYTES then
                   Build(blocks, |blocks|) == Err(TooLarge)
                 else
                   Build(blocks[..i + 1], |blocks|)
                   == Ok(Built(built.table + [TocEntry(blocks[i].Key(), offset, len)], built.body + body.value)))
  {
    hide Build, InOrder, Block.Encode, Block.Key;
    BuildStep(blocks, i, |blocks|, built);
    if Build(blocks[..i + 1], |blocks|).Err? { BuildStops(blocks, i + 1, |blocks|); }
  }

  /** Fills the next blank table entry with four patches. */
  method PutEntry(buffer: seq<byte>, at: nat, e: TocEntry, ghost count: u32, ghost table: seq<TocEntry>,
                  ghost blank: nat, ghost body: seq<byte>)
    returns (bytes: seq<byte>)
    requires at == HEADER_LEN + ENTRY_LEN * |table|
    requires buffer == Buffer(count, table, blank + ENTRY_LEN, body)
    ensures bytes == Buffer(count, table + [e], blank, body)
  {
    PatchEntry(count, table, blank, body, e);
    bytes := PutU32At(buffer, at, e.key.kind);
    bytes := PutU32At(bytes, at + 4, e.key.typeId);
    bytes := PutU32At(bytes, at + 8, e.offset);
    bytes := PutU32At(bytes, at + 12, e.len);
  }

  method ChecksumOf(head: seq<byte>, rest: seq<byte>) returns (value: u32)
    ensures value == Checksum(head + rest)
  {
    var checksum := new Crc32c();
    checksum.Update(head);
    checksum.Update(rest);
    FoldAppend(ALL_ONES, head, rest);
    value := checksum.Finalize();
  }

  lemma {:induction false} BuildStops(blocks: seq<Block>, k: nat, total: nat)
    requires k <= |blocks| && Build(blocks[..k], total).Err?
    ensures Build(blocks, total) == Build(blocks[..k], total)
    decreases |blocks| - k
  {
    if k == |blocks| {
      assert blocks[..k] == blocks;
    } else {
      assert blocks[..k + 1][..k] == blocks[..k];
      BuildStops(blocks, k + 1, total);
    }
  }

  /** Filling the next blank entry with four patches. */
  lemma {:induction false} PatchEntry(count: u32, table: seq<TocEntry>, blank: nat, body: seq<byte>, e: TocEntry)
    ensures var b0, at := Buffer(count, table, blank + ENTRY_LEN, body), HEADER_LEN + ENTRY_LEN * |table|;
            at + ENTRY_LEN <= |b0|
            && var b1 := PutU32At(PutU32At(b0, at, e.key.kind), at + 4, e.key.typeId);
               PutU32At(PutU32At(b1, at + 8, e.offset), at + 12, e.len) == Buffer(count, table + [e], blank, body)
  {
    hide PutU32At, U32;
    var at := HEADER_LEN + ENTRY_LEN * |table|;
    var head, tail := Preamble(count) + U32(0) + TableBytes(table), Zeros(blank) + body;
    var k, t, o, l := U32(e.key.kind), U32(e.key.typeId), U32(e.offset), U32(e.len);
    var z := Zeros(4);
    assert Buffer(count, table, blank + ENTRY_LEN, body) == head + z + (z + z + z + tail);
    PutBetween(head, z, z + z + z + tail, e.key.kind);
    assert head + k + (z + z + z + tail) == (head + k) + z + (z + z + tail);
    PutBetween(head + k, z, z + z + tail, e.key.typeId);
    assert (head + k) + t + (z + z + tail) == (head + k + t) + z + (z + tail);
    PutBetween(head + k + t, z, z + tail, e.offset);
    assert (head + k + t) + o + (z + tail) == (head + k + t + o) + z + tail;
    PutBetween(head + k + t + o, z, tail, e.len);
    assert (table + [e])[..|table|] == table;
    assert (head + k + t + o) + l + tail == head + EntryBytes(e) + tail;
    assert head + EntryBytes(e) + tail == Buffer(count, table + [e], blank, body);
  }

  lemma {:induction false} PutBetween(head: seq<byte>, old4: seq<byte>, tail: seq<byte>, value: u32)
    requires |old4| == 4
    ensures PutU32At(head + old4 + tail, |head|, value) == head + U32(value) + tail
  {
    var b := head + old4 + tail;
    assert b[..|head|] == head && b[|head| + 4..] == tail;
  }

  lemma {:induction false} AppendBody(count: u32, table: seq<TocEntry>, blank: nat, body: seq<byte>, more: seq<byte>)
    ensures Buffer(count, table, blank, body) + more == Buffer(count, table, blank, body + more)
  {
  }

  lemma {:induction false} FinishedBuffer(count: u32, table: seq<TocEntry>, body: seq<byte>)
    ensures var bytes := Buffer(count, table, 0, body);
            |bytes| >= HEADER_LEN && bytes[..CHECKSUM_AT] == Preamble(count)
            && bytes[HEADER_LEN..] == TableBytes(table) + body
  {
    var rest := TableBytes(table) + body;
    assert Zeros(0) == [] && TableBytes(table) + [] == TableBytes(table);
    assert Buffer(count, table, 0, body) == Preamble(count) + (U32(0) + rest);
  }

  lemma {:induction false} BufferLen(count: u32, table: seq<TocEntry>, blank: nat, body: seq<byte>)
    ensures |Buffer(count, table, blank, body)| == HEADER_LEN + ENTRY_LEN * |table| + blank + |body|
  {
  }

  // ----- the decoder -----

  datatype Parsed = Parsed(table: seq<TocEntry>, offset: nat)

  function EntryAt(raw: seq<byte>, i: nat): TocEntry
    requires ENTRY_LEN * (i + 1) <= |raw|
  {
    var at := ENTRY_LEN * i;
    TocEntry(SeriesKey(U32At(raw, at), U32At(raw, at + 4)), U32At(raw, at + 8), U32At(raw, at + 12))
  }

  predicate EntryFits(raw: seq<byte>, i: nat, expectedOffset: nat)
    requires ENTRY_LEN * (i + 1) <= |raw|
  {
    var e := EntryAt(raw, i);
    1 <= e.key.kind <= 7
    && e.offset == expectedOffset && (i > 0 ==> KeyBefore(EntryAt(raw, i - 1).key, e.key))
    && expectedOffset + e.len <= U32_MAX
  }

  /** The first `n` table entries: known kinds, increasing keys, contiguous bodies. */
  function ParseTable(raw: seq<byte>, n: nat): Result<Parsed>
    requires ENTRY_LEN * n <= |raw|
  {
    if n == 0 then Ok(Parsed([], 0))
    else match ParseTable(raw, n - 1)
         case Err(e) => Err(e)
         case Ok(before) =>
           var e := EntryAt(raw, n - 1);
           if !EntryFits(raw, n - 1, before.offset) then Err(BadLayout)
           else Ok(Parsed(before.table + [e], before.offset + e.len))
  }

  datatype Meta = Meta(expectedChecksum: u32, table: seq<TocEntry>, bodyAt: nat)

  /** Header and table, validated against the file length. */
  function ParseMeta(file: seq<byte>): Result<Meta> {
    if |file| > MAX_INDEX_BYTES then Err(TooLarge)
    else if |file| < HEADER_LEN then Err(Truncated)
    else if file[..8] != MAGIC then Err(BadMagic)
    else
      var count := U32At(file, 8);
      if count > MAX_BLOCKS then Err(TooLarge)
      else
        var bodyAt := HEADER_LEN + ENTRY_LEN * count;
        if bodyAt > |file| then Err(Truncated)
        else match ParseTable(file[HEADER_LEN..bodyAt], count)
             case Err(e) => Err(e)
             case Ok(parsed) =>
               if bodyAt + parsed.offset != |file| then Err(BadLayout)
               else Ok(Meta(U32At(file, CHECKSUM_AT), parsed.table, bodyAt))
  }

  method Metadata(file: seq<byte>) returns (meta: Result<Meta>)
    ensures meta == ParseMeta(file)
  {
    if |file| > MAX_INDEX_BYTES {
      return Err(TooLarge);
    }
    if |file| < HEADER_LEN {
      return Err(Truncated);
    }
    if file[..8] != MAGIC {
      return Err(BadMagic);
    }
    var count := U32At(file, 8);
    if count > MAX_BLOCKS {
      return Err(TooLarge);
    }
    var bodyAt := HEADER_LEN + ENTRY_LEN * count;
    if bodyAt > |file| {
      return Err(Truncated);
    }
    var parsed := ReadTable(file[HEADER_LEN..bodyAt], count);
    if parsed.Err? {
      return Err(parsed.error);
    }
    if bodyAt + parsed.value.offset != |file| {
      return Err(BadLayout);
    }
    return Ok(Meta(U32At(file, CHECKSUM_AT), parsed.value.table, bodyAt));
  }

  method ReadTable(raw: seq<byte>, count: nat) returns (parsed: Result<Parsed>)
    requires ENTRY_LEN * count <= |raw|
    ensures parsed == ParseTable(raw, count)
  {
    hide ParseTable, EntryAt, EntryFits;
    var table: seq<TocEntry>, expectedOffset: nat := [], 0;
    TableNothing(raw);
    for i := 0 to count
      invariant ParseTable(raw, i) == Ok(Parsed(table, expectedOffset)) && expectedOffset <= U32_MAX
    {
      var e := EntryAt(raw, i);
      TableNext(raw, i, count, Parsed(table, expectedOffset));
      if !EntryFits(raw, i, expectedOffset) {
        return Err(BadLayout);
      }
      expectedOffset := expectedOffset + e.len;
      table := table + [e];
    }
    return Ok(Parsed(table, expectedOffset));
  }

  lemma {:induction false} TableNothing(raw: seq<byte>)
    ensures ParseTable(raw, 0) == Ok(Parsed([], 0))
  {
  }

  lemma {:induction false} TableNext(raw: seq<byte>, i: nat, count: nat, before: Parsed)
    requires i < count && ENTRY_LEN * count <= |raw| && ParseTable(raw, i) == Ok(before) && before.offset <= U32_MAX
    ensures var e := EntryAt(raw, i);
            if EntryFits(raw, i, before.offset) then
              ParseTable(raw, i + 1) == Ok(Parsed(before.table + [e], before.offset + e.len))
              && before.offset + e.len <= U32_MAX
            else ParseTable(raw, count) == Err(BadLayout)
  {
    hide EntryAt;
    if !EntryFits(raw, i, before.offset) { TableStops(raw, i + 1, count); }
  }

  lemma {:induction false} TableStops(raw: seq<byte>, k: nat, n: nat)
    requires k <= n && ENTRY_LEN * n <= |raw| && ParseTable(raw, k).Err?
    ensures ParseTable(raw, n) == Err(BadLayout)
    decreases n
  {
    TableErrors(raw, k);
    if k >= n {
    } else {
      TableStops(raw, k, n - 1);
    }
  }

  lemma {:induction false} TableErrors(raw: seq<byte>, k: nat)
    requires ENTRY_LEN * k <= |raw|
    ensures ParseTable(raw, k).Err? ==> ParseTable(raw, k).error == BadLayout
  {
    if k == 0 {
    } else {
      TableErrors(raw, k - 1);
    }
  }

  /** The checksum over everything but its own four bytes. */
  function CoveredCrc(file: seq<byte>): u32
    requires |file| >= HEADER_LEN
  {
    Checksum(file[..CHECKSUM_AT] + file[HEADER_LEN..])
  }

  method ValidateChecksum(file: seq<byte>, expected: u32) returns (matches: bool)
    requires |file| >= HEADER_LEN
    ensures matches == (CoveredCrc(file) == expected)
  {
    var checksum := new Crc32c();
    checksum.Update(file[..CHECKSUM_AT]);
    UpdateInChunks(checksum, file[HEADER_LEN..]);
    FoldAppend(ALL_ONES, file[..CHECKSUM_AT], file[HEADER_LEN..]);
    var value := checksum.Finalize();
    matches := value == expected;
  }

  /** Feeds the rest of the file through a bounded buffer. */
  method UpdateInChunks(checksum: Crc32c, rest: seq<byte>)
    modifies checksum
    ensures checksum.digest == Fold(old(checksum.digest), rest)
  {
    ghost var start := checksum.digest;
    var at := 0;
    assert rest[..0] == [] && Fold(start, []) == start;
    while at < |rest|
      invariant at <= |rest|
      invariant checksum.digest == Fold(start, rest[..at])
    {
      var end := NextChunkEnd(at, |rest|);
      FoldChunk(start, rest, at, end);
      var chunk := rest[at..end];
      checksum.Update(chunk);
      at := end;
    }
    assert rest[..at] == rest;
  }

  function NextChunkEnd(at: nat, end: nat): (next: nat)
    requires at < end
    ensures at < next <= end
  {
    if end - at < CHECKSUM_CHUNK then end else at + CHECKSUM_CHUNK
  }

  lemma {:induction false} FoldChunk(start: bv32, rest: seq<byte>, at: nat, end: nat)
    requires at <= end <= |rest|
    ensures Fold(Fold(start, rest[..at]), rest[at..end]) == Fold(start, rest[..end])
  {
    FoldAppend(start, rest[..at], rest[at..end]);
    assert rest[..at] + rest[at..end] == rest[..end];
  }

  function BodyOf(file: seq<byte>, meta: Meta, e: TocEntry): Result<seq<byte>> {
    var at := meta.bodyAt + e.offset;
    if at + e.len > |file| then Err(Truncated) else Ok(file[at..at + e.len])
  }

  function ReadBlock(file: seq<byte>, meta: Meta, e: TocEntry): Result<Block> {
    match BodyOf(file, meta, e)
    case Err(error) => Err(error)
    case Ok(body) => DecodeBlock(e.key, body)
  }

  /** The wanted blocks of the first `n` table entries. */
  function ReadBlocks(file: seq<byte>, meta: Meta, wanted: Key -> bool, n: nat): Result<seq<Block>>
    requires n <= |meta.table|
  {
    if n == 0 then Ok([])
    else match ReadBlocks(file, meta, wanted, n - 1)
         case Err(e) => Err(e)
         case Ok(blocks) =>
           if !wanted(meta.table[n - 1].key) then Ok(blocks)
           else match ReadBlock(file, meta, meta.table[n - 1])
                case Err(e) => Err(e)
                case Ok(b) => Ok(blocks + [b])
  }

  function CheckedMeta(file: seq<byte>): Result<Meta> {
    match ParseMeta(file)
    case Err(e) => Err(e)
    case Ok(meta) =>
      if CoveredCrc(file) != meta.expectedChecksum then Err(BadChecksum) else Ok(meta)
  }

  function DecodeIndex(file: seq<byte>): Result<seq<Block>> {
    match CheckedMeta(file)
    case Err(e) => Err(e)
    case Ok(meta) => ReadBlocks(file, meta, _ => true, |meta.table|)
  }

  datatype Targeted = Targeted(checksum: u32, blocks: seq<Block>)

  function DecodeTarget(file: seq<byte>, keys: set<Key>): Result<Targeted> {
    match CheckedMeta(file)
    case Err(e) => Err(e)
    case Ok(meta) =>
      match ReadBlocks(file, meta, k => k in keys, |meta.table|)
      case Err(e) => Err(e)
      case Ok(blocks) => Ok(Targeted(meta.expectedChecksum, blocks))
  }

  method Checked(file: seq<byte>) returns (meta: Result<Meta>)
    ensures meta == CheckedMeta(file)
  {
    meta := Metadata(file);
    if meta.Ok? {
      var matches := ValidateChecksum(file, meta.value.expectedChecksum);
      if !matches {
        return Err(BadChecksum);
      }
    }
  }

  method ReadEntry(file: seq<byte>, meta: Meta, e: TocEntry) returns (read: Result<Block>)
    ensures read == ReadBlock(file, meta, e)
  {
    var body := BodyOf(file, meta, e);
    if body.Err? {
      return Err(body.error);
    }
    read := DecodeBody(e.key, body.value);
  }

  method ReadEntries(file: seq<byte>, meta: Meta, wanted: Key -> bool) returns (read: Result<seq<Block>>)
    ensures read == ReadBlocks(file, meta, wanted, |meta.table|)
  {
    var blocks: seq<Block> := [];
    for i := 0 to |meta.table|
      invariant ReadBlocks(file, meta, wanted, i) == Ok(blocks)
    {
      if !wanted(meta.table[i].key) {
        continue;
      }
      var block := ReadEntry(file, meta, meta.table[i]);
      if block.Err? {
        ReadStops(file, meta, wanted, i + 1, |meta.table|);
        return Err(block.error);
      }
      blocks := blocks + [block.value];
    }
    return Ok(blocks);
  }

  method ReadAll(file: seq<byte>) returns (index: Result<seq<Block>>)
    ensures index == DecodeIndex(file)
  {
    var meta := Checked(file);
    if meta.Err? {
      return Err(meta.error);
    }
    index := ReadEntries(file, meta.value, _ => true);
  }

  method ReadTarget(file: seq<byte>, keys: set<Key>) returns (target: Result<Targeted>)
    ensures target == DecodeTarget(file, keys)
  {
    var meta := Checked(file);
    if meta.Err? {
      return Err(meta.error);
    }
    var blocks := ReadEntries(file, meta.value, k => k in keys);
    if blocks.Err? {
      return Err(blocks.error);
    }
    return Ok(Targeted(meta.value.expectedChecksum, blocks.value));
  }

  lemma {:induction false} ReadStops(file: seq<byte>, meta: Meta, wanted: Key -> bool, k: nat, n: nat)
    requires k <= n <= |meta.table| && ReadBlocks(file, meta, wanted, k).Err?
    ensures ReadBlocks(file, meta, wanted, n) == ReadBlocks(file, meta, wanted, k)
    decreases n
  {
    if k >= n {
    } else {
      ReadStops(file, meta, wanted, k, n - 1);
    }
  }
}
