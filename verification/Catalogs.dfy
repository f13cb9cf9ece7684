/** The end catalog of a segment and its tail index (crates/kronika-format/src/catalog.rs). */
module Catalogs {
  import opened Machine
  import opened Bytes
  import opened Crc

  const ENTRY_LEN: nat := 32
  const META_LEN: nat := 32
  const TAIL_INDEX_LEN: nat := 8
  const META_CRC_OFFSET: nat := 24

  /** "ZMS1". */
  const MAGIC: seq<byte> := [0x5a, 0x4d, 0x53, 0x31]

  datatype Entry = Entry(typeId: u32, flags: u32, offset: u64, len: u64, rows: u32, crc32c: u32)

  datatype Catalog = Catalog(entries: seq<Entry>, minTs: i64, maxTs: i64, formatVersion: u32, windowCount: u32)

  datatype Error =
    | BadTailMagic(actual: seq<byte>)
    | BadCatalogLen(len: nat)
    | EntryCountMismatch(stored: u32, derived: u32)
    | BadCrc(stored: u32, computed: u32)
    | TooLong

  datatype Result<+T> = Ok(value: T) | Err(error: Error)

  // ----- layout -----

  function EntryBytes(e: Entry): (bytes: seq<byte>)
    ensures |bytes| == ENTRY_LEN
  {
    U32(e.typeId) + U32(e.flags) + U64(e.offset) + U64(e.len) + U32(e.rows) + U32(e.crc32c)
  }

  function EntriesBytes(entries: seq<Entry>): (bytes: seq<byte>)
    ensures |bytes| == ENTRY_LEN * |entries|
  {
    if entries == [] then [] else EntryBytes(entries[0]) + EntriesBytes(entries[1..])
  }

  function MetaBytes(c: Catalog, count: u32, crc: u32): (bytes: seq<byte>)
    ensures |bytes| == META_LEN
  {
    I64(c.minTs) + I64(c.maxTs) + U32(count) + U32(c.formatVersion) + U32(crc) + U32(c.windowCount)
  }

  function EncodedLen(c: Catalog): nat { |c.entries| * ENTRY_LEN + META_LEN }

  predicate Encodable(c: Catalog) { EncodedLen(c) <= U32_MAX }

  function BlockCrc(c: Catalog): u32
    requires |c.entries| <= U32_MAX
  {
    Checksum(EntriesBytes(c.entries) + MetaBytes(c, |c.entries|, 0))
  }

  /** The catalog block: entries, then metadata that holds the checksum of both. */
  function Block(c: Catalog): (block: seq<byte>)
    requires |c.entries| <= U32_MAX
    ensures |block| == EncodedLen(c)
  {
    EntriesBytes(c.entries) + MetaBytes(c, |c.entries|, BlockCrc(c))
  }

  function TailBytes(catalogLen: u32): (bytes: seq<byte>)
    ensures |bytes| == TAIL_INDEX_LEN
  {
    U32(catalogLen) + MAGIC
  }

  function DecodeTail(bytes: seq<byte>): Result<u32>
    requires |bytes| == TAIL_INDEX_LEN
  {
    if bytes[4..] != MAGIC then Err(BadTailMagic(bytes[4..])) else Ok(U32At(bytes, 0))
  }

  function DecodeEntry(raw: seq<byte>): Entry
    requires |raw| == ENTRY_LEN
  {
    Entry(U32At(raw, 0), U32At(raw, 4), U64At(raw, 8), U64At(raw, 16), U32At(raw, 24), U32At(raw, 28))
  }

  function DecodeEntries(bytes: seq<byte>, count: nat): (entries: seq<Entry>)
    requires |bytes| == ENTRY_LEN * count
    ensures |entries| == count
  {
    if count == 0 then []
    else [DecodeEntry(bytes[..ENTRY_LEN])] + DecodeEntries(bytes[ENTRY_LEN..], count - 1)
  }

  // ----- the writer -----

  method WriteEncoded(c: Catalog) returns (written: Result<seq<byte>>)
    ensures written == if 32 * |c.entries| + 32 <= 0xffff_ffff then Ok(Block(c) + TailBytes(EncodedLen(c)))
                       else Err(TooLong)
  {
    if EncodedLen(c) > U32_MAX {
      return Err(TooLong);
    }
    var checksum := new Crc32c();
    var out: seq<byte> := [];
    for i := 0 to |c.entries|
      invariant out == EntriesBytes(c.entries[..i])
      invariant checksum.digest == Fold(ALL_ONES, out)
    {
      var bytes := EntryBytes(c.entries[i]);
      checksum.Update(bytes);
      FoldAppend(ALL_ONES, out, bytes);
      EntriesSnoc(c.entries, i);
      out := out + bytes;
    }
    assert c.entries[..|c.entries|] == c.entries;
    var meta := MetaBytes(c, |c.entries|, 0);
    checksum.Update(meta);
    FoldAppend(ALL_ONES, out, meta);
    var crc := checksum.Finalize();
    MetaCrcPatch(c, |c.entries|, crc);
    meta := meta[..META_CRC_OFFSET] + U32(crc) + meta[META_CRC_OFFSET + 4..];
    return Ok(out + meta + TailBytes(EncodedLen(c)));
  }

  lemma {:induction false} EntriesSnoc(entries: seq<Entry>, i: nat)
    requires i < |entries|
    ensures EntriesBytes(entries[..i + 1]) == EntriesBytes(entries[..i]) + EntryBytes(entries[i])
  {
    if i == 0 {
      assert entries[..1][1..] == [];
    } else {
      assert entries[..i + 1][1..] == entries[1..][..i] && entries[..i][1..] == entries[1..][..i - 1];
      EntriesSnoc(entries[1..], i - 1);
    }
  }

  lemma {:induction false} MetaCrcPatch(c: Catalog, count: u32, crc: u32)
    ensures var meta := MetaBytes(c, count, 0);
            meta[..META_CRC_OFFSET] + U32(crc) + meta[META_CRC_OFFSET + 4..] == MetaBytes(c, count, crc)
  {
    var head := I64(c.minTs) + I64(c.maxTs) + U32(count) + U32(c.formatVersion);
    var meta := MetaBytes(c, count, 0);
    assert meta == head + U32(0) + U32(c.windowCount);
    assert meta[..META_CRC_OFFSET] == head && meta[META_CRC_OFFSET + 4..] == U32(c.windowCount);
  }

  // ----- the reader -----

  /** Validation and decoding of a block without the tail index. */
  function Decode(bytes: seq<byte>): Result<Catalog> {
    if |bytes| < META_LEN || (|bytes| - META_LEN) % ENTRY_LEN != 0 then Err(BadCatalogLen(|bytes|))
    else
      var derived := (|bytes| - META_LEN) / ENTRY_LEN;
      if derived > U32_MAX then Err(BadCatalogLen(|bytes|)) else DecodeCounted(bytes, derived)
  }

  function DecodeCounted(bytes: seq<byte>, derived: u32): Result<Catalog>
    requires |bytes| == ENTRY_LEN * derived + META_LEN
  {
    var metaAt := |bytes| - META_LEN;
    var stored := U32At(bytes, metaAt + 16);
    var storedCrc := U32At(bytes, metaAt + META_CRC_OFFSET);
    var computed := Checksum(ZeroedField(bytes, metaAt + META_CRC_OFFSET));
    if stored != derived then Err(EntryCountMismatch(stored, derived))
    else if storedCrc != computed then Err(BadCrc(storedCrc, computed))
    else Ok(Catalog(DecodeEntries(bytes[..metaAt], derived), I64At(bytes, metaAt), I64At(bytes, metaAt + 8),
                    U32At(bytes, metaAt + 20), U32At(bytes, metaAt + 28)))
  }

  // ----- entries -----

  lemma {:induction false} EntryRoundTrip(e: Entry)
    ensures DecodeEntry(EntryBytes(e)) == e
  {
    var b := EntryBytes(e);
    U32RoundTrip(e.typeId, b, 0);
    U32RoundTrip(e.flags, b, 4);
    U64RoundTrip(e.offset, b, 8);
    U64RoundTrip(e.len, b, 16);
    U32RoundTrip(e.rows, b, 24);
    U32RoundTrip(e.crc32c, b, 28);
  }

  lemma {:induction false} EntryCanonical(raw: seq<byte>)
    requires |raw| == ENTRY_LEN
    ensures EntryBytes(DecodeEntry(raw)) == raw
  {
    hide U32At, U64At, U32, U64;
    FieldsCanonical(raw, 0);
    FieldsCanonical(raw, 4);
    FieldsCanonical(raw, 8);
    FieldsCanonical(raw, 16);
    FieldsCanonical(raw, 24);
    FieldsCanonical(raw, 28);
  }

  /** Byte by byte: a block is 32 bytes for each entry and 32 of metadata, the tail eight more. */
  lemma {:induction false} CatalogLayout(c: Catalog)
    requires |c.entries| <= U32_MAX
    ensures var block, at := Block(c), 32 * |c.entries|;
            && |block| == at + 32
            && I64At(block, at) == c.minTs && I64At(block, at + 8) == c.maxTs && U32At(block, at + 16) == |c.entries|
            && U32At(block, at + 20) == c.formatVersion && U32At(block, at + 28) == c.windowCount
            && U32At(block, at + 24) == Checksum(ZeroedField(block, at + 24))
            && forall i :: 0 <= i < |c.entries| ==>
                 var e, o := c.entries[i], 32 * i;
                 && U32At(block, o) == e.typeId && U32At(block, o + 4) == e.flags && U64At(block, o + 8) == e.offset
                 && U64At(block, o + 16) == e.len && U32At(block, o + 24) == e.rows && U32At(block, o + 28) == e.crc32c
  {
    hide U32At, U64At, I64At, Checksum, ZeroedField, MetaBytes, EntryBytes, BlockCrc;
    var block, at := Block(c), 32 * |c.entries|;
    assert block[at..] == MetaBytes(c, |c.entries|, BlockCrc(c));
    MetaFields(block, at, c, |c.entries|, BlockCrc(c));
    ZeroedBlock(c, BlockCrc(c));
    BlockCrcIs(c);
    forall i | 0 <= i < |c.entries|
      ensures var e, o := c.entries[i], 32 * i;
              && U32At(block, o) == e.typeId && U32At(block, o + 4) == e.flags && U64At(block, o + 8) == e.offset
              && U64At(block, o + 16) == e.len && U32At(block, o + 24) == e.rows && U32At(block, o + 28) == e.crc32c
    {
      EntrySlice(c.entries, i);
      assert block[32 * i..32 * i + 32] == EntriesBytes(c.entries)[32 * i..32 * i + 32];
      EntryFields(block, 32 * i, c.entries[i]);
    }
  }

  lemma {:induction false} BlockCrcIs(c: Catalog)
    requires |c.entries| <= U32_MAX
    ensures BlockCrc(c) == Checksum(EntriesBytes(c.entries) + MetaBytes(c, |c.entries|, 0))
  {
  }

  lemma {:induction false} EntrySlice(entries: seq<Entry>, i: nat)
    requires i < |entries|
    ensures EntriesBytes(entries)[32 * i..32 * i + 32] == EntryBytes(entries[i])
  {
    hide EntryBytes;
    var bytes, rest := EntriesBytes(entries), EntriesBytes(entries[1..]);
    if i == 0 {
      assert bytes[..32] == EntryBytes(entries[0]);
    } else {
      EntrySlice(entries[1..], i - 1);
      assert bytes[32..] == rest;
      assert bytes[32 * i..32 * i + 32] == rest[32 * (i - 1)..32 * (i - 1) + 32];
    }
  }

  lemma {:induction false} EntryFields(bytes: seq<byte>, o: nat, e: Entry)
    requires o + 32 <= |bytes| && bytes[o..o + 32] == EntryBytes(e)
    ensures U32At(bytes, o) == e.typeId && U32At(bytes, o + 4) == e.flags && U64At(bytes, o + 8) == e.offset
    ensures U64At(bytes, o + 16) == e.len && U32At(bytes, o + 24) == e.rows && U32At(bytes, o + 28) == e.crc32c
  {
    hide U32At, U64At, U32, U64;
    var raw := EntryBytes(e);
    SliceOf(bytes, o, 0, 4);
    SliceOf(bytes, o, 4, 8);
    SliceOf(bytes, o, 8, 16);
    SliceOf(bytes, o, 16, 24);
    SliceOf(bytes, o, 24, 28);
    SliceOf(bytes, o, 28, 32);
    assert raw[0..4] == U32(e.typeId) && raw[4..8] == U32(e.flags) && raw[8..16] == U64(e.offset);
    assert raw[16..24] == U64(e.len) && raw[24..28] == U32(e.rows) && raw[28..32] == U32(e.crc32c);
    U32RoundTrip(e.typeId, bytes, o);
    U32RoundTrip(e.flags, bytes, o + 4);
    U64RoundTrip(e.offset, bytes, o + 8);
    U64RoundTrip(e.len, bytes, o + 16);
    U32RoundTrip(e.rows, bytes, o + 24);
    U32RoundTrip(e.crc32c, bytes, o + 28);
  }

  lemma {:induction false} SliceOf(bytes: seq<byte>, o: nat, lo: nat, hi: nat)
    requires o + 32 <= |bytes| && lo <= hi <= 32
    ensures bytes[o..o + 32][lo..hi] == bytes[o + lo..o + hi]
  {
    var a, b := bytes[o..o + 32][lo..hi], bytes[o + lo..o + hi];
    assert forall k :: 0 <= k < hi - lo ==> a[k] == b[k];
  }

  lemma {:induction false} EntriesRoundTrip(entries: seq<Entry>)
    ensures DecodeEntries(EntriesBytes(entries), |entries|) == entries
  {
    if entries == [] {
    } else {
      var bytes := EntriesBytes(entries);
      EntryRoundTrip(entries[0]);
      EntriesRoundTrip(entries[1..]);
      assert bytes[..ENTRY_LEN] == EntryBytes(entries[0]) && bytes[ENTRY_LEN..] == EntriesBytes(entries[1..]);
    }
  }

  lemma {:induction false} EntriesCanonical(bytes: seq<byte>, count: nat)
    requires |bytes| == ENTRY_LEN * count
    ensures EntriesBytes(DecodeEntries(bytes, count)) == bytes
  {
    if count == 0 {
    } else {
      EntryCanonical(bytes[..ENTRY_LEN]);
      EntriesCanonical(bytes[ENTRY_LEN..], count - 1);
      assert DecodeEntries(bytes, count)[1..] == DecodeEntries(bytes[ENTRY_LEN..], count - 1);
      assert bytes[..ENTRY_LEN] + bytes[ENTRY_LEN..] == bytes;
    }
  }

  /** Each metadata field reads back from a block that ends in this metadata. */
  lemma {:induction false} MetaFields(bytes: seq<byte>, at: nat, c: Catalog, count: u32, crc: u32)
    requires at + META_LEN == |bytes| && bytes[at..] == MetaBytes(c, count, crc)
    ensures I64At(bytes, at) == c.minTs && I64At(bytes, at + 8) == c.maxTs && U32At(bytes, at + 16) == count
            && U32At(bytes, at + 20) == c.formatVersion && U32At(bytes, at + META_CRC_OFFSET) == crc
            && U32At(bytes, at + 28) == c.windowCount
  {
    assert forall lo, hi :: 0 <= lo <= hi <= META_LEN ==> bytes[at..][lo..hi] == bytes[at + lo..at + hi];
    var meta := MetaBytes(c, count, crc);
    assert meta[0..8] == I64(c.minTs) && meta[8..16] == I64(c.maxTs) && meta[16..20] == U32(count);
    assert meta[20..24] == U32(c.formatVersion) && meta[24..28] == U32(crc) && meta[28..32] == U32(c.windowCount);
    I64RoundTrip(c.minTs, bytes, at);
    I64RoundTrip(c.maxTs, bytes, at + 8);
    U32RoundTrip(count, bytes, at + 16);
    U32RoundTrip(c.formatVersion, bytes, at + 20);
    U32RoundTrip(crc, bytes, at + 24);
    U32RoundTrip(c.windowCount, bytes, at + 28);
  }

  lemma {:induction false} MetaCanonical(bytes: seq<byte>, at: nat, entries: seq<Entry>)
    requires at + META_LEN == |bytes|
    ensures var c := Catalog(entries, I64At(bytes, at), I64At(bytes, at + 8), U32At(bytes, at + 20),
                             U32At(bytes, at + 28));
            MetaBytes(c, U32At(bytes, at + 16), U32At(bytes, at + META_CRC_OFFSET)) == bytes[at..]
  {
    FieldsCanonical(bytes, at);
    FieldsCanonical(bytes, at + 8);
    FieldsCanonical(bytes, at + 16);
    FieldsCanonical(bytes, at + 20);
    FieldsCanonical(bytes, at + 24);
    FieldsCanonical(bytes, at + 28);
    assert bytes[at..at + 8] + bytes[at + 8..at + 16] + bytes[at + 16..at + 20] + bytes[at + 20..at + 24]
           + bytes[at + 24..at + 28] + bytes[at + 28..at + 32] == bytes[at..];
  }

  /** Blanking the stored checksum restores the bytes it was computed over. */
  lemma {:induction false} ZeroedBlock(c: Catalog, crc: u32)
    requires |c.entries| <= U32_MAX
    ensures var block := EntriesBytes(c.entries) + MetaBytes(c, |c.entries|, crc);
            ZeroedField(block, |block| - META_LEN + META_CRC_OFFSET)
            == EntriesBytes(c.entries) + MetaBytes(c, |c.entries|, 0)
  {
    var entries, meta := EntriesBytes(c.entries), MetaBytes(c, |c.entries|, crc);
    var block := entries + meta;
    var at := |block| - META_LEN + META_CRC_OFFSET;
    MetaCrcPatch(c, |c.entries|, crc);
    var head := I64(c.minTs) + I64(c.maxTs) + U32(|c.entries|) + U32(c.formatVersion);
    assert meta == head + U32(crc) + U32(c.windowCount);
    assert block[..at] == entries + head && block[at + 4..] == U32(c.windowCount);
    ZeroBytes();
    assert ZeroedField(block, at) == entries + (head + U32(0) + U32(c.windowCount));
  }

  lemma {:induction false} ZeroBytes()
    ensures U32(0) == [0, 0, 0, 0]
  {
    assert Le(0, 1) == [0] && Le(0, 2) == [0, 0] && Le(0, 3) == [0, 0, 0];
  }

  // ----- main results -----

  /** Decoding what was encoded gives the catalog back. */
  lemma {:induction false} CatalogRoundTrip(c: Catalog)
    requires |c.entries| <= U32_MAX
    ensures Decode(Block(c)) == Ok(c)
  {
    hide U32At, I64At, Checksum, ZeroedField, DecodeEntries, EntriesBytes, MetaBytes, Decode;
    var block, n := Block(c), |c.entries|;
    var metaAt := ENTRY_LEN * n;
    ZeroedBlock(c, BlockCrc(c));
    assert block[metaAt..] == MetaBytes(c, n, BlockCrc(c)) && block[..metaAt] == EntriesBytes(c.entries);
    MetaFields(block, metaAt, c, n, BlockCrc(c));
    EntriesRoundTrip(c.entries);
    DecodeOfFields(block, c);
  }

  /** The decoder's checks, for a block whose fields are known. */
  lemma {:induction false} DecodeOfFields(bytes: seq<byte>, c: Catalog)
    requires |c.entries| <= U32_MAX && |bytes| == ENTRY_LEN * |c.entries| + META_LEN
    requires var at := ENTRY_LEN * |c.entries|;
             && I64At(bytes, at) == c.minTs && I64At(bytes, at + 8) == c.maxTs
             && U32At(bytes, at + 16) == |c.entries|
             && U32At(bytes, at + 20) == c.formatVersion && U32At(bytes, at + 28) == c.windowCount
             && U32At(bytes, at + META_CRC_OFFSET) == Checksum(ZeroedField(bytes, at + META_CRC_OFFSET))
             && DecodeEntries(bytes[..at], |c.entries|) == c.entries
    ensures Decode(bytes) == Ok(c)
  {
    hide U32At, I64At, Checksum, ZeroedField, DecodeEntries;
    assert (|bytes| - META_LEN) / ENTRY_LEN == |c.entries|;
    assert Decode(bytes) == DecodeCounted(bytes, |c.entries|);
  }

  /** The decoder accepts only canonical bytes: an accepted block is the encoding of what it
      decodes to. */
  lemma {:induction false} CatalogCanonical(bytes: seq<byte>)
    requires Decode(bytes).Ok?
    ensures |Decode(bytes).value.entries| <= U32_MAX && Block(Decode(bytes).value) == bytes
  {
    hide Checksum, MetaBytes, EntriesBytes, ZeroedField, U32At, I64At, DecodeEntries;
    var c := Decode(bytes).value;
    var n := (|bytes| - META_LEN) / ENTRY_LEN;
    var metaAt := ENTRY_LEN * n;
    EntriesCanonical(bytes[..metaAt], n);
    MetaCanonical(bytes, metaAt, c.entries);
    assert bytes[..metaAt] + bytes[metaAt..] == bytes;
    assert bytes == EntriesBytes(c.entries) + MetaBytes(c, n, U32At(bytes, metaAt + META_CRC_OFFSET));
    ZeroedBlock(c, U32At(bytes, metaAt + META_CRC_OFFSET));
  }

  /** Which blocks are accepted, and which refusal the others get. */
  lemma {:induction false} DecodesExactly(bytes: seq<byte>)
    ensures |bytes| < 32 || |bytes| % 32 != 0 ==> Decode(bytes) == Err(BadCatalogLen(|bytes|))
    ensures 32 <= |bytes| <= 0xffff_ffff && |bytes| % 32 == 0 ==>
              var at, entries := |bytes| - 32, |bytes| / 32 - 1;
              var stored, computed := U32At(bytes, at + 24), Checksum(ZeroedField(bytes, at + 24));
              if U32At(bytes, at + 16) != entries then
                Decode(bytes) == Err(EntryCountMismatch(U32At(bytes, at + 16), entries))
              else if stored != computed then Decode(bytes) == Err(BadCrc(stored, computed))
              else Decode(bytes).Ok?
  {
    hide Checksum, ZeroedField, U32At, I64At, DecodeEntries;
    assert (|bytes| - 32) % 32 == |bytes| % 32;
  }

  /** No burst in an accepted block is accepted, beside its stored checksum or within it. */
  lemma {:induction false} CatalogBurstRejected(bytes: seq<byte>, changed: seq<byte>, at: nat)
    requires Decode(bytes).Ok? && BurstBeside(bytes, changed, at, |bytes| - 8)
    ensures Decode(changed).Err?
  {
    hide Decode, Checksum, ZeroedField, FromLe;
    AcceptedCrc(bytes);
    SelfCoveringField(bytes, changed, at, |bytes| - 8);
    if Decode(changed).Ok? { AcceptedCrc(changed); }
  }

  /** In particular, no single-byte change of an accepted block is accepted. */
  lemma {:induction false} CatalogByteChangeRejected(bytes: seq<byte>, i: nat, b: byte)
    requires Decode(bytes).Ok? && i < |bytes| && b != bytes[i]
    ensures Decode(bytes[i := b]).Err?
  {
    hide Decode, BurstBeside;
    AcceptedCrc(bytes);
    ByteIsBurst(bytes, i, b, |bytes| - 8);
    CatalogBurstRejected(bytes, bytes[i := b], i);
  }

  /** Acceptance pins the stored checksum to the rest of the block. */
  lemma {:induction false} AcceptedCrc(bytes: seq<byte>)
    requires Decode(bytes).Ok?
    ensures |bytes| >= META_LEN && FromLe(bytes[|bytes| - 8..|bytes| - 4]) == Checksum(ZeroedField(bytes, |bytes| - 8))
  {
    hide Checksum;
  }

  lemma {:induction false} TailRoundTrip(catalogLen: u32, bytes: seq<byte>)
    requires |bytes| == TAIL_INDEX_LEN
    ensures U32At(TailBytes(catalogLen), 0) == catalogLen && TailBytes(catalogLen)[4..] == [0x5a, 0x4d, 0x53, 0x31]
    ensures DecodeTail(TailBytes(catalogLen)) == Ok(catalogLen)
    ensures DecodeTail(bytes).Ok? ==> TailBytes(DecodeTail(bytes).value) == bytes
  {
    U32RoundTrip(catalogLen, TailBytes(catalogLen), 0);
    FieldsCanonical(bytes, 0);
    assert bytes[0..4] + bytes[4..] == bytes;
  }

  /** What a reader does from the end of a segment: the tail index, then the block before it. */
  function ReadFromEnd(file: seq<byte>): Result<Catalog> {
    if |file| < TAIL_INDEX_LEN then Err(BadCatalogLen(|file|))
    else match DecodeTail(file[|file| - TAIL_INDEX_LEN..])
         case Err(e) => Err(e)
         case Ok(len) =>
           if len + TAIL_INDEX_LEN > |file| then Err(BadCatalogLen(|file|))
           else Decode(file[|file| - TAIL_INDEX_LEN - len..|file| - TAIL_INDEX_LEN])
  }

  /** Whatever bodies precede it, the written catalog is the one read back. */
  lemma {:induction false} ReadBackAfterAnyBody(body: seq<byte>, c: Catalog)
    requires Encodable(c)
    ensures ReadFromEnd(body + Block(c) + TailBytes(EncodedLen(c))) == Ok(c)
  {
    var file := body + Block(c) + TailBytes(EncodedLen(c));
    TailRoundTrip(EncodedLen(c), TailBytes(EncodedLen(c)));
    CatalogRoundTrip(c);
    assert file[|file| - TAIL_INDEX_LEN..] == TailBytes(EncodedLen(c));
    assert file[|body|..|file| - TAIL_INDEX_LEN] == Block(c);
  }
}
