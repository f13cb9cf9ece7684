/** What the derived-index container guarantees: round trip, canonical bytes, corruption detection
    and agreement of targeted reads with freshly built blocks. */
module IndexRoundTrip {
  import opened Machine
  import opened Bytes
  import opened Crc
  import opened IndexCodec
  import opened IndexFile

  // ----- well-formed tables -----

  /** Where body `k` starts: the lengths before it. */
  function Offset(table: seq<TocEntry>, k: nat): nat
    requires k <= |table|
  {
    if k == 0 then 0 else Offset(table, k - 1) + table[k - 1].len
  }

  predicate GoodEntry(table: seq<TocEntry>, i: nat)
    requires i < |table|
  {
    && 1 <= table[i].key.kind <= 7
    && table[i].offset == Offset(table, i) && Offset(table, i + 1) <= U32_MAX
    && (i > 0 ==> KeyBefore(table[i - 1].key, table[i].key))
  }

  /** The first `n` entries: known kinds, increasing keys, contiguous bodies. */
  predicate GoodTable(table: seq<TocEntry>, n: nat)
    requires n <= |table|
  {
    forall i :: 0 <= i < n ==> GoodEntry(table, i)
  }

  lemma {:induction false} OffsetsGrow(table: seq<TocEntry>, k: nat, n: nat)
    requires k <= n <= |table|
    ensures Offset(table, k) <= Offset(table, n)
  {
    if k >= n {
    } else {
      OffsetsGrow(table, k, n - 1);
    }
  }

  lemma {:induction false} OffsetOfPrefix(a: seq<TocEntry>, b: seq<TocEntry>, k: nat)
    requires a <= b && k <= |a|
    ensures Offset(a, k) == Offset(b, k)
  {
    if k == 0 {
    } else {
      OffsetOfPrefix(a, b, k - 1);
    }
  }

  lemma {:induction false} GoodPrefix(a: seq<TocEntry>, b: seq<TocEntry>)
    requires a <= b && GoodTable(a, |a|)
    ensures GoodTable(b, |a|)
  {
    forall i | 0 <= i < |a|
      ensures GoodEntry(b, i)
    {
      assert GoodEntry(a, i);
      OffsetOfPrefix(a, b, i);
      OffsetOfPrefix(a, b, i + 1);
    }
  }

  // ----- parsing is exactly well-formedness -----

  function Entries(raw: seq<byte>, n: nat): (table: seq<TocEntry>)
    requires ENTRY_LEN * n <= |raw|
    ensures |table| == n && forall i :: 0 <= i < n ==> table[i] == EntryAt(raw, i)
  {
    seq(n, i requires 0 <= i < n => EntryAt(raw, i))
  }

  lemma {:induction false} ParseIsGood(raw: seq<byte>, n: nat, table: seq<TocEntry>)
    requires ENTRY_LEN * n <= |raw| && n <= |table| && forall i :: 0 <= i < n ==> table[i] == EntryAt(raw, i)
    ensures ParseTable(raw, n)
         == if GoodTable(table, n) then Ok(Parsed(table[..n], Offset(table, n))) else Err(BadLayout)
  {
    if n == 0 {
    } else {
      ParseIsGood(raw, n - 1, table);
      ParseStep(raw, n, table);
    }
  }

  lemma {:induction false} ParseStep(raw: seq<byte>, n: nat, table: seq<TocEntry>)
    requires 0 < n && ENTRY_LEN * n <= |raw| && n <= |table| && forall i :: 0 <= i < n ==> table[i] == EntryAt(raw, i)
    requires ParseTable(raw, n - 1)
          == if GoodTable(table, n - 1) then Ok(Parsed(table[..n - 1], Offset(table, n - 1))) else Err(BadLayout)
    ensures ParseTable(raw, n)
         == if GoodTable(table, n) then Ok(Parsed(table[..n], Offset(table, n))) else Err(BadLayout)
  {
    hide EntryAt, KeyBefore;
    assert table[..n] == table[..n - 1] + [table[n - 1]];
    assert EntryFits(raw, n - 1, Offset(table, n - 1)) <==> GoodEntry(table, n - 1);
    assert GoodTable(table, n) <==> GoodTable(table, n - 1) && GoodEntry(table, n - 1);
  }

  lemma {:induction false} SubSlice(raw: seq<byte>, at: nat, lo: nat, hi: nat)
    requires lo <= hi <= 16 && at + 16 <= |raw|
    ensures raw[at..at + 16][lo..hi] == raw[at + lo..at + hi]
  {
    var a, b := raw[at..at + 16][lo..hi], raw[at + lo..at + hi];
    assert forall k :: 0 <= k < hi - lo ==> a[k] == b[k];
  }

  lemma {:induction false} WrittenEntry(raw: seq<byte>, i: nat, e: TocEntry)
    requires ENTRY_LEN * (i + 1) <= |raw| && raw[ENTRY_LEN * i..ENTRY_LEN * (i + 1)] == EntryBytes(e)
    ensures EntryAt(raw, i) == e
  {
    var at, b := ENTRY_LEN * i, EntryBytes(e);
    assert b[0..4] == U32(e.key.kind) && b[4..8] == U32(e.key.typeId);
    assert b[8..12] == U32(e.offset) && b[12..16] == U32(e.len);
    SubSlice(raw, at, 0, 4);
    SubSlice(raw, at, 4, 8);
    SubSlice(raw, at, 8, 12);
    SubSlice(raw, at, 12, 16);
    U32RoundTrip(e.key.kind, raw, at);
    U32RoundTrip(e.key.typeId, raw, at + 4);
    U32RoundTrip(e.offset, raw, at + 8);
    U32RoundTrip(e.len, raw, at + 12);
  }

  lemma {:induction false} TableSlice(table: seq<TocEntry>, i: nat)
    requires i < |table|
    ensures TableBytes(table)[ENTRY_LEN * i..ENTRY_LEN * (i + 1)] == EntryBytes(table[i])
  {
    var n := |table| - 1;
    if i >= n {
    } else {
      TableSlice(table[..n], i);
      assert TableBytes(table)[ENTRY_LEN * i..ENTRY_LEN * (i + 1)]
          == TableBytes(table[..n])[ENTRY_LEN * i..ENTRY_LEN * (i + 1)];
    }
  }

  lemma {:induction false} EntriesOfTable(table: seq<TocEntry>)
    ensures Entries(TableBytes(table), |table|) == table
  {
    forall i | 0 <= i < |table|
      ensures EntryAt(TableBytes(table), i) == table[i]
    {
      TableSlice(table, i);
      WrittenEntry(TableBytes(table), i, table[i]);
    }
  }

  lemma {:induction false} EntryCanonical(raw: seq<byte>, i: nat)
    requires ENTRY_LEN * (i + 1) <= |raw|
    ensures EntryBytes(EntryAt(raw, i)) == raw[ENTRY_LEN * i..ENTRY_LEN * (i + 1)]
  {
    hide U32, U32At;
    var at := ENTRY_LEN * i;
    FieldsCanonical(raw, at);
    FieldsCanonical(raw, at + 4);
    FieldsCanonical(raw, at + 8);
    FieldsCanonical(raw, at + 12);
    Joined(raw, at, at + 4, at + 8);
    Joined(raw, at, at + 8, at + 12);
    Joined(raw, at, at + 12, at + 16);
  }

  lemma {:induction false} Joined(raw: seq<byte>, a: nat, b: nat, c: nat)
    requires a <= b <= c <= |raw|
    ensures raw[a..b] + raw[b..c] == raw[a..c]
  {
  }

  lemma {:induction false} TableOfEntries(raw: seq<byte>, n: nat)
    requires ENTRY_LEN * n <= |raw|
    ensures TableBytes(Entries(raw, n)) == raw[..ENTRY_LEN * n]
  {
    hide EntryAt, EntryBytes, Entries;
    if n == 0 {
    } else {
      TableOfEntries(raw, n - 1);
      EntryCanonical(raw, n - 1);
      assert Entries(raw, n)[..n - 1] == Entries(raw, n - 1);
      Joined(raw, 0, ENTRY_LEN * (n - 1), ENTRY_LEN * n);
      assert raw[..ENTRY_LEN * (n - 1)] == raw[0..ENTRY_LEN * (n - 1)] && raw[..ENTRY_LEN * n] == raw[0..ENTRY_LEN * n];
    }
  }

  // ----- the encoder's table describes its bodies -----

  /** Table entry `i` names block `i` and where its body is. */
  ghost predicate Describes(built: Built, blocks: seq<Block>, i: nat)
    requires i < |blocks|
  {
    i < |built.table|
    && var e := built.table[i];
       e.key == blocks[i].Key() && e.offset + e.len <= |built.body|
       && blocks[i].Encode() == Ok(built.body[e.offset..e.offset + e.len])
  }

  ghost predicate WellBuilt(built: Built, blocks: seq<Block>, total: nat) {
    |built.table| == |blocks| && GoodTable(built.table, |blocks|) && Offset(built.table, |blocks|) == |built.body|
    && (blocks != [] ==> HEADER_LEN + ENTRY_LEN * total + |built.body| <= MAX_INDEX_BYTES)
    && forall i :: 0 <= i < |blocks| ==> Describes(built, blocks, i)
  }

  lemma {:induction false} BuildIsWell(blocks: seq<Block>, total: nat)
    requires Build(blocks, total).Ok?
    ensures WellBuilt(Build(blocks, total).value, blocks, total)
  {
    if blocks == [] {
    } else {
      var n := |blocks| - 1;
      BuildIsWell(blocks[..n], total);
      assert blocks[..n + 1] == blocks;
      AppendedIsWell(blocks, total, Build(blocks[..n], total).value, Build(blocks, total).value);
    }
  }

  lemma {:induction false} AppendedIsWell(blocks: seq<Block>, total: nat, before: Built, built: Built)
    requires blocks != [] && WellBuilt(before, blocks[..|blocks| - 1], total)
    requires var n := |blocks| - 1;
             Appended(before, InOrder(blocks, n), blocks[n].Key(), blocks[n].Encode(), total) == Ok(built)
    ensures WellBuilt(built, blocks, total)
  {
    hide Block.Encode, Block.Key, KeyBefore;
    var n := |blocks| - 1;
    KindsAreKnown(blocks[n]);
    DescribesStays(before, built, blocks, n);
    GoodPrefix(before.table, built.table);
    OffsetOfPrefix(before.table, built.table, n);
    if n > 0 { assert Describes(built, blocks, n - 1); }
    LastIsGood(built.table, n);
  }

  lemma {:induction false} DescribesStays(before: Built, built: Built, blocks: seq<Block>, n: nat)
    requires n + 1 == |blocks| && |before.table| == n && blocks[n].Encode().Ok?
    requires |before.body| <= U32_MAX && |blocks[n].Encode().value| <= U32_MAX
    requires built.table == before.table + [TocEntry(blocks[n].Key(), |before.body|, |blocks[n].Encode().value|)]
    requires built.body == before.body + blocks[n].Encode().value
    requires forall i :: 0 <= i < n ==> Describes(before, blocks[..n], i)
    ensures forall i :: 0 <= i < |blocks| ==> Describes(built, blocks, i)
  {
    hide Block.Encode, Block.Key;
    forall i | 0 <= i < |blocks|
      ensures Describes(built, blocks, i)
    {
      if i < n {
        assert Describes(before, blocks[..n], i);
        var e := before.table[i];
        assert built.body[e.offset..e.offset + e.len] == before.body[e.offset..e.offset + e.len];
      } else {
        assert built.body[|before.body|..|built.body|] == blocks[n].Encode().value;
      }
    }
  }

  lemma {:induction false} LastIsGood(table: seq<TocEntry>, n: nat)
    requires n + 1 == |table| && GoodTable(table, n) && GoodEntry(table, n)
    ensures GoodTable(table, |table|)
  {
  }

  lemma {:induction false} KindsAreKnown(b: Block)
    ensures 1 <= b.Key().kind <= 7
  {
  }

  // ----- reading blocks back -----

  /** The wanted blocks, in order. */
  function Selected(blocks: seq<Block>, wanted: Key -> bool): seq<Block> {
    if blocks == [] then []
    else
      var n := |blocks| - 1;
      Selected(blocks[..n], wanted) + (if wanted(blocks[n].Key()) then [blocks[n]] else [])
  }

  predicate AllAdmitted(blocks: seq<Block>, wanted: Key -> bool) {
    forall i :: 0 <= i < |blocks| ==> wanted(blocks[i].Key()) ==> Admitted(blocks[i].Key())
  }

  lemma {:induction false} SelectedAll(blocks: seq<Block>)
    ensures Selected(blocks, _ => true) == blocks
  {
    if blocks == [] {
    } else {
      SelectedAll(blocks[..|blocks| - 1]);
    }
  }

  ghost predicate FileHolds(file: seq<byte>, meta: Meta, blocks: seq<Block>) {
    |meta.table| == |blocks|
    && forall i :: 0 <= i < |blocks| ==> HoldsBlock(file, meta, blocks, i)
  }

  ghost predicate HoldsBlock(file: seq<byte>, meta: Meta, blocks: seq<Block>, i: nat)
    requires i < |blocks| == |meta.table|
  {
    meta.table[i].key == blocks[i].Key()
    && blocks[i].Encode().Ok? && BodyOf(file, meta, meta.table[i]) == blocks[i].Encode()
  }

  /** Reading succeeds exactly when the decoder admits every wanted block. */
  lemma {:induction false} ReadHeldBlocks(file: seq<byte>, meta: Meta, blocks: seq<Block>, wanted: Key -> bool,
                                        n: nat)
    requires n <= |blocks| && FileHolds(file, meta, blocks)
    ensures ReadBlocks(file, meta, wanted, n).Ok? <==> AllAdmitted(blocks[..n], wanted)
    ensures AllAdmitted(blocks[..n], wanted) ==> ReadBlocks(file, meta, wanted, n) == Ok(Selected(blocks[..n], wanted))
  {
    hide Block.Encode, Block.Key, Admitted, DecodeCounted, DecodeFindings;
    if n == 0 {
    } else {
      var last := blocks[n - 1];
      ReadHeldBlocks(file, meta, blocks, wanted, n - 1);
      assert HoldsBlock(file, meta, blocks, n - 1);
      assert blocks[..n][..n - 1] == blocks[..n - 1];
      assert AllAdmitted(blocks[..n], wanted) <==>
             AllAdmitted(blocks[..n - 1], wanted) && (wanted(last.Key()) ==> Admitted(last.Key())) by {
        assert forall i :: 0 <= i < n - 1 ==> blocks[..n][i] == blocks[..n - 1][i];
      }
      if Admitted(last.Key()) { BlockRoundTrip(last); }
      assert Selected(blocks[..n - 1], wanted) + [] == Selected(blocks[..n - 1], wanted);
      assert blocks[..n][n - 1] == last;
    }
  }

  lemma {:induction false} FileParts(count: u32, crc: u32, rest: seq<byte>)
    ensures var file := FileBytes(count, crc, rest);
            |file| == HEADER_LEN + |rest| && file[..8] == MAGIC && U32At(file, 8) == count
            && U32At(file, CHECKSUM_AT) == crc && file[HEADER_LEN..] == rest && file[..CHECKSUM_AT] == Preamble(count)
  {
    var file := FileBytes(count, crc, rest);
    assert file[8..12] == U32(count) && file[12..16] == U32(crc);
    U32RoundTrip(count, file, 8);
    U32RoundTrip(crc, file, 12);
  }

  /** An encoded file passes every container check and holds its blocks. */
  lemma {:induction false} EncodedFile(blocks: seq<Block>, file: seq<byte>)
    requires EncodeIndex(blocks) == Ok(file)
    ensures CheckedMeta(file).Ok? && FileHolds(file, CheckedMeta(file).value, blocks)
    ensures |file| >= HEADER_LEN && CheckedMeta(file).value.expectedChecksum == U32At(file, CHECKSUM_AT)
  {
    hide Block.Encode, Block.Key, Build, TableBytes, GoodTable, Checksum, FileBytes, CheckedMeta, ParseTable;
    var n, built := |blocks|, Build(blocks, |blocks|).value;
    BuildIsWell(blocks, n);
    EntriesOfTable(built.table);
    ParseIsGood(TableBytes(built.table), n, built.table);
    assert built.table[..n] == built.table;
    if n == 0 { assert Offset(built.table, 0) == 0; }
    FileParts(n, FileCrc(n, TableBytes(built.table) + built.body), TableBytes(built.table) + built.body);
    EncodedMeta(file, n, built);
    DescribedIsHeld(file, CheckedMeta(file).value, built, blocks);
  }

  lemma {:induction false} DescribedIsHeld(file: seq<byte>, meta: Meta, built: Built, blocks: seq<Block>)
    requires meta.table == built.table && |built.table| == |blocks|
    requires meta.bodyAt <= |file| && file[meta.bodyAt..] == built.body
    requires forall i :: 0 <= i < |blocks| ==> Describes(built, blocks, i)
    ensures FileHolds(file, meta, blocks)
  {
    hide Block.Encode, Block.Key;
    forall i | 0 <= i < |blocks|
      ensures HoldsBlock(file, meta, blocks, i)
    {
      assert Describes(built, blocks, i);
      var e, at := built.table[i], meta.bodyAt;
      assert file[at + e.offset..at + e.offset + e.len] == file[at..][e.offset..e.offset + e.len];
    }
  }

  /** A file laid out like this passes the header, table, length and checksum checks. */
  lemma {:induction false} EncodedMeta(file: seq<byte>, n: u32, built: Built)
    requires n == |built.table| <= MAX_BLOCKS && HEADER_LEN + ENTRY_LEN * n + |built.body| <= MAX_INDEX_BYTES
    requires ParseTable(TableBytes(built.table), n) == Ok(Parsed(built.table, |built.body|))
    requires var rest := TableBytes(built.table) + built.body; file == FileBytes(n, FileCrc(n, rest), rest)
    ensures var meta := Meta(U32At(file, CHECKSUM_AT), built.table, HEADER_LEN + ENTRY_LEN * n);
            CheckedMeta(file) == Ok(meta) && file[meta.bodyAt..] == built.body
  {
    hide Checksum, ParseTable, TableBytes;
    var rest := TableBytes(built.table) + built.body;
    FileParts(n, FileCrc(n, rest), rest);
    var bodyAt := HEADER_LEN + ENTRY_LEN * n;
    assert file[HEADER_LEN..bodyAt] == rest[..ENTRY_LEN * n] == TableBytes(built.table);
    assert file[bodyAt..] == rest[ENTRY_LEN * n..];
    assert file[..CHECKSUM_AT] + file[HEADER_LEN..] == Preamble(n) + rest;
  }

  // ----- main results -----

  /** An encoded index decodes to itself exactly when every block's layout is one the decoder
      admits. */
  lemma {:induction false} IndexRoundTrips(blocks: seq<Block>)
    requires EncodeIndex(blocks).Ok?
    ensures DecodeIndex(EncodeIndex(blocks).value) == Ok(blocks) <==> AllAdmitted(blocks, _ => true)
  {
    var file := EncodeIndex(blocks).value;
    EncodedFile(blocks, file);
    var all := _ => true;
    ReadHeldBlocks(file, CheckedMeta(file).value, blocks, all, |blocks|);
    SelectedAll(blocks);
    assert blocks[..|blocks|] == blocks;
  }

  /** A targeted read of a published file and a selection from the freshly built index answer the
      same blocks under the same checksum. */
  lemma {:induction false} TargetedReadAgrees(blocks: seq<Block>, keys: set<Key>)
    requires EncodeIndex(blocks).Ok? && AllAdmitted(blocks, k => k in keys)
    ensures var file := EncodeIndex(blocks).value;
            |file| >= HEADER_LEN
            && DecodeTarget(file, keys) == Ok(Targeted(U32At(file, CHECKSUM_AT), Selected(blocks, k => k in keys)))
  {
    var file := EncodeIndex(blocks).value;
    EncodedFile(blocks, file);
    var wanted := k => k in keys;
    ReadHeldBlocks(file, CheckedMeta(file).value, blocks, wanted, |blocks|);
    assert blocks[..|blocks|] == blocks;
  }

  /** Reading the wanted entries of a readable file is selecting from all of its blocks. */
  lemma {:induction false} ReadWanted(file: seq<byte>, meta: Meta, wanted: Key -> bool, n: nat)
    requires n <= |meta.table| && ReadBlocks(file, meta, _ => true, n).Ok?
    ensures ReadBlocks(file, meta, wanted, n) == Ok(Selected(ReadBlocks(file, meta, _ => true, n).value, wanted))
  {
    hide Block.Key, DecodeBlock, Block.Encode;
    if n == 0 {
    } else {
      var init, last := ReadBlocks(file, meta, _ => true, n - 1).value, ReadBlock(file, meta, meta.table[n - 1]).value;
      ReadWanted(file, meta, wanted, n - 1);
      BlockCanonical(meta.table[n - 1].key, BodyOf(file, meta, meta.table[n - 1]).value);
      assert ReadBlocks(file, meta, _ => true, n).value == init + [last];
      assert (init + [last])[..|init|] == init;
      assert Selected(init, wanted) + [] == Selected(init, wanted);
    }
  }

  /** On any accepted file, whoever wrote it, a targeted read is a selection from the full read,
      under the stored checksum. */
  lemma {:induction false} TargetedReadSelects(file: seq<byte>, keys: set<Key>)
    requires DecodeIndex(file).Ok?
    ensures DecodeTarget(file, keys)
         == Ok(Targeted(CheckedMeta(file).value.expectedChecksum, Selected(DecodeIndex(file).value, k => k in keys)))
  {
    hide CheckedMeta, ReadBlocks, Selected;
    var meta := CheckedMeta(file).value;
    ReadWanted(file, meta, k => k in keys, |meta.table|);
  }

  // ----- accepted bytes are canonical -----

  /** Rebuilding the first `k` held blocks gives the first `k` table entries and their bodies. */
  lemma {:induction false} Rebuild(file: seq<byte>, meta: Meta, blocks: seq<Block>, k: nat)
    requires |file| <= MAX_INDEX_BYTES && meta.bodyAt == HEADER_LEN + ENTRY_LEN * |meta.table|
    requires GoodTable(meta.table, |meta.table|) && meta.bodyAt + Offset(meta.table, |meta.table|) == |file|
    requires FileHolds(file, meta, blocks) && k <= |blocks| == |meta.table|
    ensures meta.bodyAt + Offset(meta.table, k) <= |file|
    ensures Build(blocks[..k], |blocks|)
         == Ok(Built(meta.table[..k], file[meta.bodyAt..meta.bodyAt + Offset(meta.table, k)]))
  {
    hide Build, GoodTable, FileHolds, Offset;
    OffsetsGrow(meta.table, k, |meta.table|);
    if k > 0 {
      Rebuild(file, meta, blocks, k - 1);
      OffsetsGrow(meta.table, k - 1, k);
      RebuildStep(file, meta, blocks, k - 1);
    } else {
      RebuildNothing(file, meta, blocks);
    }
  }

  lemma {:induction false} RebuildNothing(file: seq<byte>, meta: Meta, blocks: seq<Block>)
    requires meta.bodyAt <= |file|
    ensures Offset(meta.table, 0) == 0
    ensures Build(blocks[..0], |blocks|)
         == Ok(Built(meta.table[..0], file[meta.bodyAt..meta.bodyAt + Offset(meta.table, 0)]))
  {
    assert blocks[..0] == [] && meta.table[..0] == [] && file[meta.bodyAt..meta.bodyAt + 0] == [];
  }

  lemma {:induction false} RebuildStep(file: seq<byte>, meta: Meta, blocks: seq<Block>, i: nat)
    requires i < |blocks| == |meta.table| && GoodTable(meta.table, |meta.table|) && FileHolds(file, meta, blocks)
    requires meta.bodyAt == HEADER_LEN + ENTRY_LEN * |meta.table|
    requires meta.bodyAt + Offset(meta.table, i) <= meta.bodyAt + Offset(meta.table, i + 1) <= |file| <= MAX_INDEX_BYTES
    requires Build(blocks[..i], |blocks|)
          == Ok(Built(meta.table[..i], file[meta.bodyAt..meta.bodyAt + Offset(meta.table, i)]))
    ensures Build(blocks[..i + 1], |blocks|)
         == Ok(Built(meta.table[..i + 1], file[meta.bodyAt..meta.bodyAt + Offset(meta.table, i + 1)]))
  {
    hide Block.Encode, Block.Key, Build, KeyBefore;
    var before, e := Built(meta.table[..i], file[meta.bodyAt..meta.bodyAt + Offset(meta.table, i)]), meta.table[i];
    assert GoodEntry(meta.table, i) && HoldsBlock(file, meta, blocks, i);
    if i > 0 { assert HoldsBlock(file, meta, blocks, i - 1); }
    assert InOrder(blocks, i);
    BuildStep(blocks, i, |blocks|, before);
    AppendsSlice(file, meta, i, before);
  }

  /** Appending held body `i` to the bodies before it. */
  lemma {:induction false} AppendsSlice(file: seq<byte>, meta: Meta, i: nat, before: Built)
    requires i < |meta.table| && GoodEntry(meta.table, i)
    requires meta.bodyAt == HEADER_LEN + ENTRY_LEN * |meta.table|
    requires meta.bodyAt + Offset(meta.table, i) <= meta.bodyAt + Offset(meta.table, i + 1) <= |file| <= MAX_INDEX_BYTES
    requires before == Built(meta.table[..i], file[meta.bodyAt..meta.bodyAt + Offset(meta.table, i)])
    requires BodyOf(file, meta, meta.table[i]).Ok?
    ensures Appended(before, true, meta.table[i].key, BodyOf(file, meta, meta.table[i]), |meta.table|)
         == Ok(Built(meta.table[..i + 1], file[meta.bodyAt..meta.bodyAt + Offset(meta.table, i + 1)]))
  {
    hide KeyBefore;
    var at, off, e := meta.bodyAt, Offset(meta.table, i), meta.table[i];
    assert file[at..at + off + e.len] == file[at..at + off] + file[at + off..at + off + e.len];
    assert meta.table[..i + 1] == meta.table[..i] + [e];
  }

  lemma {:induction false} DecodedBlocksAreHeld(file: seq<byte>, meta: Meta, n: nat)
    requires n <= |meta.table| && ReadBlocks(file, meta, _ => true, n).Ok?
    ensures |ReadBlocks(file, meta, _ => true, n).value| == n
    ensures forall i :: 0 <= i < n ==>
              ReadBlock(file, meta, meta.table[i]) == Ok(ReadBlocks(file, meta, _ => true, n).value[i])
  {
    hide ReadBlock;
    if n == 0 {
    } else {
      DecodedBlocksAreHeld(file, meta, n - 1);
    }
  }

  /** Some block of transactions in the file stores an absent value as negative zero. */
  predicate StoresNegativeZero(file: seq<byte>)
    requires CheckedMeta(file).Ok?
  {
    var meta := CheckedMeta(file).value;
    exists i :: 0 <= i < |meta.table| && EntryLosesZero(file, meta, meta.table[i])
  }

  predicate EntryLosesZero(file: seq<byte>, meta: Meta, e: TocEntry) {
    BodyOf(file, meta, e).Ok? && LosesZero(e.key, BodyOf(file, meta, e).value)
  }

  /** An accepted file is the encoding of what it decodes to exactly unless one of its transaction
      records stores an absent value as the bits of negative zero. */
  lemma {:induction false} IndexIsCanonical(file: seq<byte>)
    requires DecodeIndex(file).Ok?
    ensures EncodeIndex(DecodeIndex(file).value) == Ok(file) <==> !StoresNegativeZero(file)
  {
    hide FileHolds, EncodeIndex, EntryLosesZero, CheckedMeta, ReadBlocks;
    var blocks, meta := DecodeIndex(file).value, CheckedMeta(file).value;
    DecodedIsHeld(file, meta, blocks);
    if EncodeIndex(blocks) == Ok(file) { EncodedFile(blocks, file); }
    if FileHolds(file, meta, blocks) { HeldFileIsCanonical(file, meta, blocks); }
  }

  /** Such a file exists: it is accepted, and its blocks encode to other bytes. */
  lemma {:induction false} NegativeZeroIsAccepted()
    ensures exists file :: DecodeIndex(file).Ok? && EncodeIndex(DecodeIndex(file).value) != Ok(file)
  {
    hide EncodeIndex, Checksum, TableBytes, ParseTable, DecodeCounted, HasNegativeZero, NegativeZeroRecord;
    var body, e := U32(1) + NegativeZeroRecord(0, 0), TocEntry(SeriesKey(4, 1_005_001), 0, 25);
    var table, built := [e], Built([e], body);
    NegativeZeroBlock(0, 0);
    EntriesOfTable(table);
    assert Offset(table, 0) == 0 && Offset(table, 1) == 25 && GoodEntry(table, 0);
    ParseIsGood(TableBytes(table), 1, table);
    assert table[..1] == table;
    var rest := TableBytes(table) + body;
    var file := FileBytes(1, FileCrc(1, rest), rest);
    EncodedMeta(file, 1, built);
    var meta := CheckedMeta(file).value;
    assert file[meta.bodyAt..meta.bodyAt + 25] == file[meta.bodyAt..][..25] == body;
    assert BodyOf(file, meta, e) == Ok(body);
    assert ReadBlocks(file, meta, _ => true, 0) == Ok([]);
    assert ReadBlock(file, meta, e).Ok?;
    assert EntryLosesZero(file, meta, meta.table[0]);
    IndexIsCanonical(file);
  }

  lemma {:induction false} HeldFileIsCanonical(file: seq<byte>, meta: Meta, blocks: seq<Block>)
    requires CheckedMeta(file) == Ok(meta) && |blocks| == |meta.table| && FileHolds(file, meta, blocks)
    ensures EncodeIndex(blocks) == Ok(file)
  {
    hide FileHolds, Build, EncodeIndex, CheckedMeta, GoodTable, TableBytes, CoveredCrc, Offset;
    AcceptedMeta(file);
    var n := |meta.table|;
    Rebuild(file, meta, blocks, n);
    assert blocks[..n] == blocks && meta.table[..n] == meta.table;
    Reencode(file, meta, blocks);
  }

  lemma {:induction false} DecodedIsHeld(file: seq<byte>, meta: Meta, blocks: seq<Block>)
    requires ReadBlocks(file, meta, _ => true, |meta.table|) == Ok(blocks)
    ensures |blocks| == |meta.table|
    ensures FileHolds(file, meta, blocks)
       <==> forall i :: 0 <= i < |meta.table| ==> !EntryLosesZero(file, meta, meta.table[i])
  {
    hide Block.Encode, Block.Key, ReadBlocks, DecodeBlock, LosesZero;
    DecodedBlocksAreHeld(file, meta, |meta.table|);
    forall i | 0 <= i < |blocks|
      ensures HoldsBlock(file, meta, blocks, i) <==> !EntryLosesZero(file, meta, meta.table[i])
    {
      assert ReadBlock(file, meta, meta.table[i]) == Ok(blocks[i]);
      BlockCanonical(meta.table[i].key, BodyOf(file, meta, meta.table[i]).value);
    }
  }

  lemma {:induction false} Reencode(file: seq<byte>, meta: Meta, blocks: seq<Block>)
    requires CheckedMeta(file) == Ok(meta) && |blocks| == |meta.table| <= MAX_BLOCKS
    requires HEADER_LEN <= meta.bodyAt <= |file|
    requires Build(blocks, |blocks|) == Ok(Built(meta.table, file[meta.bodyAt..|file|]))
    requires TableBytes(meta.table) == file[HEADER_LEN..meta.bodyAt]
    ensures EncodeIndex(blocks) == Ok(file)
  {
    hide Build, TableBytes, Checksum, ParseTable;
    AcceptedMeta(file);
    assert TableBytes(meta.table) + file[meta.bodyAt..|file|] == file[HEADER_LEN..];
    Reassemble(file, |blocks|);
  }

  lemma {:induction false} Reassemble(file: seq<byte>, count: u32)
    requires |file| >= HEADER_LEN && file[..8] == MAGIC && U32At(file, 8) == count
    requires CoveredCrc(file) == U32At(file, CHECKSUM_AT)
    ensures FileBytes(count, FileCrc(count, file[HEADER_LEN..]), file[HEADER_LEN..]) == file
  {
    hide Checksum;
    FieldsCanonical(file, 8);
    FieldsCanonical(file, 12);
    assert file[..CHECKSUM_AT] == file[..8] + file[8..12];
    assert file[..8] + file[8..12] + file[12..16] + file[HEADER_LEN..] == file;
  }

  // ----- what the encoder accepts, spelled out -----

  function BodyLen(blocks: seq<Block>): nat {
    if blocks == [] then 0
    else
      var n := |blocks| - 1;
      BodyLen(blocks[..n]) + (if blocks[n].Encode().Ok? then |blocks[n].Encode().value| else 0)
  }

  /** Kinds increase, and types within a kind. */
  predicate KeysIncrease(blocks: seq<Block>, i: nat)
    requires 0 < i < |blocks|
  {
    var a, b := blocks[i - 1].Key(), blocks[i].Key();
    a.kind < b.kind || (a.kind == b.kind && a.typeId < b.typeId)
  }

  lemma {:induction false} BuildsExactly(blocks: seq<Block>, total: nat)
    ensures Build(blocks, total).Ok?
       <==> (forall i :: 0 <= i < |blocks| ==> blocks[i].Encode().Ok?)
            && (forall i :: 0 < i < |blocks| ==> KeysIncrease(blocks, i))
            && (blocks == [] || 16 + 16 * total + BodyLen(blocks) <= 8 * 1024 * 1024)
    ensures Build(blocks, total).Ok? ==> |Build(blocks, total).value.body| == BodyLen(blocks)
  {
    hide Block.Encode, Block.Key;
    if blocks == [] {
    } else {
      var n := |blocks| - 1;
      BuildsExactly(blocks[..n], total);
      AddsExactly(blocks, total);
      OneMoreBlock(blocks);
    }
  }

  lemma {:induction false} AddsExactly(blocks: seq<Block>, total: nat)
    requires blocks != []
    requires var init := Build(blocks[..|blocks| - 1], total);
             init.Ok? ==> |init.value.body| == BodyLen(blocks[..|blocks| - 1])
    ensures var n := |blocks| - 1;
            Build(blocks, total).Ok?
            <==> && Build(blocks[..n], total).Ok? && (n > 0 ==> KeysIncrease(blocks, n)) && blocks[n].Encode().Ok?
                 && 16 + 16 * total + BodyLen(blocks) <= 8 * 1024 * 1024
    ensures Build(blocks, total).Ok? ==> |Build(blocks, total).value.body| == BodyLen(blocks)
  {
    hide Block.Encode, Block.Key;
    var n := |blocks| - 1;
    assert InOrder(blocks, n) <==> (n > 0 ==> KeysIncrease(blocks, n));
  }

  lemma {:induction false} OneMoreBlock(blocks: seq<Block>)
    requires blocks != []
    ensures var n := |blocks| - 1;
            (forall i :: 0 <= i < |blocks| ==> blocks[i].Encode().Ok?)
            <==> (forall i :: 0 <= i < n ==> blocks[..n][i].Encode().Ok?) && blocks[n].Encode().Ok?
    ensures var n := |blocks| - 1;
            (forall i :: 0 < i < |blocks| ==> KeysIncrease(blocks, i))
            <==> (forall i :: 0 < i < n ==> KeysIncrease(blocks[..n], i)) && (n > 0 ==> KeysIncrease(blocks, n))
  {
    hide Block.Encode, Block.Key;
    var n := |blocks| - 1;
    forall i | 0 < i < n
      ensures KeysIncrease(blocks[..n], i) <==> KeysIncrease(blocks, i)
    {
    }
    if forall i :: 0 < i < n ==> KeysIncrease(blocks[..n], i) {
      assert forall i :: 0 < i < n ==> KeysIncrease(blocks, i);
    }
  }

  /** An index is encoded exactly when it has at most 39 blocks, every body encodes, the keys
      increase and the file is at most 8 MiB. */
  lemma {:induction false} EncodesExactly(blocks: seq<Block>)
    ensures EncodeIndex(blocks).Ok?
       <==> |blocks| <= 39
            && (forall i :: 0 <= i < |blocks| ==> blocks[i].Encode().Ok?)
            && (forall i :: 0 < i < |blocks| ==> KeysIncrease(blocks, i))
            && 16 + 16 * |blocks| + BodyLen(blocks) <= 8 * 1024 * 1024
  {
    hide Block.Encode, Block.Key, Checksum, TableBytes, Build;
    BuildsExactly(blocks, |blocks|);
  }

  /** The first block that cannot be added decides the error. */
  lemma {:induction false} FirstRefusalDecides(blocks: seq<Block>)
    requires EncodeIndex(blocks).Err? && |blocks| <= 39
    ensures exists i :: 0 <= i < |blocks| && Build(blocks[..i], |blocks|).Ok?
                        && RefusedAt(blocks, i, EncodeIndex(blocks).error)
  {
    hide Block.Encode, Block.Key, Checksum, TableBytes;
    assert blocks[..|blocks|] == blocks;
    BuildRefusal(blocks, |blocks|);
  }

  predicate RefusedAt(blocks: seq<Block>, i: nat, e: Error)
    requires i < |blocks|
  {
    if i > 0 && !KeysIncrease(blocks, i) then e == BadLayout
    else if blocks[i].Encode().Err? then e == blocks[i].Encode().error
    else e == TooLarge && 16 + 16 * |blocks| + BodyLen(blocks[..i + 1]) > 8 * 1024 * 1024
  }

  lemma {:induction false} BuildRefusal(blocks: seq<Block>, n: nat)
    requires n <= |blocks| && Build(blocks[..n], |blocks|).Err?
    ensures exists i :: 0 <= i < |blocks| && Build(blocks[..i], |blocks|).Ok?
                        && RefusedAt(blocks, i, Build(blocks[..n], |blocks|).error)
    ensures n == |blocks| ==> Build(blocks[..n], |blocks|) == Build(blocks, |blocks|)
  {
    hide Block.Encode, Block.Key;
    var k := n - 1;
    assert blocks[..n][..k] == blocks[..k] && (n == |blocks| ==> blocks[..n] == blocks);
    if Build(blocks[..k], |blocks|).Err? {
      BuildRefusal(blocks, k);
    } else {
      BuildsExactly(blocks[..k], |blocks|);
      assert Build(blocks[..k], |blocks|).Ok? && RefusedAt(blocks, k, Build(blocks[..n], |blocks|).error);
    }
  }

  // ----- what the decoder accepts, spelled out -----

  /** The field of table entry `i` at `at` bytes into it. */
  function FieldOf(file: seq<byte>, i: nat, at: nat): u32
    requires at <= 12 && HEADER_LEN + ENTRY_LEN * (i + 1) <= |file|
  {
    U32At(file, HEADER_LEN + ENTRY_LEN * i + at)
  }

  /** Entry `i` of the table follows the one before it, in its key and in its place. */
  predicate EntryFollows(file: seq<byte>, i: nat)
    requires HEADER_LEN + ENTRY_LEN * (i + 1) <= |file|
  {
    && 1 <= FieldOf(file, i, 0) <= 7
    && FieldOf(file, i, 8) as nat + FieldOf(file, i, 12) <= U32_MAX
    && (i == 0 ==> FieldOf(file, 0, 8) == 0)
    && (i > 0 ==>
          && FieldOf(file, i, 8) == FieldOf(file, i - 1, 8) + FieldOf(file, i - 1, 12)
          && (FieldOf(file, i - 1, 0) < FieldOf(file, i, 0)
              || (FieldOf(file, i - 1, 0) == FieldOf(file, i, 0) && FieldOf(file, i - 1, 4) < FieldOf(file, i, 4))))
  }

  predicate TableFollows(table: seq<TocEntry>, i: nat)
    requires i < |table|
  {
    && 1 <= table[i].key.kind <= 7
    && table[i].offset as nat + table[i].len <= U32_MAX
    && (i == 0 ==> table[0].offset == 0)
    && (i > 0 ==>
          && table[i].offset == table[i - 1].offset + table[i - 1].len
          && (table[i - 1].key.kind < table[i].key.kind
              || (table[i - 1].key.kind == table[i].key.kind && table[i - 1].key.typeId < table[i].key.typeId)))
  }

  lemma {:induction false} GoodIsFollowing(table: seq<TocEntry>, n: nat)
    requires n <= |table|
    ensures GoodTable(table, n) <==> forall i :: 0 <= i < n ==> TableFollows(table, i)
    ensures GoodTable(table, n) ==>
              Offset(table, n) == if n == 0 then 0 else table[n - 1].offset + table[n - 1].len
  {
    if n == 0 {
    } else {
      GoodIsFollowing(table, n - 1);
      assert Offset(table, n) == Offset(table, n - 1) + table[n - 1].len;
      assert GoodTable(table, n) <==> GoodTable(table, n - 1) && GoodEntry(table, n - 1);
      if GoodTable(table, n - 1) {
        assert GoodEntry(table, n - 1) <==> TableFollows(table, n - 1);
      }
    }
  }

  lemma {:induction false} FieldsOfEntry(file: seq<byte>, bodyAt: nat, i: nat)
    requires HEADER_LEN + ENTRY_LEN * (i + 1) <= bodyAt <= |file|
    ensures var e := EntryAt(file[HEADER_LEN..bodyAt], i);
            && e.key.kind == FieldOf(file, i, 0) && e.key.typeId == FieldOf(file, i, 4)
            && e.offset == FieldOf(file, i, 8) && e.len == FieldOf(file, i, 12)
  {
    hide FromLe;
    var raw, at := file[HEADER_LEN..bodyAt], ENTRY_LEN * i;
    Inside(file, bodyAt, at);
    Inside(file, bodyAt, at + 4);
    Inside(file, bodyAt, at + 8);
    Inside(file, bodyAt, at + 12);
  }

  lemma {:induction false} Inside(file: seq<byte>, bodyAt: nat, at: nat)
    requires HEADER_LEN + at + 4 <= bodyAt <= |file|
    ensures U32At(file[HEADER_LEN..bodyAt], at) == U32At(file, HEADER_LEN + at)
  {
    var a, b := file[HEADER_LEN..bodyAt][at..at + 4], file[HEADER_LEN + at..HEADER_LEN + at + 4];
    assert forall k :: 0 <= k < 4 ==> a[k] == b[k];
    assert a == b;
  }

  /** Where the bodies end, by the last of `n` entries. */
  function BodiesEnd(file: seq<byte>, n: nat): nat
    requires HEADER_LEN + ENTRY_LEN * n <= |file|
  {
    HEADER_LEN + ENTRY_LEN * n + if n == 0 then 0 else FieldOf(file, n - 1, 8) + FieldOf(file, n - 1, 12)
  }

  /** The container checks accept exactly these files, and read these entries from them. */
  lemma {:induction false} AcceptsExactly(file: seq<byte>)
    ensures CheckedMeta(file).Ok?
       <==> && 16 <= |file| <= 8 * 1024 * 1024
            && file[..8] == [0x4b, 0x52, 0x4e, 0x49, 0x44, 0x58, 0x33, 0]
            && U32At(file, 8) <= 39 && 16 + 16 * U32At(file, 8) <= |file|
            && (forall i :: 0 <= i < U32At(file, 8) ==> EntryFollows(file, i))
            && BodiesEnd(file, U32At(file, 8)) == |file|
            && U32At(file, 12) == Checksum(file[..12] + file[16..])
    ensures CheckedMeta(file).Ok? ==>
              var meta, n := CheckedMeta(file).value, U32At(file, 8);
              && meta.expectedChecksum == U32At(file, 12) && meta.bodyAt == 16 + 16 * n && |meta.table| == n
              && forall i :: 0 <= i < n ==>
                   var e := meta.table[i];
                   && e.key == SeriesKey(FieldOf(file, i, 0), FieldOf(file, i, 4))
                   && e.offset == FieldOf(file, i, 8) && e.len == FieldOf(file, i, 12)
  {
    hide Checksum, ParseTable, GoodTable, Offset, U32At, FieldOf, TableFollows, EntryAt;
    if 16 <= |file| && U32At(file, 8) <= 39 && 16 + 16 * U32At(file, 8) <= |file| {
      var n := U32At(file, 8);
      var raw := file[HEADER_LEN..HEADER_LEN + ENTRY_LEN * n];
      var table := Entries(raw, n);
      ParseIsGood(raw, n, table);
      assert table[..n] == table;
      GoodIsFollowing(table, n);
      EntriesFollow(file, n);
    }
  }

  /** Which refusal a file gets, in the order of the checks. */
  lemma {:induction false} RefusalsInOrder(file: seq<byte>)
    requires CheckedMeta(file).Err?
    ensures CheckedMeta(file).error
         == if |file| > 8 * 1024 * 1024 then TooLarge
            else if |file| < 16 then Truncated
            else if file[..8] != [0x4b, 0x52, 0x4e, 0x49, 0x44, 0x58, 0x33, 0] then BadMagic
            else if U32At(file, 8) > 39 then TooLarge
            else if 16 + 16 * U32At(file, 8) > |file| then Truncated
            else if BodiesEnd(file, U32At(file, 8)) != |file|
                    || exists i :: 0 <= i < U32At(file, 8) && !EntryFollows(file, i) then BadLayout
            else BadChecksum
  {
    hide Checksum, ParseTable, GoodTable, Offset, U32At, FieldOf, TableFollows, EntryAt;
    if 16 <= |file| && U32At(file, 8) <= 39 && 16 + 16 * U32At(file, 8) <= |file| {
      var n := U32At(file, 8);
      var raw := file[HEADER_LEN..HEADER_LEN + ENTRY_LEN * n];
      var table := Entries(raw, n);
      ParseIsGood(raw, n, table);
      assert table[..n] == table;
      GoodIsFollowing(table, n);
      EntriesFollow(file, n);
    }
  }

  lemma {:induction false} EntriesFollow(file: seq<byte>, n: nat)
    requires HEADER_LEN + ENTRY_LEN * n <= |file|
    ensures var table := Entries(file[HEADER_LEN..HEADER_LEN + ENTRY_LEN * n], n);
            && (forall i :: 0 <= i < n ==>
                  && table[i].key == SeriesKey(FieldOf(file, i, 0), FieldOf(file, i, 4))
                  && table[i].offset == FieldOf(file, i, 8) && table[i].len == FieldOf(file, i, 12))
            && (forall i :: 0 <= i < n ==> (TableFollows(table, i) <==> EntryFollows(file, i)))
  {
    hide U32At, EntryAt;
    forall i | 0 <= i < n
      ensures var e := EntryAt(file[HEADER_LEN..HEADER_LEN + ENTRY_LEN * n], i);
              && e.key == SeriesKey(FieldOf(file, i, 0), FieldOf(file, i, 4))
              && e.offset == FieldOf(file, i, 8) && e.len == FieldOf(file, i, 12)
    {
      FieldsOfEntry(file, HEADER_LEN + ENTRY_LEN * n, i);
    }
  }

  /** What acceptance by the container checks says about the bytes. */
  lemma {:induction false} AcceptedMeta(file: seq<byte>)
    requires CheckedMeta(file).Ok?
    ensures var meta := CheckedMeta(file).value;
            && HEADER_LEN <= |file| <= MAX_INDEX_BYTES && file[..8] == MAGIC
            && |meta.table| <= MAX_BLOCKS && U32At(file, 8) == |meta.table|
            && meta.bodyAt == HEADER_LEN + ENTRY_LEN * |meta.table| <= |file|
            && GoodTable(meta.table, |meta.table|) && meta.bodyAt + Offset(meta.table, |meta.table|) == |file|
            && TableBytes(meta.table) == file[HEADER_LEN..meta.bodyAt]
            && CoveredCrc(file) == U32At(file, CHECKSUM_AT)
  {
    hide Checksum, GoodTable, Offset, TableBytes, ParseTable;
    var meta := CheckedMeta(file).value;
    var raw, n := file[HEADER_LEN..meta.bodyAt], U32At(file, 8);
    ParseIsGood(raw, n, Entries(raw, n));
    assert Entries(raw, n)[..n] == Entries(raw, n);
    TableOfEntries(raw, n);
    assert raw[..ENTRY_LEN * n] == raw;
  }

  /** No burst in an accepted file is accepted, beside its stored checksum or within it, in a full or
      a targeted read. */
  lemma {:induction false} IndexBurstRejected(file: seq<byte>, changed: seq<byte>, at: nat, keys: set<Key>)
    requires CheckedMeta(file).Ok? && |file| >= HEADER_LEN && BurstBeside(file, changed, at, CHECKSUM_AT)
    ensures DecodeIndex(changed).Err? && DecodeTarget(changed, keys).Err?
  {
    hide Checksum, CheckedMeta, BurstBeside;
    if CheckedMeta(changed).Ok? {
      AcceptedMeta(file);
      AcceptedMeta(changed);
      CoveredBurst(file, changed, at);
      if changed[12..16] == file[12..16] {
        BurstChangesChecksum(file[..CHECKSUM_AT] + file[HEADER_LEN..], changed[..CHECKSUM_AT] + changed[HEADER_LEN..],
                             if at < CHECKSUM_AT then at else if at < HEADER_LEN then CHECKSUM_AT else at - 4);
      } else {
        FromLeInjective(file[12..16], changed[12..16]);
      }
    }
  }

  /** The covered bytes leave the stored checksum out; a burst that spares it lies on one side. */
  lemma {:induction false} CoveredBurst(file: seq<byte>, changed: seq<byte>, at: nat)
    requires |file| >= HEADER_LEN && BurstBeside(file, changed, at, CHECKSUM_AT)
    ensures var was, now := file[..CHECKSUM_AT] + file[HEADER_LEN..], changed[..CHECKSUM_AT] + changed[HEADER_LEN..];
            if changed[12..16] != file[12..16] then now == was
            else Burst(was, now, if at < CHECKSUM_AT then at else if at < HEADER_LEN then CHECKSUM_AT else at - 4)
  {
    if changed[12..16] == file[12..16] {
      var was, now := file[..CHECKSUM_AT] + file[HEADER_LEN..], changed[..CHECKSUM_AT] + changed[HEADER_LEN..];
      forall k | 12 <= k < 16
        ensures changed[k] == file[k]
      {
        assert changed[12..16][k - 12] == file[12..16][k - 12];
      }
      var k := Difference(changed, file);
      assert now[if k < 12 then k else k - 4] != was[if k < 12 then k else k - 4];
    }
  }

  /** In particular, no single-byte change of an accepted file is accepted. */
  lemma {:induction false} IndexByteChangeRejected(file: seq<byte>, i: nat, b: byte, keys: set<Key>)
    requires CheckedMeta(file).Ok? && i < |file| && b != file[i]
    ensures DecodeIndex(file[i := b]).Err? && DecodeTarget(file[i := b], keys).Err?
  {
    hide CheckedMeta, DecodeIndex, DecodeTarget, BurstBeside;
    AcceptedMeta(file);
    ByteIsBurst(file, i, b, CHECKSUM_AT);
    IndexBurstRejected(file, file[i := b], i, keys);
  }
}
