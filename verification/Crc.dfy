/** CRC32C of byte sequences (crates/kronika-format/src/crc.rs): the reflected Castagnoli polynomial
    of section 12.1 of RFC 3720, initial value and final complement all ones. */
module Crc {
  import opened Machine
  import opened Bytes

  const POLYNOMIAL: bv32 := 0x82F6_3B78
  const ALL_ONES: bv32 := 0xFFFF_FFFF

  function Xor(a: bv32, b: bv32): bv32 { a ^ b }

  function Half(state: bv32): bv32 { state >> 1 }

  predicate IsOdd(state: bv32) { state & 1 == 1 }

  function ShiftBit(state: bv32): bv32 {
    if IsOdd(state) then Xor(Half(state), POLYNOMIAL) else Half(state)
  }

  function ShiftBits(state: bv32, n: nat): bv32
    decreases n
  {
    if n == 0 then state else ShiftBits(ShiftBit(state), n - 1)
  }

  function MixBits(state: bv32, b: bv8): bv32 { Xor(state, b as bv32) }

  /** A hexadecimal digit as bits. */
  function Nibble(n: nat): bv8 {
    match n
    case 0 => 0 case 1 => 1 case 2 => 2 case 3 => 3 case 4 => 4 case 5 => 5 case 6 => 6 case 7 => 7
    case 8 => 8 case 9 => 9 case 10 => 10 case 11 => 11 case 12 => 12 case 13 => 13 case 14 => 14
    case _ => 15
  }

  function Joined(high: bv8, low: bv8): bv8 { (high << 4) | low }

  function ToBits(b: byte): bv8 { Joined(Nibble(b / 16), Nibble(b % 16)) }

  function Mix(state: bv32, b: byte): bv32 { MixBits(state, ToBits(b)) }

  function StepByte(state: bv32, b: byte): bv32 { ShiftBits(Mix(state, b), 8) }

  function Fold(state: bv32, bytes: seq<byte>): bv32 {
    if bytes == [] then state else StepByte(Fold(state, bytes[..|bytes| - 1]), bytes[|bytes| - 1])
  }

  function Finished(state: bv32): (crc: u32) { (state ^ ALL_ONES) as nat }

  /** The checksum of a whole sequence. */
  function Checksum(bytes: seq<byte>): u32 { Finished(Fold(ALL_ONES, bytes)) }

  /** An incremental calculation; chunks may be split anywhere. */
  class Crc32c {
    var digest: bv32

    constructor ()
      ensures digest == Fold(ALL_ONES, [])
    {
      digest := ALL_ONES;
    }

    method Update(bytes: seq<byte>)
      modifies this
      ensures digest == Fold(old(digest), bytes)
    {
      assert bytes[..0] == [];
      for i := 0 to |bytes|
        invariant digest == Fold(old(digest), bytes[..i])
      {
        assert bytes[..i + 1][..i] == bytes[..i];
        digest := StepByte(digest, bytes[i]);
      }
      assert bytes[..|bytes|] == bytes;
    }

    method Finalize() returns (crc: u32)
      ensures crc == Finished(digest)
    {
      crc := Finished(digest);
    }
  }

  /** The four bytes at `zeroAt` count as zeroes. */
  function ZeroedField(bytes: seq<byte>, zeroAt: nat): (zeroed: seq<byte>)
    requires zeroAt + 4 <= |bytes|
    ensures |zeroed| == |bytes|
  {
    bytes[..zeroAt] + [0, 0, 0, 0] + bytes[zeroAt + 4..]
  }

  method Crc32cWithZeroedField(bytes: seq<byte>, zeroAt: nat) returns (crc: u32)
    requires zeroAt + 4 <= |bytes|
    ensures crc == Checksum(ZeroedField(bytes, zeroAt))
  {
    var digest := new Crc32c();
    digest.Update(bytes[..zeroAt]);
    digest.Update([0, 0, 0, 0]);
    digest.Update(bytes[zeroAt + 4..]);
    FoldAppend(ALL_ONES, bytes[..zeroAt], [0, 0, 0, 0]);
    FoldAppend(ALL_ONES, bytes[..zeroAt] + [0, 0, 0, 0], bytes[zeroAt + 4..]);
    crc := digest.Finalize();
  }

  lemma {:induction false} FoldAppend(state: bv32, a: seq<byte>, b: seq<byte>)
    ensures Fold(state, a + b) == Fold(Fold(state, a), b)
  {
    if b == [] {
      assert a + b == a;
    } else {
      var n := |b| - 1;
      assert (a + b)[..|a + b| - 1] == a + b[..n];
      FoldAppend(state, a, b[..n]);
    }
  }

  // ----- injectivity -----

  lemma {:induction false} ShiftBitInjective(a: bv32, b: bv32)
    requires ShiftBit(a) == ShiftBit(b)
    ensures a == b
  {
  }

  lemma {:induction false} ShiftBitsInjective(a: bv32, b: bv32, n: nat)
    requires ShiftBits(a, n) == ShiftBits(b, n)
    ensures a == b
    decreases n
  {
    if n == 0 {
    } else {
      ShiftBitsInjective(ShiftBit(a), ShiftBit(b), n - 1);
      ShiftBitInjective(a, b);
    }
  }

  /** The bits of a byte are the byte. */
  lemma {:induction false} BitsOfByte(b: byte)
    ensures ToBits(b) as nat == b
  {
    hide Nibble, Joined;
    NibbleValue(b / 16);
    NibbleValue(b % 16);
    JoinedValue(Nibble(b / 16), Nibble(b % 16));
  }

  lemma {:induction false} NibbleValue(n: nat)
    requires n < 16
    ensures Nibble(n) as nat == n && Nibble(n) < 16
  {
  }

  lemma {:induction false} JoinedValue(high: bv8, low: bv8)
    requires high < 16 && low < 16
    ensures Joined(high, low) as nat == 16 * (high as nat) + (low as nat)
  {
  }

  lemma {:induction false} ToBitsInjective(x: byte, y: byte)
    requires ToBits(x) == ToBits(y)
    ensures x == y
  {
    hide ToBits;
    BitsOfByte(x);
    BitsOfByte(y);
  }

  lemma {:induction false} MixInjective(a: bv32, b: bv32, x: byte, y: byte)
    ensures Mix(a, x) == Mix(b, x) ==> a == b
    ensures Mix(a, x) == Mix(a, y) ==> x == y
  {
    hide MixBits, ToBits;
    MixBitsInjective(a, b, ToBits(x), ToBits(y));
    if ToBits(x) == ToBits(y) { ToBitsInjective(x, y); }
  }

  lemma {:induction false} MixBitsInjective(a: bv32, b: bv32, x: bv8, y: bv8)
    ensures MixBits(a, x) == MixBits(b, x) ==> a == b
    ensures MixBits(a, x) == MixBits(a, y) ==> x == y
  {
  }

  lemma {:induction false} StepInjective(a: bv32, b: bv32, x: byte, y: byte)
    ensures StepByte(a, x) == StepByte(b, x) ==> a == b
    ensures StepByte(a, x) == StepByte(a, y) ==> x == y
  {
    MixInjective(a, b, x, y);
    if StepByte(a, x) == StepByte(b, x) { ShiftBitsInjective(Mix(a, x), Mix(b, x), 8); }
    if StepByte(a, x) == StepByte(a, y) { ShiftBitsInjective(Mix(a, x), Mix(a, y), 8); }
  }

  lemma {:induction false} FoldInjectiveInState(a: bv32, b: bv32, bytes: seq<byte>)
    requires Fold(a, bytes) == Fold(b, bytes)
    ensures a == b
  {
    if bytes == [] {
    } else {
      var init, last := bytes[..|bytes| - 1], bytes[|bytes| - 1];
      StepInjective(Fold(a, init), Fold(b, init), last, last);
      FoldInjectiveInState(a, b, init);
    }
  }

  lemma {:induction false} BitsAsNumber(a: bv32)
    ensures ((a as int) as bv32) == a
  {
  }

  lemma {:induction false} FinishedInjective(a: bv32, b: bv32)
    requires Finished(a) == Finished(b)
    ensures a == b
  {
    BitsAsNumber(a ^ ALL_ONES);
    BitsAsNumber(b ^ ALL_ONES);
    assert a ^ ALL_ONES == b ^ ALL_ONES;
  }

  // ----- bursts -----

  function Twice(y: bv32): bv32 { y << 1 }

  function Raised(y: bv32, n: nat): bv32 { if n == 0 then y else Twice(Raised(y, n - 1)) }

  /** Shifting left once loses nothing. */
  predicate HasRoom(y: bv32) { y < 0x8000_0000 }

  predicate ThreeBytes(y: bv32) { y < 0x100_0000 }

  lemma {:induction false} ShiftBitXor(x: bv32, z: bv32)
    requires HasRoom(z)
    ensures ShiftBit(Xor(x, Twice(z))) == Xor(ShiftBit(x), z)
  {
    hide HasRoom, Xor, Half, IsOdd, Twice;
    ShiftedXor(x, z);
    XorSwap(Half(x), z, POLYNOMIAL);
  }

  lemma {:induction false} ShiftedXor(x: bv32, z: bv32)
    requires HasRoom(z)
    ensures IsOdd(Xor(x, Twice(z))) <==> IsOdd(x)
    ensures Half(Xor(x, Twice(z))) == Xor(Half(x), z)
  {
  }

  lemma {:induction false} XorSwap(a: bv32, b: bv32, c: bv32)
    ensures Xor(Xor(a, b), c) == Xor(Xor(a, c), b)
  {
    hide Xor;
    XorAssociates(a, b, c);
    XorAssociates(a, c, b);
    XorCommutes(b, c);
  }

  lemma {:induction false} XorCommutes(a: bv32, b: bv32)
    ensures Xor(a, b) == Xor(b, a)
  {
  }

  lemma {:induction false} XorAssociates(a: bv32, b: bv32, c: bv32)
    ensures Xor(a, Xor(b, c)) == Xor(Xor(a, b), c)
  {
  }

  lemma {:induction false} XorCancels(a: bv32, b: bv32, c: bv32)
    requires Xor(a, b) == Xor(a, c)
    ensures b == c
  {
  }

  lemma {:induction false} RaisedEight(y: bv32)
    requires ThreeBytes(y)
    ensures Raised(y, 8) == y << 8 && forall k :: 0 <= k < 8 ==> HasRoom(Raised(y, k))
  {
    assert Raised(y, 0) == y && Raised(y, 1) == y << 1 && Raised(y, 2) == y << 2 && Raised(y, 3) == y << 3;
    assert Raised(y, 4) == y << 4 && Raised(y, 5) == y << 5 && Raised(y, 6) == y << 6 && Raised(y, 7) == y << 7;
  }

  /** Shifts bring the higher bits of a state down unchanged. */
  lemma {:induction false} ShiftBitsXor(x: bv32, y: bv32, n: nat)
    requires forall k :: 0 <= k < n ==> HasRoom(Raised(y, k))
    ensures ShiftBits(Xor(x, Raised(y, n)), n) == Xor(ShiftBits(x, n), y)
    decreases n
  {
    hide ShiftBit, Xor, Twice, HasRoom;
    if n == 0 {
    } else {
      ShiftBitXor(x, Raised(y, n - 1));
      ShiftBitsXor(ShiftBit(x), y, n - 1);
    }
  }

  /** A byte below the bytes that follow it. */
  function Over(b: bv8, above: bv32): bv32 { Xor(b as bv32, Raised(above, 8)) }

  lemma {:induction false} OverMixed(s: bv32, b: bv8, above: bv32)
    ensures Xor(s, Over(b, above)) == Xor(MixBits(s, b), Raised(above, 8))
  {
    hide Raised, Xor;
    XorAssociates(s, b as bv32, Raised(above, 8));
  }

  lemma {:induction false} OverInjective(b: bv8, c: bv8, q: bv32, r: bv32)
    requires ThreeBytes(q) && ThreeBytes(r) && Over(b, q) == Over(c, r)
    ensures b == c && q == r
  {
    hide Over, Placed, ThreeBytes;
    OverIsPlaced(b, q);
    OverIsPlaced(c, r);
    PlacedInjective(b, c, q, r);
  }

  function Placed(b: bv8, above: bv32): bv32 { (b as bv32) ^ (above << 8) }

  lemma {:induction false} OverIsPlaced(b: bv8, above: bv32)
    requires ThreeBytes(above)
    ensures Over(b, above) == Placed(b, above)
  {
    hide Raised, ThreeBytes, HasRoom;
    RaisedEight(above);
  }

  lemma {:induction false} PlacedInjective(b: bv8, c: bv8, q: bv32, r: bv32)
    requires ThreeBytes(q) && ThreeBytes(r) && Placed(b, q) == Placed(c, r)
    ensures b == c && q == r
  {
  }

  /** Undoes one byte of two runs, moving what tells them apart into the states. */
  lemma {:induction false} BackOne(s: bv32, t: bv32, b: byte, c: byte, q: bv32, r: bv32)
    requires ThreeBytes(q) && ThreeBytes(r) && Xor(StepByte(s, b), q) == Xor(StepByte(t, c), r)
    ensures Xor(s, Over(ToBits(b), q)) == Xor(t, Over(ToBits(c), r))
  {
    hide ShiftBits, ToBits, Over, MixBits, Xor, Raised, ThreeBytes, HasRoom;
    OverMixed(s, ToBits(b), q);
    OverMixed(t, ToBits(c), r);
    RaisedEight(q);
    RaisedEight(r);
    ShiftBitsXor(Mix(s, b), q, 8);
    ShiftBitsXor(Mix(t, c), r, 8);
    ShiftBitsInjective(Xor(Mix(s, b), Raised(q, 8)), Xor(Mix(t, c), Raised(r, 8)), 8);
  }

  lemma {:induction false} OverLimits(b: bv8, c: bv8, d: bv8)
    ensures ThreeBytes(0) && ThreeBytes(Over(d, 0)) && ThreeBytes(Over(c, Over(d, 0)))
    ensures ThreeBytes(Over(b, Over(c, Over(d, 0))))
  {
    hide Raised;
    RaisedEight(0);
    assert Over(d, 0) < 0x100;
    RaisedEight(Over(d, 0));
    assert Over(c, Over(d, 0)) < 0x1_0000;
    RaisedEight(Over(c, Over(d, 0)));
  }

  /** From one state, four bytes are determined by the state they lead to. */
  lemma {:induction false} FourBytesInjective(s: bv32, a: byte, b: byte, c: byte, d: byte,
                                              e: byte, f: byte, g: byte, h: byte)
    requires StepByte(StepByte(StepByte(StepByte(s, a), b), c), d)
          == StepByte(StepByte(StepByte(StepByte(s, e), f), g), h)
    ensures a == e && b == f && c == g && d == h
  {
    hide StepByte, ToBits, Over, Xor, ThreeBytes;
    var s1, t1 := StepByte(s, a), StepByte(s, e);
    var s2, t2 := StepByte(s1, b), StepByte(t1, f);
    var s3, t3 := StepByte(s2, c), StepByte(t2, g);
    OverLimits(ToBits(b), ToBits(c), ToBits(d));
    OverLimits(ToBits(f), ToBits(g), ToBits(h));
    var p, q := Over(ToBits(d), 0), Over(ToBits(h), 0);
    var u, v := Over(ToBits(c), p), Over(ToBits(g), q);
    var x, y := Over(ToBits(b), u), Over(ToBits(f), v);
    BackOne(s3, t3, d, h, 0, 0);
    BackOne(s2, t2, c, g, p, q);
    BackOne(s1, t1, b, f, u, v);
    BackOne(s, s, a, e, x, y);
    XorCancels(s, Over(ToBits(a), x), Over(ToBits(e), y));
    OverInjective(ToBits(a), ToBits(e), x, y);
    OverInjective(ToBits(b), ToBits(f), u, v);
    OverInjective(ToBits(c), ToBits(g), p, q);
    OverInjective(ToBits(d), ToBits(h), 0, 0);
    ToBitsInjective(a, e);
    ToBitsInjective(b, f);
    ToBitsInjective(c, g);
    ToBitsInjective(d, h);
  }

  lemma {:induction false} FoldFour(s: bv32, w: seq<byte>)
    requires |w| == 4
    ensures Fold(s, w) == StepByte(StepByte(StepByte(StepByte(s, w[0]), w[1]), w[2]), w[3])
  {
    hide StepByte;
    assert w[..0] == [] && w[..4] == w;
    FoldNext(s, w, 0);
    FoldNext(s, w, 1);
    FoldNext(s, w, 2);
    FoldNext(s, w, 3);
  }

  lemma {:induction false} FoldNext(s: bv32, w: seq<byte>, k: nat)
    requires k < |w|
    ensures Fold(s, w[..k + 1]) == StepByte(Fold(s, w[..k]), w[k])
  {
    hide StepByte;
    assert w[..k + 1][..k] == w[..k];
  }

  lemma {:induction false} FoldInjectiveInBytes(s: bv32, w: seq<byte>, x: seq<byte>)
    requires |w| == |x| <= 4 && Fold(s, w) == Fold(s, x)
    ensures w == x
  {
    hide StepByte, Fold;
    var pad := seq(4 - |w|, _ => 0);
    FoldAppend(s, w, pad);
    FoldAppend(s, x, pad);
    var y, z := w + pad, x + pad;
    FoldFour(s, y);
    FoldFour(s, z);
    FourBytesInjective(s, y[0], y[1], y[2], y[3], z[0], z[1], z[2], z[3]);
    assert y[..|w|] == w && z[..|w|] == x && y == z;
  }

  /** Something changed, and only among four adjacent bytes. */
  ghost predicate Burst(bytes: seq<byte>, changed: seq<byte>, at: nat) {
    |changed| == |bytes| && changed != bytes
    && forall k :: 0 <= k < |bytes| && !(at <= k < at + 4) ==> changed[k] == bytes[k]
  }

  lemma {:induction false} BurstParts(bytes: seq<byte>, changed: seq<byte>, at: nat)
    requires Burst(bytes, changed, at)
    ensures at < |bytes|
    ensures var end := Min(at + 4, |bytes|);
            changed[..at] == bytes[..at] && changed[end..] == bytes[end..] && changed[at..end] != bytes[at..end]
  {
    var end := Min(at + 4, |bytes|);
    var k := Difference(changed, bytes);
    SamePrefix(changed, bytes, at);
    SameSuffix(changed, bytes, end);
    SliceDiffers(changed, bytes, at, end, k);
  }

  lemma {:induction false} Difference(a: seq<byte>, b: seq<byte>) returns (k: nat)
    requires |a| == |b| && a != b
    ensures k < |a| && a[k] != b[k]
  {
    k :| 0 <= k < |a| && a[k] != b[k];
  }

  lemma {:induction false} SliceDiffers(a: seq<byte>, b: seq<byte>, lo: nat, hi: nat, k: nat)
    requires lo <= k < hi <= |a| == |b| && a[k] != b[k]
    ensures a[lo..hi] != b[lo..hi]
  {
    assert a[lo..hi][k - lo] == a[k] && b[lo..hi][k - lo] == b[k];
  }

  lemma {:induction false} SamePrefix(a: seq<byte>, b: seq<byte>, n: nat)
    requires n <= |a| == |b| && forall k :: 0 <= k < n ==> a[k] == b[k]
    ensures a[..n] == b[..n]
  {
  }

  lemma {:induction false} SameSuffix(a: seq<byte>, b: seq<byte>, n: nat)
    requires n <= |a| == |b| && forall k :: n <= k < |a| ==> a[k] == b[k]
    ensures a[n..] == b[n..]
  {
  }

  lemma {:induction false} FoldParts(state: bv32, bytes: seq<byte>, a: nat, b: nat)
    requires a <= b <= |bytes|
    ensures Fold(state, bytes) == Fold(Fold(Fold(state, bytes[..a]), bytes[a..b]), bytes[b..])
  {
    assert bytes == bytes[..a] + bytes[a..b] + bytes[b..];
    FoldAppend(state, bytes[..a] + bytes[a..b], bytes[b..]);
    FoldAppend(state, bytes[..a], bytes[a..b]);
  }

  /** A change among four adjacent bytes always changes the checksum, for sequences of any length. */
  lemma {:induction false} BurstChangesChecksum(bytes: seq<byte>, changed: seq<byte>, at: nat)
    requires Burst(bytes, changed, at)
    ensures Checksum(changed) != Checksum(bytes)
  {
    hide Fold;
    BurstParts(bytes, changed, at);
    if Checksum(changed) == Checksum(bytes) {
      var end, s := Min(at + 4, |bytes|), Fold(ALL_ONES, bytes[..at]);
      FinishedInjective(Fold(ALL_ONES, changed), Fold(ALL_ONES, bytes));
      FoldParts(ALL_ONES, bytes, at, end);
      FoldParts(ALL_ONES, changed, at, end);
      FoldInjectiveInState(Fold(s, changed[at..end]), Fold(s, bytes[at..end]), bytes[end..]);
      FoldInjectiveInBytes(s, changed[at..end], bytes[at..end]);
    }
  }

  /** In particular, changing any one byte changes the checksum. */
  lemma {:induction false} ByteChangesChecksum(bytes: seq<byte>, i: nat, b: byte)
    requires i < |bytes| && b != bytes[i]
    ensures Checksum(bytes[i := b]) != Checksum(bytes)
  {
    assert bytes[i := b][i] != bytes[i];
    BurstChangesChecksum(bytes, bytes[i := b], i);
  }

  // ----- a checksum stored in what it covers -----

  /** A burst that leaves the four bytes at `field` alone, or changes nothing else. */
  ghost predicate BurstBeside(bytes: seq<byte>, changed: seq<byte>, at: nat, field: nat)
    requires field + 4 <= |bytes|
  {
    && Burst(bytes, changed, at)
    && (changed[field..field + 4] == bytes[field..field + 4]
        || (changed[..field] == bytes[..field] && changed[field + 4..] == bytes[field + 4..]))
  }

  lemma {:induction false} ByteIsBurst(bytes: seq<byte>, i: nat, b: byte, field: nat)
    requires i < |bytes| && b != bytes[i] && field + 4 <= |bytes|
    ensures BurstBeside(bytes, bytes[i := b], i, field)
  {
    var changed := bytes[i := b];
    assert changed[i] != bytes[i];
    if i < field || field + 4 <= i {
      assert changed[field..field + 4] == bytes[field..field + 4];
    } else {
      assert changed[..field] == bytes[..field] && changed[field + 4..] == bytes[field + 4..];
    }
  }

  lemma {:induction false} ZeroedFieldBurst(bytes: seq<byte>, changed: seq<byte>, at: nat, field: nat)
    requires field + 4 <= |bytes| && BurstBeside(bytes, changed, at, field)
    ensures if changed[field..field + 4] != bytes[field..field + 4] then
              ZeroedField(changed, field) == ZeroedField(bytes, field)
            else Burst(ZeroedField(bytes, field), ZeroedField(changed, field), at)
  {
    hide ZeroedField;
    if changed[field..field + 4] == bytes[field..field + 4] {
      var was, now := ZeroedField(bytes, field), ZeroedField(changed, field);
      forall k | 0 <= k < |bytes|
        ensures now[k] == was[k] <==> changed[k] == bytes[k]
      {
        ZeroedAt(bytes, field, k);
        ZeroedAt(changed, field, k);
        if field <= k < field + 4 {
          assert changed[field..field + 4][k - field] == bytes[field..field + 4][k - field];
        }
      }
      var k := Difference(changed, bytes);
      assert now[k] != was[k];
    } else {
      ZeroedAlike(bytes, changed, field);
    }
  }

  lemma {:induction false} ZeroedAt(bytes: seq<byte>, field: nat, k: nat)
    requires field + 4 <= |bytes| && k < |bytes|
    ensures ZeroedField(bytes, field)[k] == if field <= k < field + 4 then 0 else bytes[k]
  {
  }

  lemma {:induction false} ZeroedAlike(bytes: seq<byte>, changed: seq<byte>, field: nat)
    requires field + 4 <= |bytes| == |changed|
    requires changed[..field] == bytes[..field] && changed[field + 4..] == bytes[field + 4..]
    ensures ZeroedField(changed, field) == ZeroedField(bytes, field)
  {
  }

  /** A checksum stored inside the bytes it covers detects every burst beside it or within it. */
  lemma {:induction false} SelfCoveringField(bytes: seq<byte>, changed: seq<byte>, at: nat, field: nat)
    requires field + 4 <= |bytes| && BurstBeside(bytes, changed, at, field)
    requires FromLe(bytes[field..field + 4]) == Checksum(ZeroedField(bytes, field))
    ensures FromLe(changed[field..field + 4]) != Checksum(ZeroedField(changed, field))
  {
    hide Checksum, ZeroedField;
    ZeroedFieldBurst(bytes, changed, at, field);
    if changed[field..field + 4] == bytes[field..field + 4] {
      BurstChangesChecksum(ZeroedField(bytes, field), ZeroedField(changed, field), at);
    } else if FromLe(changed[field..field + 4]) == FromLe(bytes[field..field + 4]) {
      FromLeInjective(bytes[field..field + 4], changed[field..field + 4]);
    }
  }

  /** A chain of states that follows the steps ends in the fold. */
  lemma {:induction false} FoldFollows(bytes: seq<byte>, states: seq<bv32>, k: nat)
    requires k <= |bytes| && |states| == |bytes| + 1 && states[0] == ALL_ONES
    requires forall i :: 0 <= i < |bytes| ==> StepByte(states[i], bytes[i]) == states[i + 1]
    ensures Fold(ALL_ONES, bytes[..k]) == states[k]
  {
    if k == 0 {
    } else {
      FoldFollows(bytes, states, k - 1);
      assert bytes[..k][..k - 1] == bytes[..k - 1];
    }
  }

  lemma {:induction false} CheckSteps()
    ensures StepByte(0xFFFF_FFFF, 0x31) == 0x6F0A_661C
    ensures StepByte(0x6F0A_661C, 0x32) == 0x8CAA_3B9F
    ensures StepByte(0x8CAA_3B9F, 0x33) == 0xEF84_D04D
    ensures StepByte(0xEF84_D04D, 0x34) == 0x09C5_0B11
    ensures StepByte(0x09C5_0B11, 0x35) == 0xE72E_DCCA
    ensures StepByte(0xE72E_DCCA, 0x36) == 0xBECA_8E79
    ensures StepByte(0xBECA_8E79, 0x37) == 0xEDBD_6815
    ensures StepByte(0xEDBD_6815, 0x38) == 0x9F78_7F65
    ensures StepByte(0x9F78_7F65, 0x39) == 0x1CF9_6D7C
  {
    hide ToBits;
    DigitBits();
  }

  lemma {:induction false} DigitBits()
    ensures ToBits(0x31) == 0x31 && ToBits(0x32) == 0x32 && ToBits(0x33) == 0x33 && ToBits(0x34) == 0x34
    ensures ToBits(0x35) == 0x35 && ToBits(0x36) == 0x36 && ToBits(0x37) == 0x37 && ToBits(0x38) == 0x38
    ensures ToBits(0x39) == 0x39
  {
  }

  /** The published check value of this CRC: the digits 1 to 9. */
  lemma {:induction false} CheckValue()
    ensures Fold(ALL_ONES, [0x31, 0x32, 0x33, 0x34, 0x35, 0x36, 0x37, 0x38, 0x39]) == 0xE306_9283 ^ ALL_ONES
  {
    hide Fold, StepByte;
    var d: seq<byte> := [0x31, 0x32, 0x33, 0x34, 0x35, 0x36, 0x37, 0x38, 0x39];
    var states := [0xFFFF_FFFF, 0x6F0A_661C, 0x8CAA_3B9F, 0xEF84_D04D, 0x09C5_0B11,
                   0xE72E_DCCA, 0xBECA_8E79, 0xEDBD_6815, 0x9F78_7F65, 0x1CF9_6D7C];
    CheckSteps();
    forall i | 0 <= i < 9
      ensures StepByte(states[i], d[i]) == states[i + 1]
    {
      if i == 0 {} else if i == 1 {} else if i == 2 {} else if i == 3 {} else if i == 4 {}
      else if i == 5 {} else if i == 6 {} else if i == 7 {} else {}
    }
    FoldFollows(d, states, 9);
    assert d[..9] == d;
  }
}
