/** Little-endian integers in byte sequences (crates/kronika-index/src/decode.rs and the codecs of
    crates/kronika-format/src/catalog/decode.rs). */
module Bytes {
  import opened Machine

  const TWO64: nat := 0x1_0000_0000_0000_0000

  /** The low `width` bytes of `n`, least significant first. */
  function Le(n: nat, width: nat): (bytes: seq<byte>)
    ensures |bytes| == width
  {
    if width == 0 then [] else [n % 256] + Le(n / 256, width - 1)
  }

  function FromLe(bytes: seq<byte>): nat {
    if bytes == [] then 0 else bytes[0] + 256 * FromLe(bytes[1..])
  }

  function Limit(width: nat): nat {
    if width == 0 then 1 else 256 * Limit(width - 1)
  }

  lemma {:induction false} Limits()
    ensures Limit(1) == 0x100 && Limit(2) == 0x1_0000 && Limit(4) == 0x1_0000_0000 && Limit(8) == TWO64
  {
    assert Limit(3) == 0x100_0000;
    assert Limit(5) == 0x100_0000_0000 && Limit(6) == 0x1_0000_0000_0000 && Limit(7) == 0x100_0000_0000_0000;
  }

  lemma {:induction false} LeRoundTrip(n: nat, width: nat)
    requires n < Limit(width)
    ensures FromLe(Le(n, width)) == n
  {
    if width == 0 {
    } else {
      LeRoundTrip(n / 256, width - 1);
      assert Le(n, width)[1..] == Le(n / 256, width - 1);
    }
  }

  lemma {:induction false} LeCanonical(bytes: seq<byte>)
    ensures FromLe(bytes) < Limit(|bytes|)
    ensures Le(FromLe(bytes), |bytes|) == bytes
  {
    if bytes == [] {
    } else {
      LeCanonical(bytes[1..]);
      assert [bytes[0]] + bytes[1..] == bytes;
    }
  }

  /** Different bytes are different numbers. */
  lemma {:induction false} FromLeInjective(a: seq<byte>, b: seq<byte>)
    requires |a| == |b| && FromLe(a) == FromLe(b)
    ensures a == b
  {
    LeCanonical(a);
    LeCanonical(b);
  }

  // ----- machine widths -----

  function U16(n: u16): (bytes: seq<byte>)
    ensures |bytes| == 2
  {
    Le(n, 2)
  }

  function U32(n: u32): (bytes: seq<byte>)
    ensures |bytes| == 4
  {
    Le(n, 4)
  }

  function U64(n: u64): (bytes: seq<byte>)
    ensures |bytes| == 8
  {
    Le(n, 8)
  }

  /** Two's complement. */
  function I64(n: i64): (bytes: seq<byte>)
    ensures |bytes| == 8
  {
    Le(if n < 0 then n + TWO64 else n, 8)
  }

  function U16At(bytes: seq<byte>, at: nat): u16
    requires at + 2 <= |bytes|
  {
    LeCanonical(bytes[at..at + 2]); Limits();
    FromLe(bytes[at..at + 2])
  }

  function U32At(bytes: seq<byte>, at: nat): u32
    requires at + 4 <= |bytes|
  {
    LeCanonical(bytes[at..at + 4]); Limits();
    FromLe(bytes[at..at + 4])
  }

  function U64At(bytes: seq<byte>, at: nat): u64
    requires at + 8 <= |bytes|
  {
    LeCanonical(bytes[at..at + 8]); Limits();
    FromLe(bytes[at..at + 8])
  }

  function I64At(bytes: seq<byte>, at: nat): i64
    requires at + 8 <= |bytes|
  {
    var n := U64At(bytes, at);
    if n >= 0x8000_0000_0000_0000 then n - TWO64 else n
  }

  /** What a field's bytes are worth: least significant first, two's complement for signed ones. */
  lemma {:induction false} FieldValues(bytes: seq<byte>, at: nat)
    ensures at + 2 <= |bytes| ==> U16At(bytes, at) == bytes[at] + 0x100 * (bytes[at + 1] as nat)
    ensures at + 4 <= |bytes| ==>
              U32At(bytes, at)
              == bytes[at] + 0x100 * (bytes[at + 1] as nat) + 0x1_0000 * (bytes[at + 2] as nat)
                 + 0x100_0000 * (bytes[at + 3] as nat)
    ensures at + 8 <= |bytes| ==>
              U64At(bytes, at) == U32At(bytes, at) as nat + 0x1_0000_0000 * (U32At(bytes, at + 4) as nat)
    ensures at + 8 <= |bytes| ==>
              I64At(bytes, at) == U64At(bytes, at) - if bytes[at + 7] < 128 then 0 else 0x1_0000_0000_0000_0000
  {
    if at + 2 <= |bytes| { TwoBytes(bytes[at..at + 2]); }
    if at + 4 <= |bytes| { FourBytes(bytes[at..at + 4]); }
    if at + 8 <= |bytes| {
      var low, high := bytes[at..at + 4], bytes[at + 4..at + 8];
      assert bytes[at..at + 8] == low + high;
      FourBytes(low);
      FourBytes(high);
      EightBytes(low, high);
      assert bytes[at + 4..at + 4 + 4] == high;
    }
  }

  lemma {:induction false} TwoBytes(b: seq<byte>)
    requires |b| == 2
    ensures FromLe(b) == b[0] + 0x100 * (b[1] as nat)
  {
    assert FromLe(b[1..]) == b[1] + 256 * FromLe(b[1..][1..]);
  }

  lemma {:induction false} FourBytes(b: seq<byte>)
    requires |b| == 4
    ensures FromLe(b) == b[0] + 0x100 * (b[1] as nat) + 0x1_0000 * (b[2] as nat) + 0x100_0000 * (b[3] as nat)
  {
    assert b[1..][1..] == b[2..];
    TwoBytes(b[2..]);
  }

  lemma {:induction false} EightBytes(low: seq<byte>, high: seq<byte>)
    requires |low| == 4 && |high| == 4
    ensures FromLe(low + high) == FromLe(low) + 0x1_0000_0000 * FromLe(high)
  {
    FourBytes(low);
    PeelByte(low, high);
    PeelByte(low[1..], high);
    PeelByte(low[2..], high);
    PeelByte(low[3..], high);
    assert low[1..][1..] == low[2..] && low[2..][1..] == low[3..] && low[3..][1..] + high == high;
  }

  lemma {:induction false} PeelByte(b: seq<byte>, rest: seq<byte>)
    requires b != []
    ensures FromLe(b + rest) == b[0] + 256 * FromLe(b[1..] + rest)
  {
    assert (b + rest)[1..] == b[1..] + rest;
  }

  lemma {:induction false} U16RoundTrip(n: u16, bytes: seq<byte>, at: nat)
    requires at + 2 <= |bytes| && bytes[at..at + 2] == U16(n)
    ensures U16At(bytes, at) == n
  {
    Limits();
    LeRoundTrip(n, 2);
  }

  lemma {:induction false} U32RoundTrip(n: u32, bytes: seq<byte>, at: nat)
    requires at + 4 <= |bytes| && bytes[at..at + 4] == U32(n)
    ensures U32At(bytes, at) == n
  {
    Limits();
    LeRoundTrip(n, 4);
  }

  lemma {:induction false} U64RoundTrip(n: u64, bytes: seq<byte>, at: nat)
    requires at + 8 <= |bytes| && bytes[at..at + 8] == U64(n)
    ensures U64At(bytes, at) == n
  {
    Limits();
    LeRoundTrip(n, 8);
  }

  lemma {:induction false} I64RoundTrip(n: i64, bytes: seq<byte>, at: nat)
    requires at + 8 <= |bytes| && bytes[at..at + 8] == I64(n)
    ensures I64At(bytes, at) == n
  {
    Limits();
    LeRoundTrip(if n < 0 then n + TWO64 else n, 8);
  }

  /** Reading a field and writing it back gives the field's own bytes. */
  lemma {:induction false} FieldsCanonical(bytes: seq<byte>, at: nat)
    ensures at + 2 <= |bytes| ==> U16(U16At(bytes, at)) == bytes[at..at + 2]
    ensures at + 4 <= |bytes| ==> U32(U32At(bytes, at)) == bytes[at..at + 4]
    ensures at + 8 <= |bytes| ==> U64(U64At(bytes, at)) == bytes[at..at + 8]
    ensures at + 8 <= |bytes| ==> I64(I64At(bytes, at)) == bytes[at..at + 8]
  {
    if at + 2 <= |bytes| { LeCanonical(bytes[at..at + 2]); }
    if at + 4 <= |bytes| { LeCanonical(bytes[at..at + 4]); }
    if at + 8 <= |bytes| { LeCanonical(bytes[at..at + 8]); }
  }
}
