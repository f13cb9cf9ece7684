/** Exact comparison of products of unbounded lists of 128-bit factors
    (crates/kronika-query/src/exact_product.rs).

    Both multipliers keep a product as base-2^32 limbs, least significant first, and add one
    row `left * factor` at a time with a running carry. `Value` says what limbs denote. */
module ExactProduct {
  import opened Machine

  const B: nat := 0x1_0000_0000

  datatype Ordering = Less | Equal | Greater

  // ----- what the algorithm is for -----

  /** The mathematical product; the empty product is one. */
  function Product(factors: seq<u128>): nat {
    if |factors| == 0 then 1 else Product(factors[..|factors| - 1]) * factors[|factors| - 1]
  }

  function CompareNat(a: nat, b: nat): Ordering {
    if a < b then Less else if a == b then Equal else Greater
  }

  // ----- denotation of limbs -----

  function Pow(n: nat): (p: nat)
    ensures p > 0
  {
    if n == 0 then 1 else B * Pow(n - 1)
  }

  function Value(limbs: seq<u32>): nat {
    if limbs == [] then 0 else limbs[0] + B * Value(limbs[1..])
  }

  /** No leading zero limb, except that zero itself is the single limb 0. */
  predicate Canonical(limbs: seq<u32>) {
    |limbs| >= 1 && (|limbs| > 1 ==> limbs[|limbs| - 1] != 0)
  }

  function Reversed(s: seq<u32>): (r: seq<u32>)
    ensures |r| == |s|
    ensures forall k :: 0 <= k < |s| ==> r[k] == s[|s| - 1 - k]
  {
    seq(|s|, k requires 0 <= k < |s| => s[|s| - 1 - k])
  }

  // Products of variables are left to these few facts.

  lemma {:induction false} Distribute(p: int, a: int, b: int)
    ensures p * (a + b) == p * a + p * b
  {
  }

  lemma {:induction false} Associate(a: int, b: int, c: int)
    ensures a * (b * c) == (a * b) * c
  {
  }

  lemma {:induction false} TimesZero(p: int, zero: int)
    requires zero == 0
    ensures p * zero == 0
  {
  }

  lemma {:induction false} MulMonotone(p: nat, a: int, b: int)
    requires a <= b
    ensures p * a <= p * b
  {
  }

  lemma {:induction false} PowAdd(a: nat, b: nat)
    ensures Pow(a + b) == Pow(a) * Pow(b)
  {
    if a == 0 {
    } else {
      PowAdd(a - 1, b);
      assert Pow(a + b) == B * Pow(a - 1 + b);
      Associate(B, Pow(a - 1), Pow(b));
    }
  }

  lemma {:induction false} PowMonotone(a: nat, b: nat)
    requires a <= b
    ensures Pow(a) <= Pow(b)
    decreases b - a
  {
    if a >= b {
    } else {
      PowMonotone(a, b - 1);
    }
  }

  lemma {:induction false} ValueSplit(s: seq<u32>, k: nat)
    requires k <= |s|
    ensures Value(s) == Value(s[..k]) + Pow(k) * Value(s[k..])
  {
    if k == 0 {
      assert s[0..] == s;
    } else {
      ValueSplit(s[1..], k - 1);
      assert s[1..][..k - 1] == s[..k][1..];
      assert s[1..][k - 1..] == s[k..];
      Associate(B, Pow(k - 1), Value(s[k..]));
    }
  }

  lemma {:induction false} ValueSnoc(s: seq<u32>, k: nat)
    requires k < |s|
    ensures Value(s[..k + 1]) == Value(s[..k]) + Pow(k) * s[k]
  {
    ValueSplit(s[..k + 1], k);
    assert s[..k + 1][..k] == s[..k];
    assert s[..k + 1][k..] == [s[k]];
    assert Value([s[k]]) == s[k] + B * Value([s[k]][1..]);
  }

  lemma {:induction false} ValueUpdate(s: seq<u32>, k: nat, v: u32)
    requires k < |s|
    ensures Value(s[k := v]) == Value(s) + Pow(k) * (v - s[k])
  {
    var t := s[k := v];
    ValueSplit(s, k + 1);
    ValueSplit(t, k + 1);
    ValueSnoc(s, k);
    ValueSnoc(t, k);
    assert t[..k] == s[..k] && t[k + 1..] == s[k + 1..];
    Distribute(Pow(k), s[k], v - s[k]);
  }

  lemma {:induction false} ValueBound(s: seq<u32>)
    ensures Value(s) < Pow(|s|)
  {
    if s == [] {
    } else {
      ValueBound(s[1..]);
      assert Value(s[1..]) + 1 <= Pow(|s| - 1);
    }
  }

  lemma {:induction false} ValueOfZeros(s: seq<u32>)
    requires forall k :: 0 <= k < |s| ==> s[k] == 0
    ensures Value(s) == 0
  {
    if s == [] {
    } else {
      ValueOfZeros(s[1..]);
    }
  }

  lemma {:induction false} ZeroValue(s: seq<u32>)
    requires Value(s) == 0
    ensures forall k :: 0 <= k < |s| ==> s[k] == 0
  {
    if s == [] {
    } else {
      ZeroValue(s[1..]);
      assert forall k :: 0 < k < |s| ==> s[k] == s[1..][k - 1];
    }
  }

  /** Limbs above position `n` of a value below 2^(32 n) are all zero. */
  lemma {:induction false} HighValueZero(s: seq<u32>, n: nat)
    requires n <= |s| && Value(s) < Pow(n)
    ensures Value(s[n..]) == 0 && Value(s[..n]) == Value(s)
  {
    hide Value, Pow;
    ValueSplit(s, n);
    var p, v := Pow(n), Value(s[n..]);
    if v != 0 { MulMonotone(p, 1, v); } else { TimesZero(p, v); }
  }

  lemma {:induction false} HighLimbsZero(s: seq<u32>, n: nat)
    requires n <= |s| && Value(s) < Pow(n)
    ensures Value(s[..n]) == Value(s)
    ensures forall k :: n <= k < |s| ==> s[k] == 0
  {
    hide Value, Pow;
    var high := s[n..];
    assert Value(high) == 0 && Value(s[..n]) == Value(s) by { HighValueZero(s, n); }
    ZeroValue(high);
    forall k | n <= k < |s|
      ensures s[k] == 0
    {
      assert s[k] == high[k - n];
    }
  }

  // ----- comparing canonical limbs -----

  /** Lexicographic order of slices, as the standard library compares them. */
  function LexCompare(a: seq<u32>, b: seq<u32>): Ordering {
    if a == [] then (if b == [] then Equal else Less)
    else if b == [] then Greater
    else if a[0] < b[0] then Less
    else if a[0] > b[0] then Greater
    else LexCompare(a[1..], b[1..])
  }

  /** Length first, then the limbs from the most significant down. */
  function CompareBigEndian(a: seq<u32>, b: seq<u32>): Ordering {
    if |a| < |b| then Less else if |a| > |b| then Greater else LexCompare(a, b)
  }

  lemma {:induction false} LexIsNumeric(a: seq<u32>, b: seq<u32>)
    requires |a| == |b|
    ensures LexCompare(Reversed(a), Reversed(b)) == CompareNat(Value(a), Value(b))
  {
    var n := |a|;
    if n == 0 {
    } else {
      var k, p := n - 1, Pow(n - 1);
      var ra, rb := Reversed(a), Reversed(b);
      assert ra[1..] == Reversed(a[..k]) && rb[1..] == Reversed(b[..k]);
      LexIsNumeric(a[..k], b[..k]);
      ValueSnoc(a, k);
      ValueSnoc(b, k);
      assert a[..n] == a && b[..n] == b;
      ValueBound(a[..k]);
      ValueBound(b[..k]);
      if a[k] < b[k] {
        TopLimbDecides(Value(a[..k]), Value(b[..k]), p, a[k], b[k]);
      } else if b[k] < a[k] {
        TopLimbDecides(Value(b[..k]), Value(a[..k]), p, b[k], a[k]);
      }
    }
  }

  lemma {:induction false} TopLimbDecides(low: nat, low': nat, p: nat, top: nat, top': nat)
    requires low < p && top < top'
    ensures low + p * top < low' + p * top'
  {
    MulMonotone(p, top + 1, top');
    Distribute(p, top, 1);
  }

  lemma {:induction false} LongerIsGreater(a: seq<u32>, b: seq<u32>)
    requires Canonical(a) && Canonical(b) && |a| < |b|
    ensures Value(a) < Value(b)
  {
    ValueBound(a);
    PowMonotone(|a|, |b| - 1);
    LimbsNeedTheirLength(b);
  }

  /** On canonical limbs the structural comparison is the numeric one. */
  lemma {:induction false} CompareCanonical(a: seq<u32>, b: seq<u32>)
    requires Canonical(a) && Canonical(b)
    ensures CompareBigEndian(Reversed(a), Reversed(b)) == CompareNat(Value(a), Value(b))
  {
    if |a| < |b| {
      LongerIsGreater(a, b);
    } else if |b| < |a| {
      LongerIsGreater(b, a);
    } else {
      LexIsNumeric(a, b);
    }
  }

  // ----- one row of the schoolbook product -----

  lemma {:induction false} FourLimbs(a: u32, b: u32, c: u32, d: u32)
    ensures Value([a, b, c, d]) == a + B * (b + B * (c + B * d))
  {
    ValueCons(d, []);
    ValueCons(c, [d]);
    ValueCons(b, [c, d]);
    ValueCons(a, [b, c, d]);
    assert [c] + [d] == [c, d] && [b] + [c, d] == [b, c, d] && [a] + [b, c, d] == [a, b, c, d];
    assert [d] + [] == [d] && Value([]) == 0;
  }

  lemma {:induction false} ValueCons(limb: u32, rest: seq<u32>)
    ensures Value([limb] + rest) == limb + B * Value(rest)
  {
    assert ([limb] + rest)[1..] == rest;
  }

  /** The four base-2^32 digits of a 128-bit factor: repeated shifts by 32 bits, truncated. */
  function FactorDigits(factor: u128): (digits: seq<u32>)
    ensures |digits| == 4
    ensures Value(digits) == factor
  {
    var q1 := factor / B;
    var q2 := q1 / B;
    var q3 := q2 / B;
    FourLimbs(factor % B, q1 % B, q2 % B, q3);
    [factor % B, q1 % B, q2 % B, q3]
  }

  /** One multiply-accumulate never overflows 64 bits, and its carry fits a limb again. */
  lemma {:induction false} MultiplyAccumulateFits(slot: u32, left: u32, right: u32, carry: u32)
    ensures slot + left * right + carry < 0x1_0000_0000_0000_0000
    ensures (slot + left * right + carry) / B < B
  {
    MulMonotone(left, right, B - 1);
  }

  /** What is true after the first `j` digits of row `i` were added. */
  predicate RowInvariant(res: seq<u32>, carry: nat, base: nat, left: nat, digits: seq<u32>, i: nat, j: nat) {
    j <= |digits| && Value(res) + Pow(i + j) * carry == base + Pow(i) * (left * Value(digits[..j]))
  }

  lemma {:induction false} RowStart(res: seq<u32>, base: nat, left: nat, digits: seq<u32>, i: nat)
    requires Value(res) == base
    ensures RowInvariant(res, 0, base, left, digits, i, 0)
  {
    assert Value(digits[..0]) == 0;
    TimesZero(left, Value(digits[..0]));
    TimesZero(Pow(i), left * Value(digits[..0]));
  }

  lemma {:induction false} RowStep(res: seq<u32>, carry: nat, base: nat, left: nat, digits: seq<u32>, i: nat, j: nat,
                                   value: nat)
    requires RowInvariant(res, carry, base, left, digits, i, j)
    requires j < |digits| && i + j < |res|
    requires value == res[i + j] + left * digits[j] + carry
    ensures RowInvariant(res[i + j := value % B], value / B, base, left, digits, i, j + 1)
  {
    ValueUpdate(res, i + j, value % B);
    ValueSnoc(digits, j);
    PowAdd(i, j);
    var next := res[i + j := value % B];
    RowAlgebra(Value(res), Value(next), Pow(i), Pow(j), value / B, value % B, res[i + j],
               left, digits[j], Value(digits[..j]), carry, base);
  }

  lemma {:induction false} RowAlgebra(v: int, v': int, pi: nat, pj: nat, q: int, r: int, slot: int,
                   left: int, d: int, low: int, carry: int, base: int)
    requires v' == v + (pi * pj) * (r - slot)
    requires B * q + r == slot + left * d + carry
    requires v + (pi * pj) * carry == base + pi * (left * low)
    ensures v' + (B * (pi * pj)) * q == base + pi * (left * (low + pj * d))
  {
    var p := pi * pj;
    calc {
      v' + (B * p) * q;
      { Associate(p, B, q); assert (B * p) * q == (p * B) * q; }
      v + p * (r - slot) + p * (B * q);
      { Distribute(p, r - slot, B * q); }
      v + p * (left * d + carry);
      { Distribute(p, left * d, carry); }
      base + pi * (left * low) + p * (left * d);
      { Associate(pi, pj, left * d); Associate(pj, left, d); Associate(left, pj, d); }
      base + pi * (left * low) + pi * (left * (pj * d));
      { Distribute(pi, left * low, left * (pj * d)); Distribute(left, low, pj * d); }
      base + pi * (left * (low + pj * d));
    }
  }

  /** A pending carry at position `k` moved one limb up. */
  lemma {:induction false} CarryStep(res: seq<u32>, k: nat, carry: nat)
    requires k < |res|
    ensures var value := res[k] + carry;
            Value(res[k := value % B]) + Pow(k + 1) * (value / B) == Value(res) + Pow(k) * carry
  {
    var value := res[k] + carry;
    ValueUpdate(res, k, value % B);
    var p, q := Pow(k), value / B;
    Associate(p, B, q);
    assert (B * p) * q == (p * B) * q;
    Distribute(p, value % B - res[k], B * q);
  }

  /** Rows 0..i of a product by a 128-bit factor stay below 2^(32 (i + 4)). */
  lemma {:induction false} PartialProductBound(acc: seq<u32>, i: nat, factor: u128)
    requires i <= |acc|
    ensures Value(acc[..i]) * factor < Pow(i + 4)
  {
    ValueBound(acc[..i]);
    ScaledBound(Value(acc[..i]), i, factor);
  }

  /** A carry left over after a row lands exactly one limb above it. */
  lemma {:induction false} CarryInRange(res: seq<u32>, k: nat, carry: nat, total: nat, bound: nat)
    ensures carry > 0 && Value(res) + Pow(k) * carry == total < Pow(bound) ==> k < bound
  {
    hide Value, Pow;
    if carry > 0 && bound <= k {
      PowMonotone(bound, k);
      MulMonotone(Pow(k), 1, carry);
    }
  }

  /** Finishing row `i` extends the partial product by one limb of the accumulator. */
  lemma {:induction false} RowDone(acc: seq<u32>, i: nat, factor: u128)
    requires i < |acc|
    ensures Value(acc[..i]) * factor + Pow(i) * (acc[i] * factor) == Value(acc[..i + 1]) * factor
    ensures Value(acc[..i + 1]) * factor < Pow(i + 5)
  {
    hide Value, Pow;
    ValueSnoc(acc, i);
    PartialProductBound(acc, i + 1, factor);
    Associate(Pow(i), acc[i], factor);
    Distribute(factor, Value(acc[..i]), Pow(i) * acc[i]);
  }

  lemma {:induction false} TrimStep(s: seq<u32>, len: nat)
    requires 1 < len <= |s| && s[len - 1] == 0
    ensures Value(s[..len - 1]) == Value(s[..len])
  {
    ValueSnoc(s, len - 1);
  }

  // ----- the heap form -----

  /** Limbs of the product, most significant first. The vector is never grown: the branch that
      would push another limb is unreachable. */
  method HeapProductLimbs(factors: seq<u128>) returns (limbs: seq<u32>)
    ensures exists canonical :: Canonical(canonical) && Value(canonical) == Product(factors)
                                && limbs == Reversed(canonical)
  {
    var accumulator: seq<u32> := [1];
    assert Value(accumulator) == 1 by { assert accumulator[1..] == []; }
    for n := 0 to |factors|
      invariant Canonical(accumulator)
      invariant Value(accumulator) == Product(factors[..n])
    {
      var factor := factors[n];
      var digits := FactorDigits(factor);
      var multiplied: seq<u32> := seq(|accumulator| + |digits|, _ => 0);
      ValueOfZeros(multiplied);
      for leftIndex := 0 to |accumulator|
        invariant |multiplied| == |accumulator| + 4
        invariant Value(multiplied) == Value(accumulator[..leftIndex]) * factor
      {
        multiplied := HeapRow(multiplied, accumulator, leftIndex, digits, factor);
      }
      assert accumulator[..|accumulator|] == accumulator;
      assert factors[..n + 1][..n] == factors[..n];
      multiplied := TrimLimbs(multiplied);
      accumulator := multiplied;
    }
    assert factors[..|factors|] == factors;
    limbs := Reversed(accumulator);
  }

  /** Adds `accumulator[leftIndex] * factor` at its position. */
  method HeapRow(multiplied: seq<u32>, accumulator: seq<u32>, leftIndex: nat, digits: seq<u32>, factor: u128)
    returns (updated: seq<u32>)
    requires leftIndex < |accumulator| && |multiplied| == |accumulator| + 4
    requires |digits| == 4 && Value(digits) == factor
    requires Value(multiplied) == Value(accumulator[..leftIndex]) * factor
    ensures |updated| == |multiplied|
    ensures Value(updated) == Value(accumulator[..leftIndex + 1]) * factor
  {
    var carry: u32;
    updated, carry := HeapDigits(multiplied, accumulator[leftIndex], leftIndex, digits);
    assert digits[..4] == digits;
    RowDone(accumulator, leftIndex, factor);
    updated := HeapCarry(updated, leftIndex + |digits|, carry);
  }

  method HeapDigits(multiplied: seq<u32>, left: u32, leftIndex: nat, digits: seq<u32>)
    returns (updated: seq<u32>, carry: u32)
    requires |digits| == 4 && leftIndex + 4 <= |multiplied|
    ensures |updated| == |multiplied|
    ensures RowInvariant(updated, carry, Value(multiplied), left, digits, leftIndex, 4)
  {
    hide RowInvariant, Value, Pow;
    updated, carry := multiplied, 0;
    RowStart(updated, Value(multiplied), left, digits, leftIndex);
    for rightIndex := 0 to |digits|
      invariant |updated| == |multiplied|
      invariant RowInvariant(updated, carry, Value(multiplied), left, digits, leftIndex, rightIndex)
    {
      var index := leftIndex + rightIndex;
      MultiplyAccumulateFits(updated[index], left, digits[rightIndex], carry);
      var value: u64 := updated[index] + left * digits[rightIndex] + carry;
      RowStep(updated, carry, Value(multiplied), left, digits, leftIndex, rightIndex, value);
      updated := updated[index := value % B];
      carry := value / B;
    }
  }

  method HeapCarry(multiplied: seq<u32>, start: nat, pending: u32) returns (updated: seq<u32>)
    requires start < |multiplied|
    requires Value(multiplied) + Pow(start) * pending < Pow(start + 1)
    ensures |updated| == |multiplied|
    ensures Value(updated) == Value(multiplied) + Pow(start) * pending
  {
    ghost var total := Value(multiplied) + Pow(start) * pending;
    var carry: u32, index := pending, start;
    updated := multiplied;
    while carry > 0
      invariant |updated| == |multiplied| && start <= index
      invariant Value(updated) + Pow(index) * carry == total
      decreases carry > 0, |updated| - index
    {
      CarryInRange(updated, index, carry, total, start + 1);
      CarryStep(updated, index, carry);
      var value: u64 := updated[index] + carry;
      updated := updated[index := value % B];
      carry := value / B;
      index := index + 1;
      if carry > 0 { CarryInRange(updated, index, carry, total, start + 1); }
      if index == |updated| && carry > 0 {
        assert false;  // the vector would grow here
      }
    }
    TimesZero(Pow(index), carry);
  }

  method TrimLimbs(limbs: seq<u32>) returns (trimmed: seq<u32>)
    requires |limbs| >= 1
    ensures Canonical(trimmed) && Value(trimmed) == Value(limbs)
  {
    trimmed := limbs;
    while |trimmed| > 1 && trimmed[|trimmed| - 1] == 0
      invariant |trimmed| >= 1
      invariant Value(trimmed) == Value(limbs)
    {
      TrimStep(trimmed, |trimmed|);
      assert trimmed[..|trimmed|] == trimmed;
      trimmed := trimmed[..|trimmed| - 1];
    }
  }

  // ----- the fixed form -----

  datatype FixedProduct = FixedProduct(digits: array<u32>, len: nat)

  /** Sixteen limbs hold any product of at most four factors; every `None` of the source but the
      first is unreachable. */
  method FixedProductLimbs(factors: seq<u128>) returns (product: Option<FixedProduct>)
    ensures product.Some? <==> |factors| <= 4
    ensures product.Some? ==>
              var p := product.value;
              p.digits.Length == 16 && p.len <= 16
              && Canonical(p.digits[..p.len]) && Value(p.digits[..p.len]) == Product(factors)
  {
    hide Value, Pow;
    if |factors| > 4 {
      return None;
    }
    var digits := new u32[16](i => 0);
    var len := 1;
    digits[0] := 1;
    assert digits[..1] == [1];
    OneIsCanonical();
    for n := 0 to |factors|
      invariant digits.Length == 16 && len <= (if n == 0 then 1 else 4 * n)
      invariant Canonical(digits[..len])
      invariant Value(digits[..len]) == Product(factors[..n])
    {
      assert factors[..n + 1][..n] == factors[..n];
      digits, len := FixedTimes(digits, len, factors[n]);
      ProductBound(factors[..n + 1]);
      CanonicalLength(digits[..len], 4 * (n + 1));
    }
    assert factors[..|factors|] == factors;
    product := Some(FixedProduct(digits, len));
  }

  lemma {:induction false} OneIsCanonical()
    ensures Canonical([1]) && Value([1]) == 1
  {
    assert [1][1..] == [];
  }

  lemma {:induction false} ValueOfNone(acc: seq<u32>, factor: u128)
    ensures Value(acc[..0]) * factor == 0
  {
    TimesZero(factor, Value(acc[..0]));
  }

  /** One round of the fixed form: the accumulator times the next factor, trimmed. */
  method FixedTimes(digits: array<u32>, len: nat, factor: u128) returns (result: array<u32>, resultLen: nat)
    requires digits.Length == 16 && 1 <= len <= 12
    ensures result.Length == 16 && resultLen <= 16
    ensures Canonical(result[..resultLen])
    ensures Value(result[..resultLen]) == Value(digits[..len]) * factor
  {
    hide Value, Pow;
    var factorDigits := FactorDigits(factor);
    result := new u32[16](i => 0);
    ValueOfZeros(result[..]);
    ghost var acc := digits[..len];
    ValueOfNone(acc, factor);
    for leftIndex := 0 to len
      invariant digits[..len] == acc
      invariant Value(result[..]) == Value(acc[..leftIndex]) * factor
    {
      FixedRow(result, digits[leftIndex], leftIndex, factorDigits, acc, factor);
    }
    assert acc[..len] == acc;
    var start := if len + 4 < 16 then len + 4 else 16;
    PartialProductBound(acc, len, factor);
    HighLimbsZero(result[..], start);
    assert result[..][..start] == result[..start];
    resultLen := TrimmedLength(result, start);
  }

  /** A product of n factors fits 4 n limbs. */
  lemma {:induction false} ProductBound(factors: seq<u128>)
    ensures Product(factors) <= Pow(4 * |factors|)
    ensures factors != [] ==> Product(factors) < Pow(4 * |factors|)
  {
    var n := |factors|;
    if n == 0 {
    } else {
      ProductBound(factors[..n - 1]);
      ScaledBound(Product(factors[..n - 1]), 4 * (n - 1), factors[n - 1]);
      assert Product(factors) == Product(factors[..n - 1]) * factors[n - 1];
      assert Pow(4 * (n - 1) + 4) == Pow(4 * n);
    }
  }

  /** Multiplying by 128 bits costs at most four more limbs. */
  lemma {:induction false} ScaledBound(v: nat, k: nat, factor: u128)
    requires v <= Pow(k)
    ensures v * factor < Pow(k + 4)
  {
    PowAdd(k, 4);
    var p, f: nat := Pow(k), factor;
    assert Pow(1) == B && Pow(2) == B * B && Pow(3) == B * B * B && Pow(4) == B * B * B * B;
    MulMonotone(f, v, p);
    MulMonotone(p, f + 1, Pow(4));
    Distribute(p, f, 1);
  }

  /** Canonical limbs are no longer than their value needs. */
  lemma {:induction false} CanonicalLength(limbs: seq<u32>, n: nat)
    requires Canonical(limbs) && n >= 1 && Value(limbs) < Pow(n)
    ensures |limbs| <= n
  {
    if |limbs| > n {
      LimbsNeedTheirLength(limbs);
      PowMonotone(n, |limbs| - 1);
    }
  }

  lemma {:induction false} LimbsNeedTheirLength(limbs: seq<u32>)
    requires |limbs| >= 1 && limbs[|limbs| - 1] != 0
    ensures Pow(|limbs| - 1) <= Value(limbs)
  {
    var k := |limbs| - 1;
    ValueSnoc(limbs, k);
    assert limbs[..|limbs|] == limbs;
    MulMonotone(Pow(k), 1, limbs[k]);
  }

  method TrimmedLength(digits: array<u32>, start: nat) returns (len: nat)
    requires 1 <= start <= digits.Length
    ensures 1 <= len <= start
    ensures Canonical(digits[..len]) && Value(digits[..len]) == Value(digits[..start])
  {
    len := start;
    while len > 1 && digits[len - 1] == 0
      invariant 1 <= len <= start
      invariant Value(digits[..len]) == Value(digits[..start])
    {
      TrimStep(digits[..], len);
      assert digits[..][..len] == digits[..len] && digits[..][..len - 1] == digits[..len - 1];
      len := len - 1;
    }
  }

  method FixedRow(result: array<u32>, left: u32, leftIndex: nat, digits: seq<u32>, ghost acc: seq<u32>, factor: u128)
    requires result.Length == 16 && leftIndex < |acc| && leftIndex + 4 < 16 && left == acc[leftIndex]
    requires |digits| == 4 && Value(digits) == factor
    requires Value(result[..]) == Value(acc[..leftIndex]) * factor
    modifies result
    ensures Value(result[..]) == Value(acc[..leftIndex + 1]) * factor
  {
    var carry := FixedDigits(result, left, leftIndex, digits);
    assert digits[..4] == digits;
    RowDone(acc, leftIndex, factor);
    FixedCarry(result, leftIndex + |digits|, carry);
  }

  method FixedDigits(result: array<u32>, left: u32, leftIndex: nat, digits: seq<u32>) returns (carry: u32)
    requires |digits| == 4 && leftIndex + 4 <= result.Length
    modifies result
    ensures RowInvariant(result[..], carry, old(Value(result[..])), left, digits, leftIndex, 4)
  {
    hide RowInvariant, Value, Pow;
    ghost var base := Value(result[..]);
    carry := 0;
    RowStart(result[..], base, left, digits, leftIndex);
    for rightIndex := 0 to |digits|
      invariant RowInvariant(result[..], carry, base, left, digits, leftIndex, rightIndex)
    {
      var index := leftIndex + rightIndex;
      MultiplyAccumulateFits(result[index], left, digits[rightIndex], carry);
      var value: u64 := result[index] + left * digits[rightIndex] + carry;
      RowStep(result[..], carry, base, left, digits, leftIndex, rightIndex, value);
      ghost var before := result[..];
      result[index] := value % B;
      assert result[..] == before[index := result[index]];
      carry := value / B;
    }
  }

  method FixedCarry(result: array<u32>, start: nat, pending: u32)
    requires start < result.Length
    requires Value(result[..]) + Pow(start) * pending < Pow(start + 1)
    modifies result
    ensures Value(result[..]) == old(Value(result[..])) + Pow(start) * pending
  {
    ghost var total := Value(result[..]) + Pow(start) * pending;
    var carry: u32, index := pending, start;
    while carry > 0
      invariant start <= index
      invariant Value(result[..]) + Pow(index) * carry == total
      decreases carry > 0, result.Length - index
    {
      CarryInRange(result[..], index, carry, total, start + 1);
      CarryStep(result[..], index, carry);
      var value: u64 := result[index] + carry;
      ghost var before := result[..];
      result[index] := value % B;
      assert result[..] == before[index := result[index]];
      carry := value / B;
      index := index + 1;
    }
    TimesZero(Pow(index), carry);
  }

  // ----- the comparison -----

  /** The ordering of the two mathematical products, whichever form computes it. */
  method CompareProducts(left: seq<u128>, right: seq<u128>) returns (order: Ordering)
    ensures order == CompareNat(Product(left), Product(right))
  {
    var fixedLeft := FixedProductLimbs(left);
    var fixedRight := FixedProductLimbs(right);
    if fixedLeft.Some? && fixedRight.Some? {
      var l, r := fixedLeft.value, fixedRight.value;
      CompareCanonical(l.digits[..l.len], r.digits[..r.len]);
      order := CompareBigEndian(Reversed(l.digits[..l.len]), Reversed(r.digits[..r.len]));
    } else {
      var l := HeapProductLimbs(left);
      var r := HeapProductLimbs(right);
      ghost var a :| Canonical(a) && Value(a) == Product(left) && l == Reversed(a);
      ghost var b :| Canonical(b) && Value(b) == Product(right) && r == Reversed(b);
      CompareCanonical(a, b);
      order := CompareBigEndian(l, r);
    }
  }
}
