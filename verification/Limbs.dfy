/** Four-limb arithmetic of the contract's field: carries, borrows and Montgomery reduction. */
module Limbs {
  import opened Arithmetic

  const B: int := 0x1_0000_0000_0000_0000
  type u64 = x: int | 0 <= x < 0x1_0000_0000_0000_0000
  type u128 = x: int | 0 <= x < 0x1_0000_0000_0000_0000_0000_0000_0000_0000

  /** A raw limb array `[u64; 4]`, least significant limb first. */
  type Raw = s: seq<u64> | |s| == 4 witness [0, 0, 0, 0]

  const MODULUS: Raw := [0x43e1f593f0000001, 0x2833e84879b97091, 0xb85045b68181585d, 0x30644e72e131a029]
  const MONT_R2: Raw := [0x1bb8e645ae216da7, 0x53fe3ab1e35c59e3, 0x8c49833d53bb8085, 0x0216d0b17f4e44a5]
  const MONT_NEG_INV: u64 := 0xc2e1f593efffffff

  /** The BN254 scalar modulus. */
  const P: int := 0x30644e72e131a029b85045b68181585d2833e84879b9709143e1f593f0000001
  /** The Montgomery radix 2^256 and its inverse modulo `P`. */
  const R: int := 0x1_0000000000000000_0000000000000000_0000000000000000_0000000000000000
  const R_INV: int := 0x15ebf95182c5551cc8260de4aeb85d5d090ef5a9e111ec87dc5ba0056db1194e

  function Val(s: seq<int>): int {
    LeValue(B, s)
  }

  lemma ValUnfold4(a: int, b: int, c: int, d: int)
    ensures Val([a, b, c, d]) == a + B * (b + B * (c + B * d))
  {
    assert [a, b, c, d][1..] == [b, c, d];
    assert [b, c, d][1..] == [c, d];
    assert [c, d][1..] == [d];
    assert Val([d]) == d + B * Val([d][1..]) == d;
    assert Val([c, d]) == c + B * Val([d]);
    assert Val([b, c, d]) == b + B * Val([c, d]);
  }

  lemma ModulusValue()
    ensures Val(MODULUS) == P
    ensures 0 < 4 * P < R
  {
    ValUnfold4(MODULUS[0], MODULUS[1], MODULUS[2], MODULUS[3]);
    assert MODULUS == [MODULUS[0], MODULUS[1], MODULUS[2], MODULUS[3]];
  }

  lemma RadixPowers()
    ensures Pow(B, 0) == 1 && Pow(B, 1) == B
    ensures Pow(B, 4) == R && Pow(B, 8) == R * R && Pow(B, 9) == R * R * B
  {
    assert Pow(B, 2) == B * B;
    assert Pow(B, 3) == B * Pow(B, 2);
    assert Pow(B, 4) == B * Pow(B, 3);
    PowAdd(B, 4, 4);
    PowAdd(B, 8, 1);
  }

  lemma RadixInverse()
    ensures (R * R_INV) % P == 1
  {
    var q := 0x73f82f1d0d8341b2e39a9828990623916586864b4c6911b3c2e1f593efffffff;
    assert R * R_INV == P * q + 1;
    DivModUnique(R * R_INV, q, 1, P);
  }

  lemma MontR2Value()
    ensures Val(MONT_R2) == (R * R) % P < P
  {
    ValUnfold4(MONT_R2[0], MONT_R2[1], MONT_R2[2], MONT_R2[3]);
    assert MONT_R2 == [MONT_R2[0], MONT_R2[1], MONT_R2[2], MONT_R2[3]];
    var q := 0x54a47462623a04a7ab074a58680730147144852009e880ae620703a6be1de9259;
    assert R * R == P * q + Val(MONT_R2);
    DivModUnique(R * R, q, Val(MONT_R2), P);
  }

  /** `MONT_NEG_INV` turns the lowest limb into one the modulus cancels. */
  lemma NegInvCancels(t: u64)
    ensures (t + ((t * MONT_NEG_INV) % B) * MODULUS[0]) % B == 0
  {
    var m := (t * MONT_NEG_INV) % B;
    var q := (t * MONT_NEG_INV) / B;
    assert MONT_NEG_INV * MODULUS[0] == 0x33ad26d16d505ede * B - 1;
    assert t + m * MODULUS[0] == 0 + (t * 0x33ad26d16d505ede - q * MODULUS[0]) * B;
    ModShift(t + m * MODULUS[0], 0, t * 0x33ad26d16d505ede - q * MODULUS[0], B);
  }

  // ----- add_raw, sub_raw, geq -----

  /** `add_raw`: the sum modulo 2^256 and the carry out. */
  method AddRaw(a: Raw, b: Raw) returns (out: Raw, carryOut: bool)
    ensures Val(a) + Val(b) == Val(out) + (if carryOut then R else 0)
  {
    out := [0, 0, 0, 0];
    var carry: u128 := 0;
    for i := 0 to 4
      invariant carry <= 1
      invariant Val(out[..i]) + carry * Pow(B, i) == Val(a[..i]) + Val(b[..i])
    {
      var v: u128 := a[i] + b[i] + carry;
      AddStep(a, b, out, i, carry);
      out, carry := out[i := v % B], v / B;
    }
    RadixPowers();
    assert out[..4] == out && a[..4] == a && b[..4] == b;
    carryOut := carry != 0;
  }

  lemma AddStep(a: Raw, b: Raw, out: Raw, i: nat, carry: int)
    requires i < 4
    requires Val(out[..i]) + carry * Pow(B, i) == Val(a[..i]) + Val(b[..i])
    ensures var v := a[i] + b[i] + carry;
            Val(out[i := v % B][..i + 1]) + v / B * Pow(B, i + 1) == Val(a[..i + 1]) + Val(b[..i + 1])
  {
    var v, p := a[i] + b[i] + carry, Pow(B, i);
    var next := out[i := v % B];
    assert next[..i] == out[..i];
    LeSnoc(B, next, i);
    LeSnoc(B, a, i);
    LeSnoc(B, b, i);
    assert Pow(B, i + 1) == B * p;
    AddStepArithmetic(a[i], b[i], carry, p);
  }

  lemma AddStepArithmetic(x: int, y: int, carry: int, p: int)
    ensures var v := x + y + carry;
            v % B * p + v / B * (B * p) == x * p + y * p + carry * p
  {
    var v := x + y + carry;
    assert v % B + B * (v / B) == v;
    assert v / B * (B * p) == (B * (v / B)) * p;
    assert (v % B + B * (v / B)) * p == v % B * p + (B * (v / B)) * p;
  }

  function OverflowingSub(x: u64, y: u64): (r: (u64, bool))
    ensures r.0 == x - y + (if r.1 then B else 0)
  {
    if x < y then (x - y + B, true) else (x - y, false)
  }

  function OverflowingAdd(x: u64, y: u64): (r: (u64, bool))
    ensures x + y == r.0 + (if r.1 then B else 0)
  {
    if x + y < B then (x + y, false) else (x + y - B, true)
  }

  /** `sub_raw`: the difference modulo 2^256; the last borrow is dropped. */
  method SubRaw(a: Raw, b: Raw) returns (out: Raw)
    ensures Val(out) == Val(a) - Val(b) + (if Val(a) < Val(b) then R else 0)
  {
    out := [0, 0, 0, 0];
    var borrow: u64 := 0;
    for i := 0 to 4
      invariant borrow <= 1
      invariant Val(out[..i]) - borrow * Pow(B, i) == Val(a[..i]) - Val(b[..i])
    {
      var (v1, b1) := OverflowingSub(a[i], b[i]);
      var (v2, b2) := OverflowingSub(v1, borrow);
      SubStep(a, b, out, i, borrow, v2, if b1 || b2 then 1 else 0);
      out, borrow := out[i := v2], if b1 || b2 then 1 else 0;
    }
    RadixPowers();
    assert out[..4] == out && a[..4] == a && b[..4] == b;
    LeBound(B, a);
    LeBound(B, b);
    LeBound(B, out);
  }

  lemma SubStep(a: Raw, b: Raw, out: Raw, i: nat, borrow: int, digit: u64, next: int)
    requires i < 4
    requires Val(out[..i]) - borrow * Pow(B, i) == Val(a[..i]) - Val(b[..i])
    requires a[i] - b[i] - borrow == digit - B * next
    ensures Val(out[i := digit][..i + 1]) - next * Pow(B, i + 1) == Val(a[..i + 1]) - Val(b[..i + 1])
  {
    var p := Pow(B, i);
    var after := out[i := digit];
    assert after[..i] == out[..i];
    LeSnoc(B, after, i);
    LeSnoc(B, a, i);
    LeSnoc(B, b, i);
    assert Pow(B, i + 1) == B * p;
    SubStepArithmetic(a[i], b[i], borrow, digit, next, p);
  }

  lemma SubStepArithmetic(x: int, y: int, borrow: int, digit: int, next: int, p: int)
    requires x - y - borrow == digit - B * next
    ensures x * p - y * p - borrow * p == digit * p - next * (B * p)
  {
    assert (x - y - borrow) * p == x * p - y * p - borrow * p;
    assert (digit - B * next) * p == digit * p - (B * next) * p;
    assert next * (B * p) == (B * next) * p;
  }

  /** `geq`: limb comparison from the top is comparison of the values. */
  method Geq(a: Raw, b: Raw) returns (r: bool)
    ensures r <==> Val(a) >= Val(b)
  {
    for i := 4 downto 0
      invariant a[i..] == b[i..]
    {
      if a[i] != b[i] {
        if a[i] > b[i] {
          LeTopDigit(B, a, b, i);
        } else {
          LeTopDigit(B, b, a, i);
        }
        return a[i] > b[i];
      }
      assert a[i..] == [a[i]] + a[i + 1..] && b[i..] == [b[i]] + b[i + 1..];
    }
    assert a[0..] == a && b[0..] == b;
    return true;
  }

  // ----- the nine-limb accumulator -----

  /** `add_carry`: ripples a carry upwards from limb `start`; it never runs off limb 8. */
  method AddCarry(t: array<u64>, start: nat, c: u64)
    requires t.Length == 9 && start <= 9
    requires Val(t[..]) + c * Pow(B, start) < Pow(B, 9)
    modifies t
    ensures Val(t[..]) == old(Val(t[..])) + c * Pow(B, start)
    ensures t[..start] == old(t[..start])
  {
    var idx: nat, carry: u64 := start, c;
    while carry != 0
      invariant start <= idx <= 9
      invariant Val(t[..]) + carry * Pow(B, idx) == old(Val(t[..])) + c * Pow(B, start)
      invariant t[..start] == old(t[..start])
      decreases 9 - idx
    {
      CarryFits(t[..], idx, carry);
      var (next, overflow) := OverflowingAdd(t[idx], carry);
      CarryAbsorbed(t[..], idx, carry, next, if overflow then 1 else 0);
      ghost var before := t[..];
      t[idx] := next;
      assert t[..] == before[idx := next];
      carry := if overflow then 1 else 0;
      idx := idx + 1;
    }
  }

  lemma CarryFits(t: seq<u64>, idx: nat, carry: u64)
    requires |t| == 9 && idx <= 9 && carry != 0
    requires Val(t) + carry * Pow(B, idx) < Pow(B, 9)
    ensures idx < 9
  {
    LeBound(B, t);
    PowPositive(B, idx);
    MulLe(1, carry, Pow(B, idx));
  }

  lemma CarryAbsorbed(t: seq<u64>, idx: nat, carry: int, next: u64, high: int)
    requires idx < |t| && t[idx] + carry == next + B * high
    ensures Val(t[idx := next]) + high * Pow(B, idx + 1) == Val(t) + carry * Pow(B, idx)
  {
    var p := Pow(B, idx);
    LeUpdate(B, t, idx, next);
    assert Pow(B, idx + 1) == B * p;
    assert high * (B * p) == (B * high) * p;
    assert (next - t[idx]) * p + (B * high) * p == (next - t[idx] + B * high) * p;
  }

  /**
   * The row both loops of `montgomery_mul_raw` run at offset `i`: adds `x * y` to the
   * accumulator limb by limb in `u128`, then ripples the last carry with `add_carry`.
   */
  method MulAddRow(t: array<u64>, i: nat, x: u64, y: Raw)
    requires t.Length == 9 && i < 4
    requires Val(t[..]) + x * Val(y) * Pow(B, i) < Pow(B, 9)
    modifies t
    ensures Val(t[..]) == old(Val(t[..])) + x * Val(y) * Pow(B, i)
    ensures t[..i] == old(t[..i])
    ensures t[i] == (old(t[i]) + x * y[0]) % B
  {
    var carry: u128 := 0;
    ghost var start := t[..];
    assert RowDone(t[..], start, i, 0, x, y, 0);
    for j := 0 to 4
      invariant carry < B
      invariant RowDone(t[..], start, i, j, x, y, carry)
    {
      var k := i + j;
      ProductFits(t[k], x, y[j], carry);
      var v: u128 := t[k] + x * y[j] + carry;
      RowStep(t[..], start, i, j, x, y, carry);
      ghost var before := t[..];
      t[k] := v % B;
      assert t[..] == before[k := t[k]];
      carry := v / B;
    }
    assert y[..4] == y;
    AddCarry(t, i + 4, carry);
    assert t[..i] == t[..i + 4][..i] && t[i] == t[..i + 4][i];
  }

  /** The state of a row after `j` limbs. */
  ghost predicate RowDone(t: seq<u64>, start: seq<u64>, i: nat, j: nat, x: u64, y: Raw, carry: int)
    requires i < 4 && j <= 4
  {
    && |t| == |start| == 9
    && Val(t) + carry * Pow(B, i + j) == Val(start) + x * Val(y[..j]) * Pow(B, i)
    && t[..i] == start[..i]
    && t[i + j..] == start[i + j..]
    && (j > 0 ==> t[i] == (start[i] + x * y[0]) % B)
    && (j == 0 ==> carry == 0)
  }

  /** A limb plus a limb product plus a carry limb is at most 2^128 - 1. */
  lemma ProductFits(t: u64, x: u64, y: u64, carry: u64)
    ensures 0 <= t + x * y + carry < B * B
    ensures (t + x * y + carry) / B < B
  {
    MulLe(x, B - 1, y);
    MulLe(y, B - 1, B - 1);
    MulLe(0, x, y);
    assert (B - 1) * y <= (B - 1) * (B - 1);
  }

  lemma RowStep(t: seq<u64>, start: seq<u64>, i: nat, j: nat, x: u64, y: Raw, carry: int)
    requires i < 4 && j < 4 && RowDone(t, start, i, j, x, y, carry)
    ensures var v := t[i + j] + x * y[j] + carry;
            RowDone(t[i + j := v % B], start, i, j + 1, x, y, v / B)
  {
    var k, v := i + j, t[i + j] + x * y[j] + carry;
    var after := t[k := v % B];
    CarryAbsorbed(t, k, x * y[j] + carry, v % B, v / B);
    LeSnoc(B, y, j);
    PowAdd(B, i, j);
    RowArithmetic(x, Val(y[..j]), y[j], Pow(B, i), Pow(B, j), carry);
    assert after[..i] == t[..i];
    assert after[k + 1..] == t[k..][1..];
    assert t[k..][0] == start[k..][0];
  }

  lemma RowArithmetic(x: int, low: int, digit: int, pi: int, pj: int, carry: int)
    ensures x * (low + digit * pj) * pi + carry * (pi * pj) == x * low * pi + (x * digit + carry) * (pi * pj)
  {
    assert x * (low + digit * pj) == x * low + x * digit * pj;
    assert (x * low + x * digit * pj) * pi == x * low * pi + x * digit * (pi * pj);
  }

  // ----- Montgomery multiplication -----

  /**
   * `montgomery_mul_raw`: schoolbook product, then four reduction rows, then at most one
   * subtraction. The result is the reduced representative of `a * b / 2^256`.
   */
  method MontgomeryMulRaw(a: Raw, b: Raw) returns (out: Raw)
    requires Val(a) < P && Val(b) < P
    ensures Val(out) < P
    ensures (Val(out) * R) % P == (Val(a) * Val(b)) % P
  {
    var t := new u64[9](_ => 0);
    Multiply(t, a, b);
    LeBound(B, a);
    LeBound(B, b);
    MulLe(Val(a), P, Val(b));
    MulLe(0, Val(a), Val(b));
    ghost var multiple := Reduce(t, Val(a) * Val(b));
    Quotient(t[..], Val(a) * Val(b), multiple);

    out := t[4..8];
    LeBound(B, out);
    ModulusValue();
    FinalSubtraction(Val(out), Val(a) * Val(b), multiple);
    var tooBig := Geq(out, MODULUS);
    if t[8] != 0 || tooBig {
      out := SubRaw(out, MODULUS);
    }
  }

  /** The first loop: the double-width product. */
  method Multiply(t: array<u64>, a: Raw, b: Raw)
    requires t.Length == 9 && forall k :: 0 <= k < 9 ==> t[k] == 0
    modifies t
    ensures Val(t[..]) == Val(a) * Val(b)
  {
    ZeroValue(t[..]);
    for i := 0 to 4
      invariant Val(t[..]) == Val(a[..i]) * Val(b)
    {
      ProductRowFits(a, b, i);
      MulAddRow(t, i, a[i], b);
    }
    assert a[..4] == a;
  }

  /** The second loop: adds the multiple of the modulus that clears the four low limbs. */
  method Reduce(t: array<u64>, ghost product: int) returns (ghost multiple: int)
    requires t.Length == 9 && 0 <= product <= P * P && Val(t[..]) == product
    modifies t
    ensures Cleared(t[..], 4, product, multiple)
  {
    multiple := 0;
    for i := 0 to 4
      invariant Cleared(t[..], i, product, multiple)
    {
      var m: u64 := (t[i] * MONT_NEG_INV) % B;
      ghost var before := t[..];
      ReductionRowFits(product, multiple, m, i);
      MulAddRow(t, i, m, MODULUS);
      ReduceStep(before, t[..], i, m, product, multiple);
      multiple := multiple + m * Pow(B, i);
    }
  }

  /** `i` limbs cleared by adding a multiple of the modulus below the weight of limb `i`. */
  ghost predicate Cleared(t: seq<u64>, i: nat, product: int, multiple: int) {
    && |t| == 9 && i <= 4
    && Val(t) == product + multiple * P
    && 0 <= multiple < Pow(B, i)
    && forall k :: 0 <= k < i ==> t[k] == 0
  }

  lemma ReduceStep(t: seq<u64>, after: seq<u64>, i: nat, m: u64, product: int, multiple: int)
    requires i < 4 && Cleared(t, i, product, multiple) && 0 <= product <= P * P
    requires m == (t[i] * MONT_NEG_INV) % B
    requires |after| == 9 && Val(after) == Val(t) + m * Val(MODULUS) * Pow(B, i)
    requires after[..i] == t[..i] && after[i] == (t[i] + m * MODULUS[0]) % B
    ensures Cleared(after, i + 1, product, multiple + m * Pow(B, i))
  {
    ReductionRowFits(product, multiple, m, i);
    NegInvCancels(t[i]);
    forall k | 0 <= k < i
      ensures after[k] == 0
    {
      assert after[..i][k] == t[..i][k];
    }
  }

  /** One conditional subtraction leaves the product's congruence and reaches the range. */
  lemma FinalSubtraction(high: int, product: int, multiple: int)
    requires 0 <= high < 2 * P && high * R == product + multiple * P
    ensures (high * R) % P == product % P
    ensures ((high - P) * R) % P == product % P
  {
    ModShift(high * R, product, multiple, P);
    assert (high - P) * R == high * R + (-R) * P;
    ModShift((high - P) * R, high * R, -R, P);
  }

  lemma {:induction false} ZeroValue(s: seq<int>)
    requires forall i :: 0 <= i < |s| ==> s[i] == 0
    ensures Val(s) == 0
  {
    if s != [] {
      ZeroValue(s[1..]);
    }
  }

  lemma ProductRowFits(a: Raw, b: Raw, i: nat)
    requires i < 4
    ensures Val(a[..i]) * Val(b) + a[i] * Val(b) * Pow(B, i) == Val(a[..i + 1]) * Val(b) < Pow(B, 9)
  {
    LeSnoc(B, a, i);
    var low, w, y := Val(a[..i]), Pow(B, i), Val(b);
    assert (low + a[i] * w) * y == low * y + a[i] * y * w;
    LeBound(B, a[..i + 1]);
    LeBound(B, b);
    PowMonotone(B, i + 1, 4);
    RadixPowers();
    MulLe(Val(a[..i + 1]), R, y);
    MulLe(y, R, R);
  }

  lemma ReductionRowFits(product: int, multiple: int, m: u64, i: nat)
    requires 0 <= product <= P * P && i < 4 && 0 <= multiple < Pow(B, i)
    ensures var next := multiple + m * Pow(B, i);
            && 0 <= next < Pow(B, i + 1)
            && product + multiple * P + m * Val(MODULUS) * Pow(B, i) == product + next * P < Pow(B, 9)
  {
    var w := Pow(B, i);
    MulLe(m + 1, B, w);
    MulLe(0, m, w);
    assert (m + 1) * w == m * w + w;
    ModulusValue();
    assert m * P * w == (m * w) * P;
    PowMonotone(B, i + 1, 4);
    RadixPowers();
  }

  /** After the reduction rows the high half is the quotient, below twice the modulus. */
  lemma Quotient(t: seq<u64>, product: int, multiple: int)
    requires 0 <= product <= P * P && Cleared(t, 4, product, multiple)
    ensures t[8] == 0 && Val(t[4..8]) * R == product + multiple * P && Val(t[4..8]) < 2 * P
  {
    var low, high := t[..4], t[4..];
    assert t == low + high;
    LeAppend(B, low, high);
    ZeroValue(low);
    RadixPowers();
    ModulusValue();
    assert R * Val(high) < R * (2 * P);
    if high[4] != 0 {
      LeAtLeast(B, high, 4);
    }
    LeSnoc(B, high, 4);
    assert high[..5] == high && high[..4] == t[4..8];
  }

  /** A reduced value is determined by its product with the radix. */
  lemma MontgomeryUnique(r: int, z: int)
    requires 0 <= r < P && (r * R) % P == z % P
    ensures r == (z * R_INV) % P
  {
    RadixInverse();
    ModMul(z, R_INV, P);
    ModMul(r * R, R_INV, P);
    ModMul(r, R * R_INV, P);
    MulAssoc(r, R, R_INV);
    ModSmall(r, P);
  }
}
