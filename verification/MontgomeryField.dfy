/** The contract's `Field`: limbs in Montgomery form, related to residues modulo `P`. */
module MontgomeryField {
  import opened Arithmetic
  import opened Limbs
  import opened Residues

  datatype Field = Field(limbs: Raw) {
    /** Every operation keeps the stored representative below the modulus. */
    predicate Reduced() {
      Val(limbs) < P
    }

    /** The element these limbs stand for. */
    function Residue(): Fe {
      (Val(limbs) * R_INV) % P
    }
  }

  type Reduced = f: Field | f.Reduced() witness Field([0, 0, 0, 0])

  /** The residue is the unique element whose product with the radix is the stored value. */
  lemma ResidueScaled(f: Field)
    ensures (f.Residue() * R) % P == Val(f.limbs) % P
  {
    var v := Val(f.limbs);
    ModMul(v * R_INV, R, P);
    MulAssoc(v, R_INV, R);
    assert R_INV * R == R * R_INV;
    RadixInverse();
    ModMul(v, R * R_INV, P);
  }

  lemma ResidueFrom(f: Field, z: int)
    requires f.Reduced() && Val(f.limbs) % P == (z * R) % P
    ensures f.Residue() == z % P
  {
    LeBound(B, f.limbs);
    ModMul(Val(f.limbs), R_INV, P);
    ModMul(z * R, R_INV, P);
    MulAssoc(z, R, R_INV);
    RadixInverse();
    ModMul(z, R * R_INV, P);
  }

  /** Limb equality, the derived `Eq` of the contract, is equality of elements. */
  lemma LimbsCanonical(f: Reduced, g: Reduced)
    ensures f == g <==> f.Residue() == g.Residue()
  {
    ResidueScaled(f);
    ResidueScaled(g);
    LeBound(B, f.limbs);
    LeBound(B, g.limbs);
    ModSmall(Val(f.limbs), P);
    ModSmall(Val(g.limbs), P);
    if f.Residue() == g.Residue() {
      LeUnique(B, f.limbs, g.limbs);
    }
  }

  method Zero() returns (r: Reduced)
    ensures r.Residue() == 0
  {
    ZeroValue([0, 0, 0, 0]);
    r := Field([0, 0, 0, 0]);
  }

  method Add(a: Reduced, b: Reduced) returns (r: Reduced)
    ensures r.Residue() == FeAdd(a.Residue(), b.Residue())
  {
    LeBound(B, a.limbs);
    LeBound(B, b.limbs);
    ModulusValue();
    var sum, carry := AddRaw(a.limbs, b.limbs);
    LeBound(B, sum);
    var large := Geq(sum, MODULUS);
    var limbs := sum;
    if carry || large {
      limbs := SubRaw(sum, MODULUS);
    }
    SumResidue(a, b, limbs);
    r := Field(limbs);
  }

  lemma SumResidue(a: Reduced, b: Reduced, limbs: Raw)
    requires Val(limbs) < P
    requires Val(limbs) == Val(a.limbs) + Val(b.limbs) || Val(limbs) == Val(a.limbs) + Val(b.limbs) - P
    ensures Field(limbs).Residue() == FeAdd(a.Residue(), b.Residue())
  {
    var x, y := Val(a.limbs), Val(b.limbs);
    var k := if Val(limbs) == x + y then 0 else -1;
    ModShift(Val(limbs) * R_INV, (x + y) * R_INV, k * R_INV, P);
    assert (x + y) * R_INV == x * R_INV + y * R_INV;
    ModAdd(x * R_INV, y * R_INV, P);
  }

  method Mul(a: Reduced, b: Reduced) returns (r: Reduced)
    ensures r.Residue() == FeMul(a.Residue(), b.Residue())
  {
    var limbs := MontgomeryMulRaw(a.limbs, b.limbs);
    r := Field(limbs);
    ProductResidue(a, b, r);
  }

  lemma ProductResidue(a: Reduced, b: Reduced, r: Reduced)
    requires (Val(r.limbs) * R) % P == (Val(a.limbs) * Val(b.limbs)) % P
    ensures r.Residue() == FeMul(a.Residue(), b.Residue())
  {
    var x, y := Val(a.limbs), Val(b.limbs);
    LeBound(B, r.limbs);
    MontgomeryUnique(Val(r.limbs), x * y);
    ModMul(x * y * R_INV, R_INV, P);
    assert x * y * R_INV * R_INV == (x * R_INV) * (y * R_INV);
    ModMul(x * R_INV, y * R_INV, P);
    ModMul(x * R_INV, (y * R_INV) % P, P);
  }

  method Square(a: Reduced) returns (r: Reduced)
    ensures r.Residue() == FeMul(a.Residue(), a.Residue())
  {
    r := Mul(a, a);
  }

  /** The Poseidon S-box: the fifth power of the element. */
  method Pow5(a: Reduced) returns (r: Reduced)
    ensures r.Residue() == Pow(a.Residue(), 5) % P
  {
    var squared := Square(a);
    var fourth := Square(squared);
    r := Mul(fourth, a);
    FifthPower(a.Residue());
  }

  lemma FifthPower(x: Fe)
    ensures FeMul(FeMul(FeMul(x, x), FeMul(x, x)), x) == Pow(x, 5) % P
  {
    ModMul(x * x, x * x, P);
    ModMul((x * x) * (x * x), x, P);
    assert Pow(x, 1) == x && Pow(x, 2) == x * x;
    PowAdd(x, 2, 2);
    PowAdd(x, 4, 1);
  }

  /** `from_raw`: any 256-bit number enters the field as its residue. */
  method FromRaw(raw: Raw) returns (r: Reduced)
    ensures r.Residue() == Val(raw) % P
  {
    var x := raw;
    ModulusValue();
    MontR2Value();
    LeBound(B, raw);
    var large := Geq(x, MODULUS);
    while large
      invariant large <==> Val(x) >= P
      invariant Val(x) % P == Val(raw) % P
      decreases Val(x)
    {
      LeBound(B, x);
      ModShift(Val(x) - P, Val(x), -1, P);
      x := SubRaw(x, MODULUS);
      large := Geq(x, MODULUS);
    }
    var limbs := MontgomeryMulRaw(x, MONT_R2);
    r := Field(limbs);
    EnterResidue(r, Val(x));
  }

  lemma EnterResidue(r: Reduced, x: int)
    requires (Val(r.limbs) * R) % P == (x * Val(MONT_R2)) % P
    ensures r.Residue() == x % P
  {
    LeBound(B, r.limbs);
    MontR2Value();
    ModMul(x, R * R, P);
    MontgomeryUnique(Val(r.limbs), x * (R * R));
    assert x * (R * R) * R_INV == (x * R) * (R * R_INV);
    RadixInverse();
    ModMul(x * R, R * R_INV, P);
    ModSmall(Val(r.limbs), P);
    ResidueFrom(r, x);
  }

  /** `to_raw`: the canonical limbs of the element. */
  method ToRaw(a: Reduced) returns (raw: Raw)
    ensures Val(raw) == a.Residue()
  {
    ValUnfold4(1, 0, 0, 0);
    raw := MontgomeryMulRaw(a.limbs, [1, 0, 0, 0]);
    LeBound(B, raw);
    MontgomeryUnique(Val(raw), Val(a.limbs));
  }

  method FromU64(x: u64) returns (r: Reduced)
    ensures r.Residue() == x
  {
    ValUnfold4(x, 0, 0, 0);
    r := FromRaw([x, 0, 0, 0]);
    ModSmall(x, P);
  }

  method FromU128(x: u128) returns (r: Reduced)
    ensures r.Residue() == x
  {
    ValUnfold4(x % B, x / B, 0, 0);
    r := FromRaw([x % B, x / B, 0, 0]);
    ModSmall(x, P);
  }

  method AddSmall(a: Reduced, x: u64) returns (r: Reduced)
    ensures r.Residue() == (a.Residue() + x) % P
  {
    var b := FromU64(x);
    r := Add(a, b);
  }

  method MulSmall(a: Reduced, x: u64) returns (r: Reduced)
    ensures r.Residue() == a.Residue() * x % P
  {
    var b := FromU64(x);
    r := Mul(a, b);
  }

  lemma HornerStep(v: int, byte: int)
    ensures FeAdd(FeMul(v % P, 256), byte % P) == (v * 256 + byte) % P
  {
    ModMul(v, 256, P);
    ModAdd(v * 256, byte, P);
  }

  /** `from_be_bytes`: Horner's rule in Montgomery form computes the residue of the value. */
  method FromBytesBe(bytes: seq<byte>) returns (r: Reduced)
    ensures r.Residue() == FromBeBytes(bytes)
  {
    r := Zero();
    for i := 0 to |bytes|
      invariant r.Residue() == FromBeBytes(bytes[..i])
    {
      HornerStep(BeValue(bytes[..i]), bytes[i]);
      ModSmall(bytes[i], P);
      assert bytes[..i + 1][..i] == bytes[..i];
      r := MulSmall(r, 256);
      r := AddSmall(r, bytes[i]);
    }
    assert bytes[..|bytes|] == bytes;
  }

  /** `from_bytes_le`: the same from the other end. */
  method FromBytesLe(bytes: seq<byte>) returns (r: Reduced)
    ensures r.Residue() == LeValue(256, bytes) % P
  {
    r := Zero();
    assert bytes[|bytes|..] == [];
    for i := |bytes| downto 0
      invariant r.Residue() == LeValue(256, bytes[i..]) % P
    {
      HornerStep(LeValue(256, bytes[i + 1..]), bytes[i]);
      ModSmall(bytes[i], P);
      assert bytes[i..][1..] == bytes[i + 1..];
      r := MulSmall(r, 256);
      r := AddSmall(r, bytes[i]);
    }
    assert bytes[0..] == bytes;
  }

  /** `[0u8; 32]`; what it holds is overwritten. */
  method FreshBytes() returns (out: Bytes32)
  {
    out := BeDigits(0, 32);
  }

  /** `to_bytes_be`: limb by limb, the canonical wire form of the element. */
  method ToBytes(a: Reduced) returns (out: Bytes32)
    ensures out == ToBytesBe(a.Residue())
  {
    var raw := ToRaw(a);
    out := FreshBytes();
    for i := 0 to 4
      invariant BeValue(out[32 - 8 * i..]) == Val(raw[..i])
    {
      WireStep(out, raw, i);
      out := WithLimb(out, raw[i], i);
    }
    WireDone(out, raw);
  }

  lemma WireDone(out: Bytes32, raw: Raw)
    requires BeValue(out[0..]) == Val(raw[..4]) && 0 <= Val(raw) < P
    ensures out == ToBytesBe(Val(raw))
  {
    assert raw[..4] == raw && out[0..] == out;
    BeDigitsOfValue(out);
  }

  /** Limb `i` written big-endian to its place, counted from the end. */
  function WithLimb(out: Bytes32, limb: u64, i: nat): Bytes32
    requires i < 4
  {
    out[..24 - 8 * i] + BeDigits(limb, 8) + out[32 - 8 * i..]
  }

  lemma WireStep(out: Bytes32, raw: Raw, i: nat)
    requires i < 4 && BeValue(out[32 - 8 * i..]) == Val(raw[..i])
    ensures var next := WithLimb(out, raw[i], i);
            BeValue(next[32 - 8 * (i + 1)..]) == Val(raw[..i + 1])
  {
    var limb, low := BeDigits(raw[i], 8), out[32 - 8 * i..];
    var next := WithLimb(out, raw[i], i);
    assert next[24 - 8 * i..] == limb + low;
    BeValueAppend(limb, low);
    WireWidth();
    BeValueOfDigits(raw[i], 8);
    LeSnoc(B, raw, i);
    BytePowers(i);
  }

  lemma {:induction false} BytePowers(i: nat)
    ensures Pow(256, 8 * i) == Pow(B, i)
  {
    if i > 0 {
      BytePowers(i - 1);
      WireWidth();
      PowAdd(256, 8, 8 * (i - 1));
    }
  }

  /** Serialise then parse: the contract's own round trip, down to the limbs. */
  method WireRoundTripLimbs(a: Reduced) returns (b: Reduced)
    ensures b == a
  {
    var bytes := ToBytes(a);
    b := FromBytesBe(bytes);
    WireRoundTrip(a.Residue());
    LimbsCanonical(a, b);
  }
}
