/** Byte layouts of verifying keys and proofs, written by the SDK and read by the contract. */
module Groth16Codec {
  import opened Wrappers
  import opened Arithmetic
  import opened Residues

  const FR: nat := 32
  const G1_LEN: nat := 64
  const G2_LEN: nat := 128

  type Coordinate = s: seq<byte> | |s| == 32 witness BeDigits(0, 32)
  type G1Bytes = s: seq<byte> | |s| == 64 witness BeDigits(0, 64)
  type G2Bytes = s: seq<byte> | |s| == 128 witness BeDigits(0, 128)

  /** Points as snarkjs writes them; `z` keeps its decimal text. */
  datatype G1 = G1(x: int, y: int, z: string)
  datatype G2 = G2(x0: int, x1: int, y0: int, y1: int, z0: string, z1: string)
  datatype SnarkjsVk = SnarkjsVk(alpha: G1, beta: G2, gamma: G2, delta: G2, ic: seq<G1>)
  datatype SnarkjsProof = SnarkjsProof(a: G1, b: G2, c: G1)

  // ----- the encoder -----

  predicate Fits(v: int) {
    0 <= v < Pow(256, FR)
  }

  /** `decToLe`: 32 bytes, least significant first, or a range error. */
  method DecToLe(v0: int) returns (r: Option<Coordinate>)
    ensures r.Some? <==> Fits(v0)
    ensures r.Some? ==> LeValue(256, r.value) == v0
  {
    WireWidth();
    if v0 < 0 || v0 >= 0x1_0000000000000000_0000000000000000_0000000000000000_0000000000000000 {
      return None;
    }
    var v: nat := v0;
    var out: seq<byte> := [];
    for i := 0 to FR
      invariant |out| == i && v < Pow(256, FR - i)
      invariant LeValue(256, out) + v * Pow(256, i) == v0
    {
      LeStep(out, v, Pow(256, i));
      out := out + [v % 256];
      v := v / 256;
    }
    r := Some(out);
  }

  lemma LeStep(out: seq<byte>, v: nat, p: int)
    requires p == Pow(256, |out|)
    ensures LeValue(256, out + [v % 256]) + v / 256 * (256 * p) == LeValue(256, out) + v * p
  {
    LeAppendDigit(256, out, v % 256);
    DigitArithmetic(v / 256, v % 256, p);
  }

  lemma DigitArithmetic(high: int, low: int, p: int)
    ensures (256 * high + low) * p == high * (256 * p) + low * p
  {
    assert 256 * high * p == high * (256 * p);
  }

  function Zeros(n: nat): (s: seq<byte>)
    ensures |s| == n
  {
    seq(n, _ => 0)
  }

  /** The coordinate a 32-byte field stands for. */
  function Coord(b: seq<byte>): int {
    LeValue(256, b)
  }

  predicate Infinite1(p: G1) {
    p.z == "0"
  }

  predicate Infinite2(p: G2) {
    p.z0 == "0" && p.z1 == "0"
  }

  /** 64 bytes holding the affine coordinates; the point at infinity is all zeros. */
  ghost predicate Encodes1(b: seq<byte>, p: G1) {
    && |b| == G1_LEN
    && if Infinite1(p) then b == Zeros(G1_LEN) else Coord(b[..32]) == p.x && Coord(b[32..]) == p.y
  }

  /** 128 bytes in the order x.c0, x.c1, y.c0, y.c1. */
  ghost predicate Encodes2(b: seq<byte>, p: G2) {
    && |b| == G2_LEN
    && if Infinite2(p) then b == Zeros(G2_LEN)
       else Coord(b[..32]) == p.x0 && Coord(b[32..64]) == p.x1 && Coord(b[64..96]) == p.y0 && Coord(b[96..]) == p.y1
  }

  predicate Encodable1(p: G1) {
    Infinite1(p) || (Fits(p.x) && Fits(p.y))
  }

  predicate Encodable2(p: G2) {
    Infinite2(p) || (Fits(p.x0) && Fits(p.x1) && Fits(p.y0) && Fits(p.y1))
  }

  method EncodeG1(p: G1) returns (r: Option<G1Bytes>)
    ensures r.Some? <==> Encodable1(p)
    ensures r.Some? ==> Encodes1(r.value, p)
  {
    if p.z == "0" {
      return Some(Zeros(G1_LEN));
    }
    var x := DecToLe(p.x);
    var y := DecToLe(p.y);
    if x.None? || y.None? {
      return None;
    }
    var xs: seq<byte>, ys: seq<byte> := x.value, y.value;
    var o := xs + ys;
    assert o[..32] == xs && o[32..] == ys;
    r := Some(o);
  }

  method EncodeG2(p: G2) returns (r: Option<G2Bytes>)
    ensures r.Some? <==> Encodable2(p)
    ensures r.Some? ==> Encodes2(r.value, p)
  {
    if p.z0 == "0" && p.z1 == "0" {
      return Some(Zeros(G2_LEN));
    }
    var x0 := DecToLe(p.x0);
    var x1 := DecToLe(p.x1);
    var y0 := DecToLe(p.y0);
    var y1 := DecToLe(p.y1);
    if x0.None? || x1.None? || y0.None? || y1.None? {
      return None;
    }
    var a: seq<byte>, b: seq<byte>, c: seq<byte>, d: seq<byte> := x0.value, x1.value, y0.value, y1.value;
    var o := a + b + c + d;
    assert o[..32] == a && o[32..64] == b && o[64..96] == c && o[96..] == d;
    r := Some(o);
  }

  // ----- the parser -----

  datatype VerifyingKey = VerifyingKey(alpha: G1Bytes, beta: G2Bytes, gamma: G2Bytes, delta: G2Bytes, gammaAbc: seq<G1Bytes>)
  datatype Proof = Proof(a: G1Bytes, b: G2Bytes, c: G1Bytes)

  const HEADER: nat := 448

  /** `VerifyingKey::from_bytes`. */
  method ParseVk(bytes: seq<byte>) returns (r: Option<VerifyingKey>)
    ensures r.Some? <==> |bytes| >= HEADER && (|bytes| - HEADER) % G1_LEN == 0
    ensures r.Some? ==> bytes == Flatten(r.value)
  {
    if |bytes| < HEADER || (|bytes| - HEADER) % G1_LEN != 0 {
      return None;
    }
    var count := (|bytes| - HEADER) / G1_LEN;
    var points: seq<G1Bytes> := [];
    for i := 0 to count
      invariant |points| == i
      invariant Joined(points) == bytes[HEADER..HEADER + i * G1_LEN]
    {
      var g1: G1Bytes := bytes[HEADER + i * G1_LEN..HEADER + (i + 1) * G1_LEN];
      JoinedSnoc(points, g1);
      points := points + [g1];
    }
    assert HEADER + count * G1_LEN == |bytes|;
    r := Some(VerifyingKey(bytes[0..64], bytes[64..192], bytes[192..320], bytes[320..448], points));
    assert bytes == bytes[0..64] + bytes[64..192] + bytes[192..320] + bytes[320..448] + bytes[448..];
  }

  function Joined(points: seq<G1Bytes>): seq<byte> {
    if points == [] then [] else points[0] + Joined(points[1..])
  }

  /** The layout: header points first, then the input points. */
  function Flatten(vk: VerifyingKey): seq<byte> {
    vk.alpha + vk.beta + vk.gamma + vk.delta + Joined(vk.gammaAbc)
  }

  lemma {:induction false} JoinedSnoc(points: seq<G1Bytes>, p: G1Bytes)
    ensures Joined(points + [p]) == Joined(points) + p
  {
    if points != [] {
      assert (points + [p])[1..] == points[1..] + [p];
      JoinedSnoc(points[1..], p);
    }
  }

  lemma {:induction false} JoinedLength(points: seq<G1Bytes>)
    ensures |Joined(points)| == G1_LEN * |points|
  {
    if points != [] {
      JoinedLength(points[1..]);
    }
  }

  lemma {:induction false} JoinedInjective(s: seq<G1Bytes>, t: seq<G1Bytes>)
    requires Joined(s) == Joined(t)
    ensures s == t
  {
    JoinedLength(s);
    JoinedLength(t);
    if s != [] {
      assert Joined(s)[..64] == s[0] && Joined(s)[64..] == Joined(s[1..]);
      assert Joined(t)[..64] == t[0] && Joined(t)[64..] == Joined(t[1..]);
      JoinedInjective(s[1..], t[1..]);
      assert s == [s[0]] + s[1..] && t == [t[0]] + t[1..];
    }
  }

  /** The layout determines the key. */
  lemma FlattenInjective(v: VerifyingKey, w: VerifyingKey)
    requires Flatten(v) == Flatten(w)
    ensures v == w
  {
    SplitHeader(v);
    SplitHeader(w);
    JoinedInjective(v.gammaAbc, w.gammaAbc);
  }

  lemma SplitHeader(v: VerifyingKey)
    ensures var f := Flatten(v);
            && |f| >= 448 && f[0..64] == v.alpha && f[64..192] == v.beta && f[192..320] == v.gamma
            && f[320..448] == v.delta && f[448..] == Joined(v.gammaAbc)
  {
  }

  ghost predicate EncodesVk(key: VerifyingKey, vk: SnarkjsVk) {
    && Encodes1(key.alpha, vk.alpha) && Encodes2(key.beta, vk.beta)
    && Encodes2(key.gamma, vk.gamma) && Encodes2(key.delta, vk.delta)
    && |key.gammaAbc| == |vk.ic|
    && forall i :: 0 <= i < |vk.ic| ==> Encodes1(key.gammaAbc[i], vk.ic[i])
  }

  predicate EncodableVk(vk: SnarkjsVk) {
    && Encodable1(vk.alpha) && Encodable2(vk.beta) && Encodable2(vk.gamma) && Encodable2(vk.delta)
    && forall i :: 0 <= i < |vk.ic| ==> Encodable1(vk.ic[i])
  }

  /** The input points, one after the other. */
  method EncodePoints(ic: seq<G1>) returns (r: Option<seq<byte>>, ghost points: seq<G1Bytes>)
    ensures r.Some? <==> forall i :: 0 <= i < |ic| ==> Encodable1(ic[i])
    ensures r.Some? ==> |points| == |ic| && r.value == Joined(points)
    ensures r.Some? ==> forall i :: 0 <= i < |ic| ==> Encodes1(points[i], ic[i])
  {
    points := [];
    var tail: seq<byte> := [];
    for i := 0 to |ic|
      invariant |points| == i && tail == Joined(points)
      invariant forall k :: 0 <= k < i ==> Encodable1(ic[k]) && Encodes1(points[k], ic[k])
    {
      var p := EncodeG1(ic[i]);
      if p.None? {
        return None, points;
      }
      JoinedSnoc(points, p.value);
      points := points + [p.value];
      tail := tail + p.value;
    }
    r := Some(tail);
  }

  /** `vkJsonToContractBytes`: the parts in order; out-of-range coordinates are an error. */
  method EncodeVk(vk: SnarkjsVk) returns (r: Option<seq<byte>>, ghost key: VerifyingKey)
    ensures r.Some? <==> EncodableVk(vk)
    ensures r.Some? ==> r.value == Flatten(key) && EncodesVk(key, vk)
    ensures r.Some? ==> LaidOut(r.value, vk)
  {
    key := VerifyingKey(Zeros(64), Zeros(128), Zeros(128), Zeros(128), []);
    var alpha := EncodeG1(vk.alpha);
    var beta := EncodeG2(vk.beta);
    var gamma := EncodeG2(vk.gamma);
    var delta := EncodeG2(vk.delta);
    var tail, points := EncodePoints(vk.ic);
    if alpha.None? || beta.None? || gamma.None? || delta.None? || tail.None? {
      return None, key;
    }
    key := VerifyingKey(alpha.value, beta.value, gamma.value, delta.value, points);
    r := Some(alpha.value + beta.value + gamma.value + delta.value + tail.value);
    LayoutAt(key, vk);
  }

  /** The layout in absolute offsets. */
  ghost predicate LaidOut(f: seq<byte>, vk: SnarkjsVk) {
    && |f| == 448 + 64 * |vk.ic|
    && Encodes1(f[0..64], vk.alpha) && Encodes2(f[64..192], vk.beta)
    && Encodes2(f[192..320], vk.gamma) && Encodes2(f[320..448], vk.delta)
    && forall i :: 0 <= i < |vk.ic| ==> Encodes1(f[448 + 64 * i..512 + 64 * i], vk.ic[i])
  }

  lemma LayoutAt(key: VerifyingKey, vk: SnarkjsVk)
    requires EncodesVk(key, vk)
    ensures LaidOut(Flatten(key), vk)
  {
    var f := Flatten(key);
    SplitHeader(key);
    JoinedLength(key.gammaAbc);
    forall i | 0 <= i < |vk.ic|
      ensures Encodes1(f[448 + 64 * i..512 + 64 * i], vk.ic[i])
    {
      JoinedAt(key.gammaAbc, i);
      assert f[448 + 64 * i..512 + 64 * i] == f[448..][64 * i..64 * i + 64];
    }
  }

  lemma {:induction false} JoinedAt(points: seq<G1Bytes>, i: nat)
    requires i < |points|
    ensures 64 * i + 64 <= |Joined(points)| && Joined(points)[64 * i..64 * i + 64] == points[i]
  {
    JoinedLength(points);
    if i > 0 {
      JoinedAt(points[1..], i - 1);
      JoinedLength(points[1..]);
      assert Joined(points)[64 * i..64 * i + 64] == Joined(points)[64..][64 * (i - 1)..64 * (i - 1) + 64];
    }
  }

  /** Round trip: parsing an encoded key succeeds and recovers every coordinate of every point. */
  method VkRoundTrip(vk: SnarkjsVk) returns (r: Option<VerifyingKey>)
    requires EncodableVk(vk)
    ensures r.Some? && EncodesVk(r.value, vk)
  {
    var bytes, key := EncodeVk(vk);
    FlattenedLength(key);
    r := ParseVk(bytes.value);
    FlattenInjective(r.value, key);
  }

  lemma FlattenedLength(key: VerifyingKey)
    ensures |Flatten(key)| >= HEADER && (|Flatten(key)| - HEADER) % G1_LEN == 0
  {
    SplitHeader(key);
    JoinedLength(key.gammaAbc);
  }

  /** `compute_linear_combination` accepts `n` inputs exactly for keys of `448 + 64 (n + 1)` bytes. */
  lemma KeyLengthFixesInputs(key: VerifyingKey, inputs: nat)
    ensures |key.gammaAbc| == inputs + 1 <==> |Flatten(key)| == HEADER + G1_LEN * (inputs + 1)
  {
    SplitHeader(key);
    JoinedLength(key.gammaAbc);
  }

  /** `Proof::from_bytes`. */
  method ParseProof(bytes: seq<byte>) returns (r: Option<Proof>)
    ensures r.Some? <==> |bytes| == 256
    ensures r.Some? ==> bytes == r.value.a + r.value.b + r.value.c
  {
    if |bytes| != G1_LEN + G2_LEN + G1_LEN {
      return None;
    }
    r := Some(Proof(bytes[..64], bytes[64..192], bytes[192..]));
    assert bytes == bytes[..64] + bytes[64..192] + bytes[192..];
  }

  /** `snarkjsProofToBytes`: A at 0, B at 64, C at 192, in 256 bytes. */
  method EncodeProof(proof: SnarkjsProof) returns (r: Option<seq<byte>>)
    ensures r.Some? <==> Encodable1(proof.a) && Encodable2(proof.b) && Encodable1(proof.c)
    ensures r.Some? ==> |r.value| == 256 && Encodes1(r.value[0..64], proof.a) && Encodes2(r.value[64..192], proof.b)
                        && Encodes1(r.value[192..256], proof.c)
  {
    var a := EncodeG1(proof.a);
    var b := EncodeG2(proof.b);
    var c := EncodeG1(proof.c);
    if a.None? || b.None? || c.None? {
      return None;
    }
    var o := a.value + b.value + c.value;
    assert o[0..64] == a.value && o[64..192] == b.value && o[192..256] == c.value;
    r := Some(o);
  }

  /** Round trip: parsing an encoded proof recovers the three points. */
  method ProofRoundTrip(proof: SnarkjsProof) returns (r: Option<Proof>)
    ensures r.Some? <==> Encodable1(proof.a) && Encodable2(proof.b) && Encodable1(proof.c)
    ensures r.Some? ==> Encodes1(r.value.a, proof.a) && Encodes2(r.value.b, proof.b) && Encodes1(r.value.c, proof.c)
  {
    var bytes := EncodeProof(proof);
    if bytes.None? {
      return None;
    }
    var o := bytes.value;
    r := ParseProof(o);
    assert o[0..64] == r.value.a && o[64..192] == r.value.b && o[192..256] == r.value.c;
  }

  // ----- negate_g1 -----

  /** The BN254 base field modulus. */
  const Q: int := 0x30644e72e131a029b85045b68181585d97816a916871ca8d3c208c16d87cfd47

  /** The modulus as the table of bytes in the code, least significant first. */
  method ModulusBytes() returns (q: Coordinate)
    ensures Coord(q) == Q
  {
    var a := Word(0x47, 0xFD, 0x7C, 0xD8, 0x16, 0x8C, 0x20, 0x3C);
    var b := Word(0x8D, 0xCA, 0x71, 0x68, 0x91, 0x6A, 0x81, 0x97);
    var c := Word(0x5D, 0x58, 0x81, 0x81, 0xB6, 0x45, 0x50, 0xB8);
    var d := Word(0x29, 0xA0, 0x31, 0xE1, 0x72, 0x4E, 0x64, 0x30);
    FourWords(a, b, c, d);
    q := a + b + c + d;
  }

  /** Eight bytes of the table. */
  method Word(b0: byte, b1: byte, b2: byte, b3: byte, b4: byte, b5: byte, b6: byte, b7: byte) returns (w: seq<byte>)
    ensures |w| == 8
    ensures Coord(w) == b0 + 0x100 * b1 + 0x10000 * b2 + 0x100_0000 * b3 + 0x1_0000_0000 * b4
                        + 0x100_0000_0000 * b5 + 0x1_0000_0000_0000 * b6 + 0x100_0000_0000_0000 * b7
  {
    w := [b0, b1, b2, b3, b4, b5, b6, b7];
    EightBytes(w);
  }

  lemma EightBytes(s: seq<int>)
    requires |s| == 8
    ensures LeValue(256, s) == s[0] + 0x100 * s[1] + 0x10000 * s[2] + 0x100_0000 * s[3] + 0x1_0000_0000 * s[4]
                               + 0x100_0000_0000 * s[5] + 0x1_0000_0000_0000 * s[6] + 0x100_0000_0000_0000 * s[7]
  {
    assert LeValue(256, s[4..]) == s[4] + 256 * (s[5] + 256 * (s[6] + 256 * s[7])) by {
      FourBytes(s[4..]);
    }
    FourBytes(s[..4]);
    assert s == s[..4] + s[4..];
    LeAppend(256, s[..4], s[4..]);
    assert Pow(256, 2) == 0x10000 && Pow(256, 4) == 0x1_0000_0000;
  }

  lemma FourBytes(s: seq<int>)
    requires |s| == 4
    ensures LeValue(256, s) == s[0] + 256 * (s[1] + 256 * (s[2] + 256 * s[3]))
  {
    var t := s[1..];
    var u := t[1..];
    var v := u[1..];
    assert LeValue(256, v) == v[0] + 256 * LeValue(256, v[1..]);
    assert LeValue(256, u) == u[0] + 256 * LeValue(256, v);
    assert LeValue(256, t) == t[0] + 256 * LeValue(256, u);
  }

  lemma FourWords(a: seq<int>, b: seq<int>, c: seq<int>, d: seq<int>)
    requires |a| == |b| == |c| == |d| == 8
    ensures LeValue(256, a + b + c + d)
            == LeValue(256, a) + 0x1_0000000000000000 * LeValue(256, b)
               + 0x1_0000000000000000_0000000000000000 * LeValue(256, c)
               + 0x1_0000000000000000_0000000000000000_0000000000000000 * LeValue(256, d)
  {
    WireWidth();
    LeAppend(256, a, b);
    LeAppend(256, a + b, c);
    LeAppend(256, a + b + c, d);
    PowAdd(256, 16, 8);
  }

  /** The byte loop of `negate_g1`: `q - y` with the last borrow dropped. */
  method SubtractBytes(q: Coordinate, y: Coordinate) returns (out: Coordinate)
    ensures Coord(out) == Coord(q) - Coord(y) + if Coord(y) <= Coord(q) then 0 else Pow(256, 32)
  {
    out := y;
    var borrow := 0;
    for i := 0 to 32
      invariant 0 <= borrow <= 1
      invariant Coord(out[..i]) - borrow * Pow(256, i) == Coord(q[..i]) - Coord(y[..i])
    {
      var d := q[i] - y[i] - borrow;
      var next := 0;
      if d < 0 {
        d := d + 256;
        next := 1;
      }
      BorrowStep(q, y, out, i, borrow, d, next);
      out, borrow := out[i := d], next;
    }
    assert out[..32] == out && q[..32] == q && y[..32] == y;
    LeBound(256, out);
    LeBound(256, y);
    LeBound(256, q);
  }

  lemma BorrowStep(q: Coordinate, y: Coordinate, out: Coordinate, i: nat, borrow: int, d: byte, next: int)
    requires i < 32 && q[i] - y[i] - borrow == d - 256 * next
    requires Coord(out[..i]) - borrow * Pow(256, i) == Coord(q[..i]) - Coord(y[..i])
    ensures Coord(out[i := d][..i + 1]) - next * Pow(256, i + 1) == Coord(q[..i + 1]) - Coord(y[..i + 1])
  {
    assert out[i := d][..i] == out[..i];
    LeSnoc(256, out[i := d], i);
    LeSnoc(256, q, i);
    LeSnoc(256, y, i);
    BorrowArithmetic(q[i], y[i], borrow, d, next, Pow(256, i));
  }

  lemma BorrowArithmetic(x: int, y: int, borrow: int, d: int, next: int, p: int)
    requires x - y - borrow == d - 256 * next
    ensures d * p - next * (256 * p) == x * p - y * p - borrow * p
  {
    assert (d - 256 * next) * p == d * p - next * (256 * p);
    assert (x - y - borrow) * p == x * p - y * p - borrow * p;
  }

  /** x is unchanged and y is replaced by `Q - y`. */
  method NegateG1(p: G1Bytes) returns (out: G1Bytes)
    ensures out[..32] == p[..32]
    ensures Coord(out[32..]) == Q - Coord(p[32..]) + if Coord(p[32..]) <= Q then 0 else Pow(256, 32)
  {
    var q := ModulusBytes();
    var y := SubtractBytes(q, p[32..]);
    out := p[..32] + y;
    assert out[32..] == y;
  }

  /**
   * Negating twice gives every byte string back, in range or not. Only for `y <= Q` do the two
   * coordinates add up to the modulus; the all-zero infinity becomes `(0, Q)`, not infinity.
   */
  method NegateTwice(p: G1Bytes) returns (neg: G1Bytes, back: G1Bytes)
    ensures back == p
    ensures Coord(p[32..]) + Coord(neg[32..]) == Q <==> Coord(p[32..]) <= Q
    ensures p == Zeros(64) ==> Coord(neg[32..]) == Q && neg != p
  {
    neg := NegateG1(p);
    back := NegateG1(neg);
    LeBound(256, p[32..]);
    LeBound(256, neg[32..]);
    LeUnique(256, back[32..], p[32..]);
    assert back == back[..32] + back[32..] && p == p[..32] + p[32..];
    if p == Zeros(64) {
      ZeroCoord(p[32..]);
    }
  }

  lemma {:induction false} ZeroCoord(s: seq<byte>)
    requires forall i :: 0 <= i < |s| ==> s[i] == 0
    ensures Coord(s) == 0
  {
    if s != [] {
      ZeroCoord(s[1..]);
    }
  }
}
