/** Field elements as residues, and their 32-byte big-endian wire form. */
module Residues {
  import opened Arithmetic
  import opened Limbs

  type byte = x: int | 0 <= x < 256
  type Bytes32 = s: seq<byte> | |s| == 32 witness BeDigits(0, 32)

  /** An element of the BN254 scalar field: the canonical residue. */
  type Fe = x: int | 0 <= x < P witness 0

  function FeAdd(x: Fe, y: Fe): Fe { (x + y) % P }

  function FeMul(x: Fe, y: Fe): Fe { (x * y) % P }

  /** The number written by a big-endian byte string. */
  function BeValue(b: seq<byte>): nat {
    if b == [] then 0 else 256 * BeValue(b[..|b| - 1]) + b[|b| - 1]
  }

  /** The `n` low bytes of `x`, most significant first. */
  function BeDigits(x: nat, n: nat): (b: seq<byte>)
    ensures |b| == n
  {
    if n == 0 then [] else BeDigits(x / 256, n - 1) + [x % 256]
  }

  /** `to_bytes_be` and `toBytesBE`: the 32-byte form of an element. */
  function ToBytesBe(x: Fe): Bytes32 {
    BeDigits(x, 32)
  }

  /** `from_be_bytes`: any byte string names the residue of its value. */
  function FromBeBytes(b: seq<byte>): Fe {
    BeValue(b) % P
  }

  lemma {:induction false} BeValueOfDigits(x: nat, n: nat)
    requires x < Pow(256, n)
    ensures BeValue(BeDigits(x, n)) == x
  {
    if n > 0 {
      assert x / 256 < Pow(256, n - 1);
      BeValueOfDigits(x / 256, n - 1);
      assert BeDigits(x, n)[..n - 1] == BeDigits(x / 256, n - 1);
    }
  }

  lemma {:induction false} BeDigitsOfValue(b: seq<byte>)
    ensures BeDigits(BeValue(b), |b|) == b && BeValue(b) < Pow(256, |b|)
  {
    if b != [] {
      var init, last := b[..|b| - 1], b[|b| - 1];
      BeDigitsOfValue(init);
      DivModUnique(BeValue(b), BeValue(init), last, 256);
      assert b == init + [last];
    }
  }

  lemma {:induction false} BeValueAppend(s: seq<byte>, t: seq<byte>)
    ensures BeValue(s + t) == BeValue(s) * Pow(256, |t|) + BeValue(t)
  {
    if t == [] {
      assert s + t == s;
    } else {
      var init := t[..|t| - 1];
      assert (s + t)[..|s + t| - 1] == s + init;
      BeValueAppend(s, init);
      var v, p := BeValue(s), Pow(256, |t| - 1);
      assert 256 * (v * p) == v * (256 * p);
    }
  }

  lemma WireWidth()
    ensures Pow(256, 8) == B && Pow(256, 16) == B * B && Pow(256, 32) == R > P
  {
    assert Pow(256, 2) == 256 * 256;
    PowAdd(256, 2, 2);
    PowAdd(256, 4, 4);
    PowAdd(256, 8, 8);
    PowAdd(256, 16, 16);
  }

  /** Decoding the wire form gives the element back, so the wire form is injective. */
  lemma WireRoundTrip(x: Fe)
    ensures FromBeBytes(ToBytesBe(x)) == x
  {
    WireWidth();
    BeValueOfDigits(x, 32);
    ModSmall(x, P);
  }

  lemma WireInjective(x: Fe, y: Fe)
    ensures ToBytesBe(x) == ToBytesBe(y) <==> x == y
  {
    WireRoundTrip(x);
    WireRoundTrip(y);
  }

  /**
   * Exactly the byte strings whose values agree modulo `P` name the same element; in
   * particular a nullifier `n` and the alias `n + P` are one key.
   */
  lemma WireAliases(a: Bytes32, b: Bytes32)
    ensures ToBytesBe(FromBeBytes(a)) == ToBytesBe(FromBeBytes(b)) <==> BeValue(a) % P == BeValue(b) % P
    ensures ToBytesBe(FromBeBytes(a)) == a <==> BeValue(a) < P
  {
    WireInjective(FromBeBytes(a), FromBeBytes(b));
    BeDigitsOfValue(a);
    WireWidth();
    BeValueOfDigits(FromBeBytes(a), 32);
    if BeValue(a) < P {
      ModSmall(BeValue(a), P);
    }
  }
}
