/** The two hashes of the pool, instantiated with the contract's Poseidon tables. */
module PoolHashes {
  import opened Residues
  import opened MontgomeryField
  import opened Poseidon
  import opened Circuits

  /** The stored tables of `poseidon2` (width 3) and `poseidon4` (width 5), any reduced constants. */
  datatype Tables = Tables(c2: seq<Constant>, m2: seq<seq<Constant>>, c4: seq<Constant>, m4: seq<seq<Constant>>)

  /** The reference hash; inputs of another width do not occur. */
  function HashOf(p: Params, inputs: seq<Fe>): Fe {
    if p.Valid() && |inputs| + 1 == p.Width() then Hash(p, inputs) else 0
  }

  /** The residue-level hashes these tables define; every pool result holds of them. */
  function PoseidonHashes(t: Tables): Hashes {
    Hashes((a: Fe, b: Fe) => HashOf(Decode(t.c2, t.m2), [a, b]),
           (a: Fe, b: Fe, c: Fe, d: Fe) => HashOf(Decode(t.c4, t.m4), [a, b, c, d]))
  }

  lemma HashesAt2(t: Tables, a: Fe, b: Fe)
    ensures PoseidonHashes(t).p2(a, b) == HashOf(Decode(t.c2, t.m2), [a, b])
  {
  }

  lemma HashesAt4(t: Tables, a: Fe, b: Fe, c: Fe, d: Fe)
    ensures PoseidonHashes(t).p4(a, b, c, d) == HashOf(Decode(t.c4, t.m4), [a, b, c, d])
  {
  }

  /** The code's hash of any inputs that fit its tables. */
  method HashWith(constants: seq<Constant>, matrix: seq<seq<Constant>>, inputs: seq<Reduced>) returns (r: Reduced)
    requires Decode(constants, matrix).Valid() && |inputs| + 1 == |matrix|
    ensures r.Residue() == HashOf(Decode(constants, matrix), Lanes(inputs))
  {
    r := PoseidonHash(inputs, constants, matrix);
  }

  lemma Lanes2(a: Reduced, b: Reduced)
    ensures Lanes([a, b]) == [a.Residue(), b.Residue()]
  {
  }

  lemma Lanes4(a: Reduced, b: Reduced, c: Reduced, d: Reduced)
    ensures Lanes([a, b, c, d]) == [a.Residue(), b.Residue(), c.Residue(), d.Residue()]
  {
  }

  /** `poseidon2` on Montgomery limbs computes the pool's two-input hash of the residues. */
  method Poseidon2(t: Tables, a: Reduced, b: Reduced) returns (r: Reduced)
    requires Decode(t.c2, t.m2).Valid() && |t.m2| == 3
    ensures r.Residue() == PoseidonHashes(t).p2(a.Residue(), b.Residue())
  {
    r := HashWith(t.c2, t.m2, [a, b]);
    Lanes2(a, b);
    HashesAt2(t, a.Residue(), b.Residue());
  }

  method Poseidon4(t: Tables, a: Reduced, b: Reduced, c: Reduced, d: Reduced) returns (r: Reduced)
    requires Decode(t.c4, t.m4).Valid() && |t.m4| == 5
    ensures r.Residue() == PoseidonHashes(t).p4(a.Residue(), b.Residue(), c.Residue(), d.Residue())
  {
    r := HashWith(t.c4, t.m4, [a, b, c, d]);
    Lanes4(a, b, c, d);
    HashesAt4(t, a.Residue(), b.Residue(), c.Residue(), d.Residue());
  }
}
