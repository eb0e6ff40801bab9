/** The Poseidon permutation: a reference over residues, and the Montgomery code that refines it. */
module Poseidon {
  import opened Arithmetic
  import opened Limbs
  import opened Residues
  import opened MontgomeryField

  // ----- reference: three whole-state layers per round, over residues -----

  /** Round constants and MDS matrix for a state of width `|matrix|`. */
  datatype Params = Params(constants: seq<Fe>, matrix: seq<seq<Fe>>) {
    predicate Valid() {
      && |matrix| > 0
      && |constants| / |matrix| >= 8
      && forall r :: 0 <= r < |matrix| ==> |matrix[r]| == |matrix|
    }

    function Width(): nat {
      |matrix|
    }

    /** Four full rounds, the partial rounds, four full rounds. */
    function RoundCount(): nat
      requires Valid()
    {
      |constants| / |matrix|
    }

    predicate FullRound(round: nat)
      requires Valid()
    {
      round < 4 || round >= RoundCount() - 4
    }
  }

  function Sbox(x: Fe): Fe {
    Pow(x, 5) % P
  }

  function AddConstants(p: Params, round: nat, s: seq<Fe>): (r: seq<Fe>)
    requires p.Valid() && round < p.RoundCount() && |s| == p.Width()
    ensures |r| == |s|
  {
    ConstantIndex(p, round);
    seq(|s|, i requires 0 <= i < |s| => FeAdd(s[i], p.constants[round * |s| + i]))
  }

  lemma ConstantIndex(p: Params, round: nat)
    requires p.Valid() && round < p.RoundCount()
    ensures round * p.Width() + p.Width() <= |p.constants|
  {
    MulLe(round + 1, p.RoundCount(), p.Width());
    assert (round + 1) * p.Width() == round * p.Width() + p.Width();
    assert p.RoundCount() * p.Width() <= |p.constants|;
  }

  function SboxLayer(p: Params, round: nat, s: seq<Fe>): (r: seq<Fe>)
    requires p.Valid() && |s| == p.Width()
    ensures |r| == |s|
  {
    if p.FullRound(round) then seq(|s|, i requires 0 <= i < |s| => Sbox(s[i])) else s[0 := Sbox(s[0])]
  }

  /** The inner product of the first `n` entries. */
  function Dot(row: seq<Fe>, s: seq<Fe>, n: nat): Fe
    requires n <= |row| && n <= |s|
  {
    if n == 0 then 0 else FeAdd(Dot(row, s, n - 1), FeMul(row[n - 1], s[n - 1]))
  }

  function MixLayer(p: Params, s: seq<Fe>): (r: seq<Fe>)
    requires p.Valid() && |s| == p.Width()
    ensures |r| == |s|
  {
    seq(|s|, i requires 0 <= i < |s| => Dot(p.matrix[i], s, |s|))
  }

  /** The state after the first `rounds` rounds. */
  function Permute(p: Params, s: seq<Fe>, rounds: nat): (r: seq<Fe>)
    requires p.Valid() && |s| == p.Width() && rounds <= p.RoundCount()
    ensures |r| == |s|
  {
    if rounds == 0 then s
    else MixLayer(p, SboxLayer(p, rounds - 1, AddConstants(p, rounds - 1, Permute(p, s, rounds - 1))))
  }

  /** The hash: zero capacity lane first, lane 0 of the permuted state out. */
  function Hash(p: Params, inputs: seq<Fe>): Fe
    requires p.Valid() && |inputs| + 1 == p.Width()
  {
    Permute(p, [0] + inputs, p.RoundCount())[0]
  }

  // ----- what the permutation does, seen through simple matrices -----

  /** Entry `i` of the unit vector along `j`. */
  function Unit(i: nat, j: nat): Fe {
    if i == j then 1 else 0
  }

  /** Row 0 picks lane `j`; every other row picks its own lane. */
  predicate Selects(p: Params, j: nat) {
    && j < |p.matrix|
    && forall r, c {:trigger p.matrix[r][c]} :: 0 <= r < |p.matrix| && 0 <= c < |p.matrix| ==>
         |p.matrix[r]| == |p.matrix| && p.matrix[r][c] == Unit(c, if r == 0 then j else r)
  }

  lemma UnitArithmetic(x: Fe, y: Fe)
    ensures FeMul(1, y) == FeMul(y, 1) == y && FeMul(0, y) == FeMul(y, 0) == 0
    ensures FeAdd(x, 0) == FeAdd(0, x) == x
  {
    ModSmall(x, P);
    ModSmall(y, P);
  }

  lemma {:induction false} DotUnit(row: seq<Fe>, s: seq<Fe>, n: nat, j: nat)
    requires n <= |row| && n <= |s| && j < |s|
    requires forall c :: 0 <= c < n ==> row[c] == Unit(c, j)
    ensures Dot(row, s, n) == if j < n then s[j] else 0
  {
    if n > 0 {
      DotUnit(row, s, n - 1, j);
      UnitArithmetic(if j < n - 1 then s[j] else 0, s[n - 1]);
      UnitArithmetic(s[n - 1], s[n - 1]);
    }
  }

  lemma MixSelects(p: Params, s: seq<Fe>, j: nat, i: nat)
    requires p.Valid() && |s| == p.Width() && Selects(p, j) && i < |s|
    ensures MixLayer(p, s)[i] == s[if i == 0 then j else i]
  {
    DotUnit(p.matrix[i], s, |s|, if i == 0 then j else i);
  }

  /**
   * A lane `i > 0` on its own: in each round it takes the constant at `round * width + i`, and in the
   * first four and last four rounds it goes through the S-box.
   */
  function LaneAfter(p: Params, i: nat, x: Fe, rounds: nat): Fe
    requires p.Valid() && i < |p.matrix| && rounds <= |p.constants| / |p.matrix|
  {
    if rounds == 0 then x
    else
      var round := rounds - 1;
      ConstantIndex(p, round);
      var added := (LaneAfter(p, i, x, round) + p.constants[round * |p.matrix| + i]) % P;
      if round < 4 || round + 4 >= |p.constants| / |p.matrix| then Pow(added, 5) % P else added
  }

  /** The state just before the last mix of `rounds` rounds. */
  function Boxed(p: Params, s: seq<Fe>, rounds: nat): (r: seq<Fe>)
    requires p.Valid() && |s| == p.Width() && 0 < rounds <= p.RoundCount()
    ensures |r| == |s|
  {
    SboxLayer(p, rounds - 1, AddConstants(p, rounds - 1, Permute(p, s, rounds - 1)))
  }

  lemma PermuteSelects(p: Params, s: seq<Fe>, j: nat, i: nat, rounds: nat)
    requires p.Valid() && |s| == p.Width() && Selects(p, j) && i < |s| && 0 < rounds <= p.RoundCount()
    ensures Permute(p, s, rounds)[i] == Boxed(p, s, rounds)[if i == 0 then j else i]
  {
    MixSelects(p, Boxed(p, s, rounds), j, i);
  }

  lemma BoxedLane(p: Params, s: seq<Fe>, i: nat, rounds: nat)
    requires p.Valid() && |s| == p.Width() && i < |s| && 0 < rounds <= p.RoundCount()
    ensures (rounds - 1) * |p.matrix| + i < |p.constants|
    ensures var added := (Permute(p, s, rounds - 1)[i] + p.constants[(rounds - 1) * |p.matrix| + i]) % P;
            Boxed(p, s, rounds)[i] == if i == 0 || rounds - 1 < 4 || rounds + 3 >= p.RoundCount() then Pow(added, 5) % P else added
  {
    ConstantIndex(p, rounds - 1);
  }

  lemma {:induction false} LaneRuns(p: Params, s: seq<Fe>, j: nat, i: nat, rounds: nat)
    requires p.Valid() && |s| == p.Width() && Selects(p, j) && 0 < i < |s| && rounds <= p.RoundCount()
    ensures Permute(p, s, rounds)[i] == LaneAfter(p, i, s[i], rounds)
  {
    if rounds > 0 {
      LaneRuns(p, s, j, i, rounds - 1);
      PermuteSelects(p, s, j, i, rounds);
      BoxedLane(p, s, i, rounds);
    }
  }

  /**
   * With such a matrix the hash shows input `j - 1` after all its rounds, and nothing else: the inputs
   * sit in lanes 1, 2, ... in order, and lane 0 of the last mix comes out.
   */
  lemma HashSelects(p: Params, inputs: seq<Fe>, j: nat)
    requires p.Valid() && |inputs| + 1 == p.Width() && Selects(p, j) && 0 < j
    ensures Hash(p, inputs) == LaneAfter(p, j, inputs[j - 1], p.RoundCount())
  {
    var s := [0] + inputs;
    LaneRuns(p, s, j, j, p.RoundCount());
    PermuteSelects(p, s, j, 0, p.RoundCount());
    PermuteSelects(p, s, j, j, p.RoundCount());
  }

  /** Lane 0 on its own goes through the S-box in every round. */
  function CapacityAfter(p: Params, x: Fe, rounds: nat): Fe
    requires p.Valid() && rounds <= |p.constants| / |p.matrix|
  {
    if rounds == 0 then x
    else
      ConstantIndex(p, rounds - 1);
      Pow((CapacityAfter(p, x, rounds - 1) + p.constants[(rounds - 1) * |p.matrix|]) % P, 5) % P
  }

  lemma {:induction false} CapacityRuns(p: Params, s: seq<Fe>, rounds: nat)
    requires p.Valid() && |s| == p.Width() && Selects(p, 0) && rounds <= p.RoundCount()
    ensures Permute(p, s, rounds)[0] == CapacityAfter(p, s[0], rounds)
  {
    if rounds > 0 {
      CapacityRuns(p, s, rounds - 1);
      PermuteSelects(p, s, 0, 0, rounds);
      BoxedLane(p, s, 0, rounds);
    }
  }

  /** With the identity matrix the inputs do not show: what comes out is the capacity lane, which starts as zero. */
  lemma HashOfCapacity(p: Params, inputs: seq<Fe>)
    requires p.Valid() && |inputs| + 1 == p.Width() && Selects(p, 0)
    ensures Hash(p, inputs) == CapacityAfter(p, 0, p.RoundCount())
    ensures (forall k :: 0 <= k < |p.constants| ==> p.constants[k] == 0) ==> Hash(p, inputs) == 0
  {
    CapacityRuns(p, [0] + inputs, p.RoundCount());
    if forall k :: 0 <= k < |p.constants| ==> p.constants[k] == 0 {
      CapacityStaysZero(p, p.RoundCount());
    }
  }

  lemma {:induction false} CapacityStaysZero(p: Params, rounds: nat)
    requires p.Valid() && rounds <= p.RoundCount() && forall k :: 0 <= k < |p.constants| ==> p.constants[k] == 0
    ensures CapacityAfter(p, 0, rounds) == 0
  {
    if rounds > 0 {
      CapacityStaysZero(p, rounds - 1);
      ConstantIndex(p, rounds - 1);
      assert Pow(0, 5) == 0;
    }
  }

  /** The matrix layer is linear, so its values on unit vectors, the columns, decide it. */
  lemma {:induction false} DotLinear(row: seq<Fe>, s: seq<Fe>, t: seq<Fe>, k: Fe, n: nat)
    requires n <= |row| && n <= |s| == |t|
    ensures var sum := seq(|s|, i requires 0 <= i < |s| => FeAdd(s[i], FeMul(k, t[i])));
            Dot(row, sum, n) == FeAdd(Dot(row, s, n), FeMul(k, Dot(row, t, n)))
  {
    if n > 0 {
      DotLinear(row, s, t, k, n - 1);
      LinearStep(Dot(row, s, n - 1), Dot(row, t, n - 1), row[n - 1], s[n - 1], t[n - 1], k);
    }
  }

  lemma LinearStep(a: Fe, b: Fe, m: Fe, x: Fe, y: Fe, k: Fe)
    ensures FeAdd(FeAdd(a, FeMul(k, b)), FeMul(m, FeAdd(x, FeMul(k, y))))
            == FeAdd(FeAdd(a, FeMul(m, x)), FeMul(k, FeAdd(b, FeMul(m, y))))
  {
    Nested(a, b, m, x, y, k);
    Nested(a, x, k, b, y, m);
    Regroup(a, b, m, x, y, k);
  }

  lemma Nested(a: Fe, b: Fe, m: Fe, x: Fe, y: Fe, k: Fe)
    ensures FeAdd(FeAdd(a, FeMul(k, b)), FeMul(m, FeAdd(x, FeMul(k, y)))) == (a + k * b + m * (x + k * y)) % P
  {
    var t, u := a + k * b, x + k * y;
    FeAffine(a, k, b);
    FeAffine(x, k, y);
    Affine(t, m, u);
  }

  lemma FeAffine(u: Fe, k: Fe, v: Fe)
    ensures FeAdd(u, FeMul(k, v)) == (u + k * v) % P
  {
    ModAdd(u, k * v, P);
  }

  lemma Affine(u: int, k: Fe, v: int)
    ensures FeAdd(u % P, FeMul(k, v % P)) == (u + k * v) % P
  {
    ModMul(k, v, P);
    ModAdd(u, k * v, P);
  }

  lemma Regroup(a: int, b: int, m: int, x: int, y: int, k: int)
    ensures a + k * b + m * (x + k * y) == a + m * x + k * (b + m * y)
  {
    assert m * (x + k * y) == m * x + m * (k * y);
    assert k * (b + m * y) == k * b + k * (m * y);
    assert m * (k * y) == k * (m * y);
  }

  /** On the unit vector along `j` it gives column `j`. */
  lemma MixColumn(p: Params, j: nat, i: nat)
    requires p.Valid() && i < p.Width() && j < p.Width()
    ensures MixLayer(p, seq(p.Width(), c requires 0 <= c < p.Width() => Unit(c, j)))[i] == p.matrix[i][j]
  {
    var unit := seq(p.Width(), c requires 0 <= c < p.Width() => Unit(c, j));
    UnitDot(p.matrix[i], unit, p.Width(), j);
  }

  lemma {:induction false} UnitDot(row: seq<Fe>, s: seq<Fe>, n: nat, j: nat)
    requires n <= |row| && n <= |s| && j < |row| && forall c :: 0 <= c < n ==> s[c] == Unit(c, j)
    ensures Dot(row, s, n) == if j < n then row[j] else 0
  {
    if n > 0 {
      UnitDot(row, s, n - 1, j);
      UnitArithmetic(if j < n - 1 then row[j] else 0, row[n - 1]);
      UnitArithmetic(row[n - 1], row[n - 1]);
    }
  }

  // ----- the contract's code -----

  /** A stored Montgomery constant, `from_montgomery`. */
  type Constant = s: Raw | Val(s) < P witness [0, 0, 0, 0]

  function FromMontgomery(c: Constant): Reduced {
    Field(c)
  }

  function Lanes(s: seq<Reduced>): seq<Fe> {
    seq(|s|, i requires 0 <= i < |s| => s[i].Residue())
  }

  function ConstantLanes(s: seq<Constant>): seq<Fe> {
    seq(|s|, i requires 0 <= i < |s| => FromMontgomery(s[i]).Residue())
  }

  /** The parameters a pair of stored constant tables stands for. */
  function Decode(constants: seq<Constant>, matrix: seq<seq<Constant>>): Params {
    Params(ConstantLanes(constants), seq(|matrix|, i requires 0 <= i < |matrix| => ConstantLanes(matrix[i])))
  }

  /** Each stored limb quadruple stands, in its place, for the one residue whose product with the radix it holds. */
  lemma DecodedInPlace(constants: seq<Constant>, matrix: seq<seq<Constant>>, k: nat, row: nat, col: nat)
    requires k < |constants| && row < |matrix| && col < |matrix[row]|
    ensures var p := Decode(constants, matrix);
            && |p.constants| == |constants| && p.constants[k] * R % P == Val(constants[k])
            && |p.matrix| == |matrix| && |p.matrix[row]| == |matrix[row]| && p.matrix[row][col] * R % P == Val(matrix[row][col])
  {
    StoredResidue(constants[k]);
    StoredResidue(matrix[row][col]);
  }

  lemma StoredResidue(c: Constant)
    ensures FromMontgomery(c).Residue() * R % P == Val(c)
  {
    ResidueScaled(FromMontgomery(c));
    LeBound(B, c);
    ModSmall(Val(c), P);
  }

  /** `mix`: multiply-accumulate over each matrix row. */
  method Mix(state: seq<Reduced>, constants: seq<Constant>, matrix: seq<seq<Constant>>) returns (out: seq<Reduced>)
    requires Decode(constants, matrix).Valid() && |state| == |matrix|
    ensures |out| == |state|
    ensures Lanes(out) == MixLayer(Decode(constants, matrix), Lanes(state))
  {
    ghost var p, s := Decode(constants, matrix), Lanes(state);
    out := [];
    for row := 0 to |matrix|
      invariant |out| == row
      invariant forall r :: 0 <= r < row ==> out[r].Residue() == Dot(p.matrix[r], s, |s|)
    {
      assert |p.matrix[row]| == |matrix[row]| == |s|;
      var acc := Zero();
      for col := 0 to |matrix|
        invariant acc.Residue() == Dot(p.matrix[row], s, col)
      {
        var product := Mul(FromMontgomery(matrix[row][col]), state[col]);
        acc := Add(acc, product);
      }
      out := out + [acc];
    }
  }

  /** The lane loop of a round: each constant is added and the S-box applied lane by lane. */
  method RoundLanes(start: seq<Reduced>, round: nat, constants: seq<Constant>, matrix: seq<seq<Constant>>)
    returns (state: seq<Reduced>)
    requires Decode(constants, matrix).Valid() && |start| == |matrix|
    requires round < Decode(constants, matrix).RoundCount()
    ensures |state| == |start|
    ensures var p := Decode(constants, matrix);
            Lanes(state) == SboxLayer(p, round, AddConstants(p, round, Lanes(start)))
  {
    ghost var p := Decode(constants, matrix);
    ghost var added := AddConstants(p, round, Lanes(start));
    var width := |matrix|;
    var partialRounds := |constants| / width - 8;
    state := start;
    ConstantIndex(p, round);
    for i := 0 to width
      invariant |state| == width
      invariant forall j :: 0 <= j < i ==> state[j].Residue() == SboxLayer(p, round, added)[j]
      invariant forall j :: i <= j < width ==> state[j] == start[j]
    {
      var lane := Add(state[i], FromMontgomery(constants[round * width + i]));
      assert lane.Residue() == added[i];
      if round < 4 || round >= 4 + partialRounds || i == 0 {
        lane := Pow5(lane);
      }
      state := state[i := lane];
    }
  }

  /** `poseidon`: for every width and all reduced constants it computes the reference hash. */
  method PoseidonHash(inputs: seq<Reduced>, constants: seq<Constant>, matrix: seq<seq<Constant>>)
    returns (h: Reduced)
    requires Decode(constants, matrix).Valid() && |inputs| + 1 == |matrix|
    ensures h.Residue() == Hash(Decode(constants, matrix), Lanes(inputs))
  {
    ghost var p := Decode(constants, matrix);
    var width := |matrix|;
    var zero := Zero();
    var state := [zero] + inputs;
    ghost var initial := [0] + Lanes(inputs);
    assert Lanes(state) == initial;

    var partialRounds := |constants| / width - 8;
    for round := 0 to 8 + partialRounds
      invariant |state| == width
      invariant Lanes(state) == Permute(p, initial, round)
    {
      state := RoundLanes(state, round, constants, matrix);
      state := Mix(state, constants, matrix);
    }
    h := state[0];
  }
}
