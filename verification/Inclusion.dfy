/** Bit decomposition and the path-folding inclusion check of the circuits. */
module Inclusion {
  import opened Arithmetic
  import opened Limbs
  import opened Residues
  import opened Merkle

  type bit = x: int | 0 <= x <= 1

  // ----- Num2Bits -----

  /** `Num2Bits(n)`: `n` bits whose weighted sum is congruent to the input. */
  predicate Num2Bits(n: nat, x: Fe, bits: seq<bit>) {
    |bits| == n && LeValue(2, bits) % P == x
  }

  function LowBits(x: nat, n: nat): (bits: seq<bit>)
    ensures |bits| == n
  {
    if n == 0 then [] else [x % 2] + LowBits(x / 2, n - 1)
  }

  lemma {:induction false} LowBitsValue(x: nat, n: nat)
    requires x < Pow(2, n)
    ensures LeValue(2, LowBits(x, n)) == x
  {
    if n > 0 {
      LowBitsValue(x / 2, n - 1);
      assert LowBits(x, n)[1..] == LowBits(x / 2, n - 1);
    }
  }

  lemma {:induction false} LowBitsAt(x: nat, n: nat, d: nat)
    requires d < n
    ensures LowBits(x, n)[d] == Shr(x, d) % 2
  {
    if d > 0 {
      LowBitsAt(x / 2, n - 1, d - 1);
      ShrHalf(x, d - 1);
    }
  }

  lemma {:induction false} ShrHalf(x: nat, d: nat)
    ensures Shr(x / 2, d) == Shr(x, d + 1)
  {
    if d > 0 {
      ShrHalf(x, d - 1);
    }
  }

  /**
   * Below the modulus the decomposition exists exactly for inputs under `2^n`, and then it is
   * the binary expansion: no field wrap-around yields a second index.
   */
  lemma Num2BitsExact(n: nat, x: Fe, bits: seq<bit>)
    requires Pow(2, n) <= P
    ensures Num2Bits(n, x, bits) <==> x < Pow(2, n) && bits == LowBits(x, n)
  {
    if |bits| == n {
      LeBound(2, bits);
      ModSmall(LeValue(2, bits), P);
    }
    if x < Pow(2, n) {
      LowBitsValue(x, n);
      ModSmall(x, P);
      if Num2Bits(n, x, bits) {
        LeUnique(2, bits, LowBits(x, n));
      }
    }
  }

  // ----- MerkleInclusion -----

  /** circomlib's `Switcher` outputs, as field arithmetic on the selector. */
  function Switcher(sel: bit, l: Fe, r: Fe): (Fe, Fe) {
    (((r - l) * sel + l) % P, ((l - r) * sel + r) % P)
  }

  /** The current node and its sibling in hashing order. */
  function Ordered(sel: bit, cur: Fe, sibling: Fe): (Fe, Fe) {
    if sel == 0 then (cur, sibling) else (sibling, cur)
  }

  lemma SwitcherOrders(sel: bit, l: Fe, r: Fe)
    ensures Switcher(sel, l, r) == Ordered(sel, l, r)
  {
    ModSmall(l, P);
    ModSmall(r, P);
  }

  /** The template: signals `cur[0..n]`, a switcher and a hash per level, the root at the end. */
  predicate MerkleInclusion(h: Hash2, leaf: Fe, root: Fe, bits: seq<bit>, path: seq<Fe>, cur: seq<Fe>) {
    && |bits| == |path| && |cur| == |bits| + 1
    && cur[0] == leaf
    && (forall d :: 0 <= d < |bits| ==>
          cur[d + 1] == h(Switcher(bits[d], cur[d], path[d]).0, Switcher(bits[d], cur[d], path[d]).1))
    && root == cur[|bits|]
  }

  /** The pairs the circuit hashes on the way up. */
  ghost function PathPairs(bits: seq<bit>, path: seq<Fe>, cur: seq<Fe>): set<(Fe, Fe)>
    requires |bits| == |path| && |cur| == |bits| + 1
  {
    set d | 0 <= d < |bits| :: Ordered(bits[d], cur[d], path[d])
  }

  /** `next` is the hash of `cur` and its sibling in order, a pair from `pairs`. */
  ghost predicate FoldStep(h: Hash2, sel: bit, cur: Fe, sibling: Fe, next: Fe, pairs: set<(Fe, Fe)>) {
    && Ordered(sel, cur, sibling) in pairs
    && next == h(Ordered(sel, cur, sibling).0, Ordered(sel, cur, sibling).1)
  }

  ghost predicate Chain(h: Hash2, bits: seq<bit>, path: seq<Fe>, cur: seq<Fe>, pairs: set<(Fe, Fe)>) {
    && |bits| == |path| && |cur| == |bits| + 1
    && forall d {:trigger path[d]} :: 0 <= d < |bits| ==> FoldStep(h, bits[d], cur[d], path[d], cur[d + 1], pairs)
  }

  lemma SignalsChain(h: Hash2, leaf: Fe, root: Fe, bits: seq<bit>, path: seq<Fe>, cur: seq<Fe>, pairs: set<(Fe, Fe)>)
    requires MerkleInclusion(h, leaf, root, bits, path, cur) && PathPairs(bits, path, cur) <= pairs
    ensures Chain(h, bits, path, cur, pairs)
  {
    forall d | 0 <= d < |bits|
      ensures FoldStep(h, bits[d], cur[d], path[d], cur[d + 1], pairs)
    {
      SwitcherOrders(bits[d], cur[d], path[d]);
      assert Ordered(bits[d], cur[d], path[d]) in PathPairs(bits, path, cur);
    }
  }

  /** One level down: a signal that equals a node, and its sibling, are the children of that node. */
  lemma SignalBelow(h: Hash2, leaves: seq<Fe>, l: nat, i: nat, cur: Fe, sibling: Fe, next: Fe, pairs: set<(Fe, Fe)>)
    requires FoldStep(h, i % 2, cur, sibling, next, pairs) && next == Node(h, leaves, l + 1, i / 2)
    requires Covered(h, leaves, l + 1, i / 2, pairs) && CollisionFree(h, pairs)
    ensures cur == Node(h, leaves, l, i) && sibling == Node(h, leaves, l, Sibling(i)) && Covered(h, leaves, l, i, pairs)
  {
    var below := 2 * (i / 2);
    assert i == below || i == below + 1;
    SameInputs(h, pairs, Ordered(i % 2, cur, sibling), (Node(h, leaves, l, below), Node(h, leaves, l, below + 1)));
  }

  /** From the ancestor of leaf `i` on level `d + 1` to the one on level `d` and its sibling. */
  lemma SignalStep(
    h: Hash2, leaves: seq<Fe>, i: nat, bits: seq<bit>, path: seq<Fe>, cur: seq<Fe>, d: nat, pairs: set<(Fe, Fe)>)
    requires Chain(h, bits, path, cur, pairs) && d < |bits| && bits == LowBits(i, |bits|)
    requires cur[d + 1] == Node(h, leaves, d + 1, Shr(i, d + 1))
    requires Covered(h, leaves, d + 1, Shr(i, d + 1), pairs) && CollisionFree(h, pairs)
    ensures cur[d] == Node(h, leaves, d, Shr(i, d)) && path[d] == Node(h, leaves, d, Sibling(Shr(i, d)))
    ensures Covered(h, leaves, d, Shr(i, d), pairs)
  {
    LowBitsAt(i, |bits|, d);
    SignalBelow(h, leaves, d, Shr(i, d), cur[d], path[d], cur[d + 1], pairs);
  }

  /** If the last signal is the root, signal `d` is the ancestor of leaf `i` on level `d`. */
  lemma {:induction false} SignalsBind(
    h: Hash2, leaves: seq<Fe>, i: nat, bits: seq<bit>, path: seq<Fe>, cur: seq<Fe>, d: nat, pairs: set<(Fe, Fe)>)
    requires Chain(h, bits, path, cur, pairs) && d <= |bits| && bits == LowBits(i, |bits|) && i < Pow(2, |bits|)
    requires cur[|bits|] == Root(h, leaves, |bits|) && Covered(h, leaves, |bits|, 0, pairs) && CollisionFree(h, pairs)
    ensures cur[d] == Node(h, leaves, d, Shr(i, d)) && Covered(h, leaves, d, Shr(i, d), pairs)
    decreases |bits| - d
  {
    if d == |bits| {
      ShrSmall(i, d);
    } else {
      SignalsBind(h, leaves, i, bits, path, cur, d + 1, pairs);
      SignalStep(h, leaves, i, bits, path, cur, d, pairs);
    }
  }

  /**
   * Soundness of the inclusion check under a tree root: the leaf proved is the leaf at the
   * index the bits write and the path is its sibling path, unless the hashed pairs collide.
   * Unfilled positions count as zero.
   */
  lemma InclusionBinds(
    h: Hash2, leaves: seq<Fe>, leaf: Fe, index: Fe, bits: seq<bit>, path: seq<Fe>, cur: seq<Fe>, pairs: set<(Fe, Fe)>)
    requires Pow(2, |bits|) <= P && Num2Bits(|bits|, index, bits)
    requires MerkleInclusion(h, leaf, Root(h, leaves, |bits|), bits, path, cur)
    requires PathPairs(bits, path, cur) <= pairs && Pairs(h, leaves, |bits|, 0) <= pairs
    requires CollisionFree(h, pairs)
    ensures leaf == Leaf(leaves, index) && index < Pow(2, |bits|) && SiblingPath(h, leaves, index, path)
  {
    Num2BitsExact(|bits|, index, bits);
    PairsCover(h, leaves, |bits|, 0, pairs);
    SignalsChain(h, leaf, Root(h, leaves, |bits|), bits, path, cur, pairs);
    SignalsBind(h, leaves, index, bits, path, cur, 0, pairs);
    forall d | 0 <= d < |bits|
      ensures path[d] == Node(h, leaves, d, Sibling(Shr(index, d)))
    {
      SignalsBind(h, leaves, index, bits, path, cur, d + 1, pairs);
      SignalStep(h, leaves, index, bits, path, cur, d, pairs);
    }
  }

  /** The siblings of leaf `i`, one per level. */
  ghost predicate SiblingPath(h: Hash2, leaves: seq<Fe>, i: nat, path: seq<Fe>) {
    forall d :: 0 <= d < |path| ==> path[d] == Node(h, leaves, d, Sibling(Shr(i, d)))
  }

  function Sibling(i: nat): nat {
    if i % 2 == 1 then i - 1 else i + 1
  }

  /** The ancestors of leaf `i`, from the leaf to level `depth`. */
  function Ancestors(h: Hash2, leaves: seq<Fe>, i: nat, depth: nat): seq<Fe> {
    seq(depth + 1, (d: int) requires 0 <= d <= depth => Node(h, leaves, d, Shr(i, d)))
  }

  /** One level of the template. */
  predicate LevelFits(h: Hash2, sel: bit, cur: Fe, sibling: Fe, next: Fe) {
    next == h(Switcher(sel, cur, sibling).0, Switcher(sel, cur, sibling).1)
  }

  lemma LevelsSuffice(h: Hash2, bits: seq<bit>, path: seq<Fe>, cur: seq<Fe>)
    requires |bits| == |path| && |cur| == |bits| + 1
    requires forall d :: 0 <= d < |bits| ==> LevelFits(h, bits[d], cur[d], path[d], cur[d + 1])
    ensures MerkleInclusion(h, cur[0], cur[|bits|], bits, path, cur)
  {
  }

  /** A node and its sibling, switched by the node's lowest bit, hash to their parent. */
  lemma LevelIncluded(h: Hash2, leaves: seq<Fe>, l: nat, i: nat, sel: bit, sibling: Fe)
    requires sel == i % 2 && sibling == Node(h, leaves, l, Sibling(i))
    ensures LevelFits(h, sel, Node(h, leaves, l, i), sibling, Node(h, leaves, l + 1, i / 2))
  {
    SwitcherOrders(sel, Node(h, leaves, l, i), sibling);
  }

  lemma AncestorFits(h: Hash2, leaves: seq<Fe>, i: nat, depth: nat, path: seq<Fe>, d: nat)
    requires d < |path| == depth && SiblingPath(h, leaves, i, path)
    ensures LevelFits(h, LowBits(i, depth)[d], Ancestors(h, leaves, i, depth)[d], path[d], Ancestors(h, leaves, i, depth)[d + 1])
  {
    LowBitsAt(i, depth, d);
    LevelIncluded(h, leaves, d, Shr(i, d), LowBits(i, depth)[d], path[d]);
  }

  /** The ancestors lead from the leaf to the root. */
  lemma EndsOfPath(h: Hash2, leaves: seq<Fe>, i: nat, depth: nat)
    requires i < Pow(2, depth)
    ensures Ancestors(h, leaves, i, depth)[0] == Leaf(leaves, i)
    ensures Ancestors(h, leaves, i, depth)[depth] == Root(h, leaves, depth)
  {
    ShrSmall(i, depth);
  }

  /** Completeness: the sibling path of any leaf with the low bits of its index is accepted. */
  lemma SiblingsIncluded(h: Hash2, leaves: seq<Fe>, i: nat, depth: nat, path: seq<Fe>)
    requires |path| == depth && SiblingPath(h, leaves, i, path) && i < Pow(2, depth)
    ensures MerkleInclusion(h, Leaf(leaves, i), Root(h, leaves, depth), LowBits(i, depth), path,
                            Ancestors(h, leaves, i, depth))
  {
    var bits, cur := LowBits(i, depth), Ancestors(h, leaves, i, depth);
    forall d | 0 <= d < depth
      ensures LevelFits(h, bits[d], cur[d], path[d], cur[d + 1])
    {
      AncestorFits(h, leaves, i, depth, path, d);
    }
    LevelsSuffice(h, bits, path, cur);
    EndsOfPath(h, leaves, i, depth);
  }

  // ----- the check decided exactly -----

  /** The signals are determined by leaf, bits and path. */
  function Signal(h: Hash2, leaf: Fe, bits: seq<bit>, path: seq<Fe>, d: nat): Fe
    requires d <= |bits| == |path|
    decreases d
  {
    if d == 0 then leaf
    else
      var pair := Ordered(bits[d - 1], Signal(h, leaf, bits, path, d - 1), path[d - 1]);
      h(pair.0, pair.1)
  }

  function Signals(h: Hash2, leaf: Fe, bits: seq<bit>, path: seq<Fe>): (cur: seq<Fe>)
    requires |bits| == |path|
  {
    seq(|bits| + 1, d requires 0 <= d <= |bits| => Signal(h, leaf, bits, path, d))
  }

  lemma {:induction false} SignalForced(h: Hash2, leaf: Fe, root: Fe, bits: seq<bit>, path: seq<Fe>, cur: seq<Fe>, d: nat)
    requires MerkleInclusion(h, leaf, root, bits, path, cur) && d <= |bits|
    ensures cur[d] == Signal(h, leaf, bits, path, d)
    decreases d
  {
    if d > 0 {
      SignalForced(h, leaf, root, bits, path, cur, d - 1);
      SwitcherOrders(bits[d - 1], cur[d - 1], path[d - 1]);
    }
  }

  lemma SignalsForced(h: Hash2, leaf: Fe, root: Fe, bits: seq<bit>, path: seq<Fe>, cur: seq<Fe>)
    requires MerkleInclusion(h, leaf, root, bits, path, cur)
    ensures cur == Signals(h, leaf, bits, path)
  {
    forall d | 0 <= d <= |bits|
      ensures cur[d] == Signal(h, leaf, bits, path, d)
    {
      SignalForced(h, leaf, root, bits, path, cur, d);
    }
  }

  /** The pairs hashed when `leaf` is checked at `index` along `path`. */
  ghost function CheckPairs(h: Hash2, leaf: Fe, index: Fe, path: seq<Fe>): set<(Fe, Fe)> {
    var bits := LowBits(index, |path|);
    PathPairs(bits, path, Signals(h, leaf, bits, path))
  }

  /** Some bits and signals pass the check of `leaf` at `index` along `path`. */
  ghost predicate Included(h: Hash2, leaf: Fe, root: Fe, index: Fe, path: seq<Fe>) {
    exists bits, cur :: Num2Bits(|path|, index, bits) && MerkleInclusion(h, leaf, root, bits, path, cur)
  }

  /**
   * Under the root of a tree the check can be passed exactly by a leaf of that tree at its own
   * index along its own siblings, unless the pairs hashed collide.
   */
  lemma InclusionExactly(h: Hash2, leaves: seq<Fe>, leaf: Fe, index: Fe, path: seq<Fe>)
    requires Pow(2, |path|) <= P
    requires CollisionFree(h, CheckPairs(h, leaf, index, path) + Pairs(h, leaves, |path|, 0))
    ensures Included(h, leaf, Root(h, leaves, |path|), index, path)
            <==> index < Pow(2, |path|) && leaf == Leaf(leaves, index) && SiblingPath(h, leaves, index, path)
  {
    var pairs, root := CheckPairs(h, leaf, index, path) + Pairs(h, leaves, |path|, 0), Root(h, leaves, |path|);
    if bits, cur :| Num2Bits(|path|, index, bits) && MerkleInclusion(h, leaf, root, bits, path, cur) {
      Num2BitsExact(|path|, index, bits);
      SignalsForced(h, leaf, root, bits, path, cur);
      InclusionBinds(h, leaves, leaf, index, bits, path, cur, pairs);
    }
    if index < Pow(2, |path|) && leaf == Leaf(leaves, index) && SiblingPath(h, leaves, index, path) {
      SiblingsIncluded(h, leaves, index, |path|, path);
      Num2BitsExact(|path|, index, LowBits(index, |path|));
    }
  }
}
