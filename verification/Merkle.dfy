/** The full binary tree over a leaf list padded with zeros: the meaning of every root. */
module Merkle {
  import opened Arithmetic
  import opened Residues

  /** Poseidon-2, left open: no result below uses more than that it is a function. */
  type Hash2 = (Fe, Fe) -> Fe

  /** The depth of the pool's tree, in the contract, the client and the circuits. */
  const TREE_DEPTH: nat := 20

  function Leaf(leaves: seq<Fe>, i: nat): Fe {
    if i < |leaves| then leaves[i] else 0
  }

  /**
   * Node `i` of level `l`, leaves being level 0. (Naming `h` in the measure keeps the verifier
   * from evaluating whole trees when the depth and the leaves are literals.)
   */
  function Node(h: Hash2, leaves: seq<Fe>, l: nat, i: nat): Fe
    decreases l, h(0, 0)
  {
    if l == 0 then Leaf(leaves, i)
    else h(Node(h, leaves, l - 1, 2 * i), Node(h, leaves, l - 1, 2 * i + 1))
  }

  function Root(h: Hash2, leaves: seq<Fe>, depth: nat): Fe {
    Node(h, leaves, depth, 0)
  }

  /** A node's children are its two halves, the earlier leaves on the left and zeros where there are none. */
  lemma SmallRoots(h: Hash2, a: Fe, b: Fe, c: Fe)
    ensures Root(h, [a], 0) == a && Root(h, [a], 1) == h(a, 0) && Root(h, [a, b], 1) == h(a, b)
    ensures Root(h, [a, b, c], 2) == h(h(a, b), h(c, 0))
  {
    var three := [a, b, c];
    assert Node(h, [a], 1, 0) == h(Node(h, [a], 0, 0), Node(h, [a], 0, 1));
    assert Node(h, [a, b], 1, 0) == h(Node(h, [a, b], 0, 0), Node(h, [a, b], 0, 1));
    assert Node(h, three, 1, 0) == h(Node(h, three, 0, 0), Node(h, three, 0, 1));
    assert Node(h, three, 1, 1) == h(Node(h, three, 0, 2), Node(h, three, 0, 3));
    assert Node(h, three, 2, 0) == h(Node(h, three, 1, 0), Node(h, three, 1, 1));
  }

  /** The root of a height-`l` tree of zeros. */
  function Zero(h: Hash2, l: nat): Fe
    decreases l, h(0, 0)
  {
    if l == 0 then 0 else h(Zero(h, l - 1), Zero(h, l - 1))
  }

  /** How many nodes of level `l` have a leaf below them when there are `n` leaves. */
  function Occupied(n: nat, l: nat): nat {
    if l == 0 then n else (Occupied(n, l - 1) + 1) / 2
  }

  lemma {:induction false} NodeBeyondLeaves(h: Hash2, leaves: seq<Fe>, l: nat, i: nat)
    requires i >= Occupied(|leaves|, l)
    ensures Node(h, leaves, l, i) == Zero(h, l)
  {
    if l > 0 {
      NodeBeyondLeaves(h, leaves, l - 1, 2 * i);
      NodeBeyondLeaves(h, leaves, l - 1, 2 * i + 1);
    }
  }

  lemma {:induction false} OccupiedAfterAppend(n: nat, l: nat)
    ensures Occupied(n + 1, l) == Shr(n, l) + 1
  {
    if l > 0 {
      OccupiedAfterAppend(n, l - 1);
    }
  }

  /** A complete subtree never changes again. */
  lemma {:induction false} NodeComplete(h: Hash2, leaves: seq<Fe>, more: seq<Fe>, l: nat, i: nat)
    requires i < Shr(|leaves|, l)
    ensures Node(h, leaves + more, l, i) == Node(h, leaves, l, i)
  {
    if l > 0 {
      NodeComplete(h, leaves, more, l - 1, 2 * i);
      NodeComplete(h, leaves, more, l - 1, 2 * i + 1);
    }
  }

  /** With no leaves the root is the tree of zeros. */
  lemma EmptyRoot(h: Hash2, depth: nat)
    ensures Root(h, [], depth) == Zero(h, depth)
  {
    OccupiedNothing(depth);
    NodeBeyondLeaves(h, [], depth, 0);
  }

  lemma {:induction false} OccupiedNothing(l: nat)
    ensures Occupied(0, l) == 0
  {
    if l > 0 {
      OccupiedNothing(l - 1);
    }
  }

  // ----- what equal roots say, given that the pairs hashed do not collide -----

  /** The pairs hashed below and at node `i` of level `l`. */
  ghost function Pairs(h: Hash2, leaves: seq<Fe>, l: nat, i: nat): set<(Fe, Fe)>
    decreases l, h(0, 0)
  {
    if l == 0 then {}
    else Pairs(h, leaves, l - 1, 2 * i) + Pairs(h, leaves, l - 1, 2 * i + 1)
         + {(Node(h, leaves, l - 1, 2 * i), Node(h, leaves, l - 1, 2 * i + 1))}
  }

  ghost predicate Hashed(pairs: set<(Fe, Fe)>, a: (Fe, Fe)) {
    a in pairs
  }

  /** No two of the given inputs of `h` collide. */
  ghost predicate CollisionFree(h: Hash2, pairs: set<(Fe, Fe)>) {
    forall a, b {:trigger Hashed(pairs, a), Hashed(pairs, b)} ::
      Hashed(pairs, a) && Hashed(pairs, b) && h(a.0, a.1) == h(b.0, b.1) ==> a == b
  }

  lemma FewerPairs(h: Hash2, pairs: set<(Fe, Fe)>, all: set<(Fe, Fe)>)
    requires CollisionFree(h, all) && pairs <= all
    ensures CollisionFree(h, pairs)
  {
    assert forall a :: Hashed(pairs, a) ==> Hashed(all, a);
  }

  lemma SameInputs(h: Hash2, pairs: set<(Fe, Fe)>, a: (Fe, Fe), b: (Fe, Fe))
    requires CollisionFree(h, pairs) && a in pairs && b in pairs && h(a.0, a.1) == h(b.0, b.1)
    ensures a == b
  {
    assert Hashed(pairs, a) && Hashed(pairs, b);
  }

  /** Every pair hashed below node `i` of level `l` is in `pairs`. */
  ghost predicate Covered(h: Hash2, leaves: seq<Fe>, l: nat, i: nat, pairs: set<(Fe, Fe)>)
    decreases l, h(0, 0)
  {
    l > 0 ==>
      && (Node(h, leaves, l - 1, 2 * i), Node(h, leaves, l - 1, 2 * i + 1)) in pairs
      && Covered(h, leaves, l - 1, 2 * i, pairs)
      && Covered(h, leaves, l - 1, 2 * i + 1, pairs)
  }

  lemma {:induction false} PairsCover(h: Hash2, leaves: seq<Fe>, l: nat, i: nat, pairs: set<(Fe, Fe)>)
    requires Pairs(h, leaves, l, i) <= pairs
    ensures Covered(h, leaves, l, i, pairs)
  {
    if l > 0 {
      PairsCover(h, leaves, l - 1, 2 * i, pairs);
      PairsCover(h, leaves, l - 1, 2 * i + 1, pairs);
      assert (Node(h, leaves, l - 1, 2 * i), Node(h, leaves, l - 1, 2 * i + 1)) in Pairs(h, leaves, l, i);
    }
  }

  /** And they are the only ones: any set that holds the pairs of all nodes holds `Pairs`. */
  lemma {:induction false} PairsLeast(h: Hash2, leaves: seq<Fe>, l: nat, i: nat, all: set<(Fe, Fe)>)
    requires Covered(h, leaves, l, i, all)
    ensures Pairs(h, leaves, l, i) <= all
  {
    if l > 0 {
      PairsLeast(h, leaves, l - 1, 2 * i, all);
      PairsLeast(h, leaves, l - 1, 2 * i + 1, all);
    }
  }

  lemma EqualNodesEqualChildren(h: Hash2, xs: seq<Fe>, ys: seq<Fe>, l: nat, i: nat, pairs: set<(Fe, Fe)>)
    requires Node(h, xs, l + 1, i) == Node(h, ys, l + 1, i)
    requires Covered(h, xs, l + 1, i, pairs) && Covered(h, ys, l + 1, i, pairs) && CollisionFree(h, pairs)
    ensures Node(h, xs, l, 2 * i) == Node(h, ys, l, 2 * i)
    ensures Node(h, xs, l, 2 * i + 1) == Node(h, ys, l, 2 * i + 1)
  {
    SameInputs(h, pairs,
      (Node(h, xs, l, 2 * i), Node(h, xs, l, 2 * i + 1)),
      (Node(h, ys, l, 2 * i), Node(h, ys, l, 2 * i + 1)));
  }

  lemma {:induction false} EqualNodesEqualLeaves(
    h: Hash2, xs: seq<Fe>, ys: seq<Fe>, l: nat, i: nat, k: nat, pairs: set<(Fe, Fe)>)
    requires Node(h, xs, l, i) == Node(h, ys, l, i)
    requires Covered(h, xs, l, i, pairs) && Covered(h, ys, l, i, pairs) && CollisionFree(h, pairs)
    requires Shr(k, l) == i
    ensures Leaf(xs, k) == Leaf(ys, k)
  {
    if l > 0 {
      EqualNodesEqualChildren(h, xs, ys, l - 1, i, pairs);
      EqualNodesEqualLeaves(h, xs, ys, l - 1, Shr(k, l - 1), k, pairs);
    }
  }

  /** Padded with zeros the two lists are the same: they differ at most in trailing zeros. */
  ghost predicate SamePadded(xs: seq<Fe>, ys: seq<Fe>) {
    forall k: nat :: k < |xs| || k < |ys| ==> Leaf(xs, k) == Leaf(ys, k)
  }

  /**
   * The root binds the leaf list: within the capacity, lists with equal roots agree up to
   * trailing zeros, unless two of the pairs hashed in the two trees collide. And lists
   * that agree up to trailing zeros do have equal roots.
   */
  lemma RootBindsLeaves(h: Hash2, xs: seq<Fe>, ys: seq<Fe>, depth: nat)
    requires |xs| <= Pow(2, depth) && |ys| <= Pow(2, depth)
    requires CollisionFree(h, Pairs(h, xs, depth, 0) + Pairs(h, ys, depth, 0))
    ensures Root(h, xs, depth) == Root(h, ys, depth) <==> SamePadded(xs, ys)
  {
    var pairs := Pairs(h, xs, depth, 0) + Pairs(h, ys, depth, 0);
    PairsCover(h, xs, depth, 0, pairs);
    PairsCover(h, ys, depth, 0, pairs);
    if Root(h, xs, depth) == Root(h, ys, depth) {
      forall k: nat | k < |xs| || k < |ys|
        ensures Leaf(xs, k) == Leaf(ys, k)
      {
        ShrSmall(k, depth);
        EqualNodesEqualLeaves(h, xs, ys, depth, 0, k, pairs);
      }
    }
    if SamePadded(xs, ys) {
      SamePaddedNodes(h, xs, ys, depth, 0);
    }
  }

  lemma {:induction false} SamePaddedNodes(h: Hash2, xs: seq<Fe>, ys: seq<Fe>, l: nat, i: nat)
    requires SamePadded(xs, ys)
    ensures Node(h, xs, l, i) == Node(h, ys, l, i)
  {
    if l > 0 {
      SamePaddedNodes(h, xs, ys, l - 1, 2 * i);
      SamePaddedNodes(h, xs, ys, l - 1, 2 * i + 1);
    }
  }

  /** Agreeing with a list that holds no zero means: its leaves in order, and then nothing but zeros. */
  lemma SamePaddedExactly(xs: seq<Fe>, ys: seq<Fe>)
    requires 0 !in ys
    ensures SamePadded(xs, ys) <==> ys <= xs && forall i :: |ys| <= i < |xs| ==> xs[i] == 0
  {
    if SamePadded(xs, ys) {
      assert |xs| < |ys| ==> Leaf(xs, |xs|) == Leaf(ys, |xs|);
      forall k | 0 <= k < |xs|
        ensures xs[k] == if k < |ys| then ys[k] else 0
      {
        assert Leaf(xs, k) == Leaf(ys, k);
      }
    }
  }

  /** Lists without zeros that agree when padded are equal. */
  lemma SamePaddedNonZero(xs: seq<Fe>, ys: seq<Fe>)
    requires SamePadded(xs, ys) && 0 !in xs && 0 !in ys
    ensures xs == ys
  {
    assert |xs| < |ys| ==> Leaf(xs, |xs|) == Leaf(ys, |xs|);
    assert |ys| < |xs| ==> Leaf(xs, |ys|) == Leaf(ys, |ys|);
    forall k | 0 <= k < |xs|
      ensures xs[k] == ys[k]
    {
      assert Leaf(xs, k) == Leaf(ys, k);
    }
  }
}
