/** The contract's append-only tree: O(depth) state, one hash per level and insert. */
module IncrementalTree {
  import opened Arithmetic
  import opened Residues
  import opened Merkle

  datatype InsertResult = TreeFull | Inserted(index: nat)

  /** `table[l]` is the wire form of the height-`l` tree of zeros. */
  ghost predicate ZeroTable(h: Hash2, table: seq<Bytes32>) {
    forall l :: 0 <= l < |table| ==> table[l] == ToBytesBe(Zero(h, l))
  }

  /** Wherever bit `l` of the leaf count is set, slot `l` holds the last complete height-`l` subtree. */
  ghost predicate Filled(h: Hash2, leaves: seq<Fe>, slots: seq<Bytes32>) {
    forall l {:trigger slots[l]} :: 0 <= l < |slots| && Shr(|leaves|, l) % 2 == 1 ==>
      slots[l] == ToBytesBe(Node(h, leaves, l, Shr(|leaves|, l) - 1))
  }

  /** The slots while leaf `index` is on its way up: the even levels below `level` are rewritten. */
  ghost predicate Rewritten(h: Hash2, list: seq<Fe>, index: nat, level: nat, before: seq<Bytes32>, slots: seq<Bytes32>) {
    && |slots| == |before|
    && forall l {:trigger slots[l]} :: 0 <= l < |slots| ==>
         slots[l] == if l < level && Shr(index, l) % 2 == 0 then ToBytesBe(Node(h, list, l, Shr(index, l))) else before[l]
  }

  /** The loop state of `insert` on reaching `level`. */
  ghost predicate Climbing(
    h: Hash2, list: seq<Fe>, index: nat, level: nat, i: nat, current: Fe, before: seq<Bytes32>, slots: seq<Bytes32>)
  {
    && i == Shr(index, level)
    && current == Node(h, list, level, i)
    && Rewritten(h, list, index, level, before, slots)
  }

  class IncrementalMerkleTree {
    const h: Hash2
    const depth: nat
    var nextIndex: nat
    var filledSubtrees: seq<Bytes32>
    var zeros: seq<Bytes32>
    var currentRoot: Bytes32
    /** Every leaf inserted so far. */
    ghost var leaves: seq<Fe>

    /** The stored root is the root of the padded tree of the leaves inserted so far. */
    ghost predicate Valid()
      reads this
    {
      && 0 < depth <= 32
      && nextIndex == |leaves| <= Pow(2, depth)
      && |zeros| == depth + 1 && ZeroTable(h, zeros)
      && |filledSubtrees| == depth && Filled(h, leaves, filledSubtrees)
      && currentRoot == ToBytesBe(Root(h, leaves, depth))
    }

    constructor (h: Hash2, depth: nat)
      requires 0 < depth <= 32
      ensures Valid() && leaves == [] && this.h == h && this.depth == depth
    {
      var z: Fe := 0;
      var table := [ToBytesBe(z)];
      for l := 0 to depth
        invariant |table| == l + 1 && z == Zero(h, l) && ZeroTable(h, table)
      {
        z := h(z, z);
        table := table + [ToBytesBe(z)];
      }
      EmptyTree(h, depth, table[..depth]);
      this.h, this.depth := h, depth;
      nextIndex := 0;
      zeros := table;
      filledSubtrees := table[..depth];
      currentRoot := table[depth];
      leaves := [];
    }

    /** `insert`: a full tree panics; otherwise the leaf is appended and the root follows. */
    method Insert(leaf: Fe) returns (r: InsertResult)
      requires Valid()
      modifies this
      ensures Valid()
      ensures r == if |old(leaves)| < Pow(2, depth) then Inserted(|old(leaves)|) else TreeFull
      ensures leaves == if r.TreeFull? then old(leaves) else old(leaves) + [leaf]
    {
      if nextIndex >= Pow(2, depth) {
        return TreeFull;
      }
      var index := nextIndex;
      var current := leaf;
      var currentIndex := index;
      ghost var prior, list, before, table := leaves, leaves + [leaf], filledSubtrees, zeros;
      for level := 0 to depth
        invariant nextIndex == index && leaves == prior && zeros == table && |filledSubtrees| == depth
        invariant Climbing(h, list, index, level, currentIndex, current, before, filledSubtrees)
      {
        if currentIndex % 2 == 1 {
          ClimbFromRight(h, prior, leaf, level, currentIndex, current, before, filledSubtrees);
          var left := FromBeBytes(filledSubtrees[level]);
          current := h(left, current);
        } else {
          ClimbFromLeft(h, prior, leaf, level, currentIndex, current, before, filledSubtrees, table);
          filledSubtrees := filledSubtrees[level := ToBytesBe(current)];
          var right := FromBeBytes(zeros[level]);
          current := h(current, right);
        }
        currentIndex := currentIndex / 2;
      }
      ShrSmall(index, depth);
      FilledAfterAppend(h, prior, leaf, before, filledSubtrees);
      currentRoot := ToBytesBe(current);
      nextIndex := nextIndex + 1;
      leaves := list;
      r := Inserted(index);
    }

    /** `root` reads the stored bytes back. */
    method RootElement() returns (r: Fe)
      requires Valid()
      ensures r == Root(h, leaves, depth)
    {
      WireRoundTrip(Root(h, leaves, depth));
      r := FromBeBytes(currentRoot);
    }
  }

  lemma FilledAt(h: Hash2, leaves: seq<Fe>, slots: seq<Bytes32>, l: nat, i: nat)
    requires l < |slots| && Filled(h, leaves, slots) && i == Shr(|leaves|, l) && i % 2 == 1
    ensures slots[l] == ToBytesBe(Node(h, leaves, l, i - 1))
  {
  }

  /** An odd position finds its left sibling in the slot of its level, also after the append. */
  lemma LeftSibling(h: Hash2, leaves: seq<Fe>, leaf: Fe, l: nat, i: nat, slot: Bytes32)
    requires 0 < i == Shr(|leaves|, l) && slot == ToBytesBe(Node(h, leaves, l, i - 1))
    ensures slot == ToBytesBe(Node(h, leaves + [leaf], l, i - 1))
    ensures FromBeBytes(slot) == Node(h, leaves + [leaf], l, i - 1)
  {
    NodeComplete(h, leaves, [leaf], l, i - 1);
    WireRoundTrip(Node(h, leaves, l, i - 1));
  }

  /** To the right of the new leaf there are only zeros. */
  lemma RightSibling(h: Hash2, leaves: seq<Fe>, leaf: Fe, level: nat)
    ensures Node(h, leaves + [leaf], level, Shr(|leaves|, level) + 1) == Zero(h, level)
  {
    OccupiedAfterAppend(|leaves|, level);
    NodeBeyondLeaves(h, leaves + [leaf], level, Shr(|leaves|, level) + 1);
  }

  lemma ZeroSlot(h: Hash2, table: seq<Bytes32>, level: nat)
    requires level < |table| && ZeroTable(h, table)
    ensures FromBeBytes(table[level]) == Zero(h, level)
  {
    assert table[level] == ToBytesBe(Zero(h, level));
    WireRoundTrip(Zero(h, level));
  }

  /** The hash of an even node with zeros, or of an odd node with its left sibling, is the parent. */
  lemma Parent(h: Hash2, list: seq<Fe>, level: nat, i: nat)
    ensures i % 2 == 0 ==> Node(h, list, level + 1, i / 2) == h(Node(h, list, level, i), Node(h, list, level, i + 1))
    ensures i % 2 == 1 ==> Node(h, list, level + 1, i / 2) == h(Node(h, list, level, i - 1), Node(h, list, level, i))
  {
  }

  lemma RewrittenOdd(h: Hash2, list: seq<Fe>, index: nat, level: nat, before: seq<Bytes32>, slots: seq<Bytes32>)
    requires Rewritten(h, list, index, level, before, slots) && Shr(index, level) % 2 == 1
    ensures Rewritten(h, list, index, level + 1, before, slots)
    ensures level < |slots| ==> slots[level] == before[level]
  {
  }

  lemma RewrittenEven(h: Hash2, list: seq<Fe>, index: nat, level: nat, before: seq<Bytes32>, slots: seq<Bytes32>)
    requires level < |slots| && Rewritten(h, list, index, level, before, slots) && Shr(index, level) % 2 == 0
    ensures Rewritten(h, list, index, level + 1, before, slots[level := ToBytesBe(Node(h, list, level, Shr(index, level)))])
  {
  }

  lemma ClimbFromRight(
    h: Hash2, leaves: seq<Fe>, leaf: Fe, level: nat, i: nat, current: Fe, before: seq<Bytes32>, slots: seq<Bytes32>)
    requires Filled(h, leaves, before) && level < |slots| && i % 2 == 1
    requires Climbing(h, leaves + [leaf], |leaves|, level, i, current, before, slots)
    ensures Climbing(h, leaves + [leaf], |leaves|, level + 1, i / 2, h(FromBeBytes(slots[level]), current), before, slots)
  {
    RewrittenOdd(h, leaves + [leaf], |leaves|, level, before, slots);
    FilledAt(h, leaves, before, level, i);
    LeftSibling(h, leaves, leaf, level, i, before[level]);
    Parent(h, leaves + [leaf], level, i);
  }

  lemma ClimbFromLeft(
    h: Hash2, leaves: seq<Fe>, leaf: Fe, level: nat, i: nat, current: Fe, before: seq<Bytes32>, slots: seq<Bytes32>,
    table: seq<Bytes32>)
    requires level < |slots| && level < |table| && ZeroTable(h, table) && i % 2 == 0
    requires Climbing(h, leaves + [leaf], |leaves|, level, i, current, before, slots)
    ensures Climbing(h, leaves + [leaf], |leaves|, level + 1, i / 2, h(current, FromBeBytes(table[level])), before,
                     slots[level := ToBytesBe(current)])
  {
    RewrittenEven(h, leaves + [leaf], |leaves|, level, before, slots);
    RightSibling(h, leaves, leaf, level);
    ZeroSlot(h, table, level);
    Parent(h, leaves + [leaf], level, i);
  }

  /** One insert carries the filled-subtree invariant from `n` to `n + 1` leaves. */
  lemma FilledAfterAppend(h: Hash2, leaves: seq<Fe>, leaf: Fe, before: seq<Bytes32>, after: seq<Bytes32>)
    requires Filled(h, leaves, before)
    requires Rewritten(h, leaves + [leaf], |leaves|, |before|, before, after)
    ensures Filled(h, leaves + [leaf], after)
  {
    forall l | 0 <= l < |after| && Shr(|leaves + [leaf]|, l) % 2 == 1
      ensures after[l] == ToBytesBe(Node(h, leaves + [leaf], l, Shr(|leaves + [leaf]|, l) - 1))
    {
      ShrSucc(|leaves|, l);
      if Shr(|leaves|, l) % 2 == 1 {
        LeftSibling(h, leaves, leaf, l, Shr(|leaves|, l), before[l]);
      }
    }
  }

  lemma EmptyTree(h: Hash2, depth: nat, slots: seq<Bytes32>)
    ensures Filled(h, [], slots) && Root(h, [], depth) == Zero(h, depth) && Pow(2, depth) > 0
  {
    forall l | 0 <= l < |slots|
      ensures Shr(0, l) == 0
    {
      PowPositive(2, l);
      ShrSmall(0, l);
    }
    PowPositive(2, depth);
    EmptyRoot(h, depth);
  }
}
