/** The client's mirror tree: leaves kept in a list, levels recomputed on demand. */
module ClientTree {
  import opened Wrappers
  import opened Arithmetic
  import opened Residues
  import opened Merkle
  import opened Inclusion

  /** Level `d` as the client holds it: the occupied nodes only. */
  ghost predicate IsLevel(h: Hash2, leaves: seq<Fe>, d: nat, level: seq<Fe>) {
    && |level| == Occupied(|leaves|, d)
    && forall i :: 0 <= i < |level| ==> level[i] == Node(h, leaves, d, i)
  }

  /** Reading a position of a level, with the zero hash beyond its end. */
  function At(level: seq<Fe>, i: nat, zero: Fe): Fe {
    if i < |level| then level[i] else zero
  }

  lemma LevelAt(h: Hash2, leaves: seq<Fe>, d: nat, level: seq<Fe>, i: nat)
    requires IsLevel(h, leaves, d, level)
    ensures At(level, i, Zero(h, d)) == Node(h, leaves, d, i)
  {
    if i >= |level| {
      NodeBeyondLeaves(h, leaves, d, i);
    }
  }

  lemma PathStep(h: Hash2, leaves: seq<Fe>, i: nat, d: nat, level: seq<Fe>, idx: nat, path: seq<Fe>)
    requires IsLevel(h, leaves, d, level) && idx == Shr(i, d)
    requires |path| == d && SiblingPath(h, leaves, i, path)
    ensures SiblingPath(h, leaves, i, path + [At(level, Sibling(idx), Zero(h, d))])
  {
    LevelAt(h, leaves, d, level, Sibling(idx));
  }

  class MerkleTree {
    const h: Hash2
    var leaves: seq<Fe>
    const zeros: seq<Fe>

    ghost predicate Valid()
      reads this
    {
      |zeros| == TREE_DEPTH + 1 && forall l :: 0 <= l <= TREE_DEPTH ==> zeros[l] == Zero(h, l)
    }

    constructor (h: Hash2)
      ensures Valid() && leaves == [] && this.h == h
    {
      var z: seq<Fe> := [0];
      for i := 1 to TREE_DEPTH + 1
        invariant |z| == i && forall l :: 0 <= l < i ==> z[l] == Zero(h, l)
      {
        z := z + [h(z[i - 1], z[i - 1])];
      }
      this.h, leaves, zeros := h, [], z;
    }

    method Append(commitment: Fe) returns (index: nat)
      requires Valid()
      modifies this
      ensures Valid() && leaves == old(leaves) + [commitment] && index == |old(leaves)|
    {
      leaves := leaves + [commitment];
      index := |leaves| - 1;
    }

    /** `nextLevel`: hashes neighbours, an odd tail with the zero of its depth. */
    method NextLevel(level: seq<Fe>, depth: nat) returns (out: seq<Fe>)
      requires Valid() && depth < TREE_DEPTH && IsLevel(h, leaves, depth, level)
      ensures IsLevel(h, leaves, depth + 1, out)
    {
      out := [];
      var i := 0;
      while i < |level|
        invariant i == 2 * |out| && |out| <= Occupied(|leaves|, depth + 1)
        invariant forall k :: 0 <= k < |out| ==> out[k] == Node(h, leaves, depth + 1, k)
      {
        LevelAt(h, leaves, depth, level, i + 1);
        var left := level[i];
        var right := if i + 1 < |level| then level[i + 1] else zeros[depth];
        out := out + [h(left, right)];
        i := i + 2;
      }
    }

    /** `root`: for every list, however long, the root of the padded depth-20 tree. */
    method RootElement() returns (r: Fe)
      requires Valid()
      ensures r == Root(h, leaves, TREE_DEPTH)
    {
      if |leaves| == 0 {
        EmptyRoot(h, TREE_DEPTH);
        return zeros[TREE_DEPTH];
      }
      var level := leaves;
      for d := 0 to TREE_DEPTH
        invariant IsLevel(h, leaves, d, level) && |level| > 0
      {
        level := NextLevel(level, d);
      }
      r := level[0];
    }

    /** `pathFor`: the siblings of a present leaf, or an error beyond the end of the list. */
    method PathFor(leafIndex: nat) returns (r: Option<seq<Fe>>)
      requires Valid()
      ensures r.None? <==> leafIndex >= |leaves|
      ensures r.Some? ==> |r.value| == TREE_DEPTH && SiblingPath(h, leaves, leafIndex, r.value)
    {
      if leafIndex >= |leaves| {
        return None;
      }
      var idx := leafIndex;
      var path := [];
      var level := leaves;
      for d := 0 to TREE_DEPTH
        invariant IsLevel(h, leaves, d, level)
        invariant idx == Shr(leafIndex, d)
        invariant |path| == d && SiblingPath(h, leaves, leafIndex, path)
      {
        var isRight := idx % 2 == 1;
        var siblingIdx := if isRight then idx - 1 else idx + 1;
        PathStep(h, leaves, leafIndex, d, level, idx, path);
        path := path + [if siblingIdx < |level| then level[siblingIdx] else zeros[d]];
        level := NextLevel(level, d);
        idx := idx / 2;
      }
      r := Some(path);
    }
  }
}
