/** The three trees together: the contract's, the client's and the circuit's. */
module TreeAgreement {
  import opened Arithmetic
  import opened Residues
  import opened Merkle
  import opened Inclusion
  import opened Circuits
  import opened IncrementalTree
  import opened ClientTree

  /** On the same leaves the client recomputes the contract's root. */
  method RootsAgree(contract: IncrementalMerkleTree, client: MerkleTree) returns (onChain: Fe, local: Fe)
    requires contract.Valid() && client.Valid()
    requires contract.depth == TREE_DEPTH && contract.h == client.h && contract.leaves == client.leaves
    ensures onChain == local == Root(client.h, client.leaves, TREE_DEPTH)
  {
    onChain := contract.RootElement();
    local := client.RootElement();
  }

  /** For every leaf within the capacity the client's path is accepted by the circuit under that root. */
  method PathIsAccepted(client: MerkleTree, i: nat) returns (path: seq<Fe>)
    requires client.Valid() && i < |client.leaves| && i < 0x10_0000
    ensures |path| == 20
    ensures MerkleInclusion(client.h, client.leaves[i], Root(client.h, client.leaves, TREE_DEPTH),
                            LowBits(i, TREE_DEPTH), path, Ancestors(client.h, client.leaves, i, TREE_DEPTH))
  {
    Widths();
    var found := client.PathFor(i);
    path := found.value;
    SiblingsIncluded(client.h, client.leaves, i, TREE_DEPTH, path);
  }

  /**
   * Beyond the capacity the client keeps answering, but for the wrong tree: its root ignores
   * every leaf past the first `2^depth`.
   */
  lemma RootIgnoresOverflow(h: Hash2, leaves: seq<Fe>, more: seq<Fe>, l: nat, i: nat)
    requires |leaves| >= Pow(2, l) * (i + 1)
    ensures Node(h, leaves + more, l, i) == Node(h, leaves, l, i)
  {
    ShrAtLeast(|leaves|, l, i);
    NodeComplete(h, leaves, more, l, i);
  }

  lemma ShrAtLeast(n: nat, l: nat, i: nat)
    requires n >= Pow(2, l) * (i + 1)
    ensures i < Shr(n, l)
  {
    ShrBound(n, l);
    PowPositive(2, l);
    if Shr(n, l) <= i {
      MulLe(Shr(n, l) + 1, i + 1, Pow(2, l));
    }
  }
}
