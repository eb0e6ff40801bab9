/** The secret side of the pool: what opens each leaf, which leaf each nullifier spent. */
module NoteHistory {
  import opened Arithmetic
  import opened Residues
  import opened Merkle
  import opened Inclusion
  import opened Circuits
  import opened ContractStores
  import opened Pool

  /**
   * Ghost record of a run. `pairs` and `witnessed` are the Poseidon-2 inputs and the commitment
   * openings the run has used: every pair hashed in the trees and in the accepted proofs.
   */
  datatype History = History(
    openings: seq<Opening>,       // opening of each leaf
    spent: map<nat, Fe>,          // spent leaf index -> spending key used
    sizes: seq<nat>,              // leaf count at each pushed root
    pairs: set<(Fe, Fe)>,
    witnessed: set<Opening>)

  const NO_HISTORY := History([], map[], [], {}, {})

  /** The hash inputs of the run exhibit neither a collision nor an opening of zero. */
  ghost predicate Sound(cfg: Config, h: History) {
    CollisionFree(cfg.hs.p2, h.pairs) && Binding(cfg.hs, h.witnessed)
  }

  ghost predicate Extends(h: History, later: History) {
    h.pairs <= later.pairs && h.witnessed <= later.witnessed && h.spent.Keys <= later.spent.Keys
  }

  lemma SoundEarlier(cfg: Config, h: History, later: History)
    requires Sound(cfg, later) && Extends(h, later)
    ensures Sound(cfg, h)
  {
    assert forall a :: Hashed(h.pairs, a) ==> Hashed(later.pairs, a);
    assert forall a :: Opened(h.witnessed, a) ==> Opened(later.witnessed, a);
  }

  // ----- the invariant -----

  /** Leaf `i` is the commitment to its recorded opening. */
  ghost predicate LeafOpened(cfg: Config, s: PoolState, h: History, i: nat)
    requires i < |s.leaves| && i < |h.openings|
  {
    Commit(cfg.hs, h.openings[i]) == s.leaves[i] && h.openings[i] in h.witnessed
  }

  ghost predicate LeavesOpened(cfg: Config, s: PoolState, h: History) {
    && |h.openings| == |s.leaves| <= Pow(2, TREE_DEPTH)
    && forall i {:trigger h.openings[i]} :: 0 <= i < |h.openings| ==> LeafOpened(cfg, s, h, i)
  }

  /** Root `root` was the root of the first `size` leaves. */
  ghost predicate RootOfPrefix(cfg: Config, leaves: seq<Fe>, root: Fe, size: nat, pairs: set<(Fe, Fe)>) {
    && size <= |leaves|
    && root == Root(cfg.hs.p2, leaves[..size], TREE_DEPTH)
    && Pairs(cfg.hs.p2, leaves[..size], TREE_DEPTH, 0) <= pairs
  }

  /** Every root ever pushed is the root of a prefix of the leaf list. */
  ghost predicate RootsKnown(cfg: Config, s: PoolState, h: History) {
    && |h.sizes| == |s.pushed|
    && forall j {:trigger h.sizes[j]} :: 0 <= j < |h.sizes| ==> RootOfPrefix(cfg, s.leaves, s.pushed[j], h.sizes[j], h.pairs)
  }

  /** Leaf `i` was spent by its owner's key, and the nullifier of that spend is in the set. */
  ghost predicate SpentBy(cfg: Config, s: PoolState, h: History, i: nat, key: Fe) {
    && i < |s.leaves| && i < |h.openings| && i < 0x10_0000
    && (key, 0) in h.pairs
    && OwnerPubkey(cfg.hs, key) == h.openings[i].1
    && Nullifier(cfg.hs, key, s.leaves[i], i) in s.nullifiers
  }

  ghost predicate SpendsTracked(cfg: Config, s: PoolState, h: History) {
    forall i {:trigger h.spent[i]} :: i in h.spent ==> SpentBy(cfg, s, h, i, h.spent[i])
  }

  ghost predicate NotesValid(cfg: Config, s: PoolState, h: History) {
    LeavesOpened(cfg, s, h) && RootsKnown(cfg, s, h) && SpendsTracked(cfg, s, h)
  }

  // ----- spending -----

  ghost function RecordSpend(cfg: Config, h: History, key: Fe, note: SpentNote): History
    requires |note.bits| == |note.path| && |note.cur| == |note.bits| + 1
  {
    h.(spent := h.spent[note.leafIndex := key],
       pairs := h.pairs + SpendPairs(cfg.hs, key, note),
       witnessed := h.witnessed + {note.opening})
  }

  /** A window root is one of the pushed roots. */
  lemma WindowRootPushed(s: PoolState, root: Fe) returns (j: nat)
    requires InWindow(s, root)
    ensures j < |s.pushed| && s.pushed[j] == root
  {
    var recent := Recent(s.pushed, ROOTS_WINDOW);
    var i :| 0 <= i < |recent| && recent[i] == root;
    j := |s.pushed| - |recent| + i;
  }

  /**
   * An inclusion proof under any window root proves a leaf of the current tree: its index is
   * occupied, and the commitment proved is the leaf there.
   */
  lemma WindowInclusion(cfg: Config, s: PoolState, h: History, root: Fe, nullifier: Fe, key: Fe, note: SpentNote)
    requires RootsKnown(cfg, s, h) && InWindow(s, root)
    requires Spends(cfg.hs, root, nullifier, key, note)
    requires Sound(cfg, RecordSpend(cfg, h, key, note))
    ensures note.leafIndex < |s.leaves| && note.leafIndex < 0x10_0000
    ensures s.leaves[note.leafIndex] == Commit(cfg.hs, note.opening)
  {
    var after := RecordSpend(cfg, h, key, note);
    var j := WindowRootPushed(s, root);
    var prefix := s.leaves[..h.sizes[j]];
    assert RootOfPrefix(cfg, s.leaves, s.pushed[j], h.sizes[j], h.pairs);
    Widths();
    InclusionBinds(cfg.hs.p2, prefix, Commit(cfg.hs, note.opening), note.leafIndex, note.bits, note.path, note.cur, after.pairs);
    SameOpening(cfg.hs, after.witnessed, note.opening, note.opening);
  }

  /** A leaf already spent yields the very nullifier of the first spend. */
  lemma SecondSpendRepeats(cfg: Config, s: PoolState, h: History, nullifier: Fe, key: Fe, note: SpentNote, first: Fe)
    requires SpentBy(cfg, s, h, note.leafIndex, first)
    requires h.openings[note.leafIndex] == note.opening && s.leaves[note.leafIndex] == Commit(cfg.hs, note.opening)
    requires OwnerPubkey(cfg.hs, key) == note.opening.1
    requires Nullifier(cfg.hs, key, Commit(cfg.hs, note.opening), note.leafIndex) == nullifier
    requires CollisionFree(cfg.hs.p2, h.pairs + {(key, 0)})
    ensures nullifier in s.nullifiers
  {
    SameInputs(cfg.hs.p2, h.pairs + {(key, 0)}, (key, 0), (first, 0));
  }

  /** An accepted spend with an unused nullifier opens an occupied leaf that was never spent. */
  lemma SpendIsFirst(cfg: Config, s: PoolState, h: History, root: Fe, nullifier: Fe, key: Fe, note: SpentNote)
    requires NotesValid(cfg, s, h) && InWindow(s, root) && nullifier !in s.nullifiers
    requires Spends(cfg.hs, root, nullifier, key, note)
    requires Sound(cfg, RecordSpend(cfg, h, key, note))
    ensures note.leafIndex < |s.leaves| && note.leafIndex < 0x10_0000
    ensures s.leaves[note.leafIndex] == Commit(cfg.hs, note.opening)
    ensures h.openings[note.leafIndex] == note.opening
    ensures note.leafIndex !in h.spent
  {
    var after := RecordSpend(cfg, h, key, note);
    var i := note.leafIndex;
    WindowInclusion(cfg, s, h, root, nullifier, key, note);
    assert LeafOpened(cfg, s, h, i);
    SameOpening(cfg.hs, after.witnessed, h.openings[i], note.opening);
    if i in h.spent {
      assert SpentBy(cfg, s, h, i, h.spent[i]);
      KeyPairSound(cfg, h, key, note);
      SecondSpendRepeats(cfg, s, h, nullifier, key, note, h.spent[i]);
    }
  }

  lemma KeyPairSound(cfg: Config, h: History, key: Fe, note: SpentNote)
    requires |note.bits| == |note.path| && |note.cur| == |note.bits| + 1
    requires Sound(cfg, RecordSpend(cfg, h, key, note))
    ensures CollisionFree(cfg.hs.p2, h.pairs + {(key, 0)})
  {
    var after := RecordSpend(cfg, h, key, note);
    assert h.pairs + {(key, 0)} <= after.pairs;
    assert forall a :: Hashed(h.pairs + {(key, 0)}, a) ==> Hashed(after.pairs, a);
  }

  function SpendNullifier(s: PoolState, nullifier: Fe): PoolState {
    s.(nullifiers := s.nullifiers + {nullifier})
  }

  /** Whatever leaves the leaves and the pushed roots alone keeps them known; nothing is asked of the hash. */
  lemma RootsMonotone(cfg: Config, s: PoolState, h: History, s': PoolState, h': History)
    requires RootsKnown(cfg, s, h)
    requires s'.leaves == s.leaves && s'.pushed == s.pushed && h'.sizes == h.sizes && h.pairs <= h'.pairs
    ensures RootsKnown(cfg, s', h')
  {
    forall j | 0 <= j < |h'.sizes|
      ensures RootOfPrefix(cfg, s'.leaves, s'.pushed[j], h'.sizes[j], h'.pairs)
    {
      assert RootOfPrefix(cfg, s.leaves, s.pushed[j], h.sizes[j], h.pairs);
    }
  }

  lemma SpendKeepsNotes(cfg: Config, s: PoolState, h: History, root: Fe, nullifier: Fe, key: Fe, note: SpentNote)
    requires NotesValid(cfg, s, h) && InWindow(s, root) && nullifier !in s.nullifiers
    requires Spends(cfg.hs, root, nullifier, key, note)
    requires Sound(cfg, RecordSpend(cfg, h, key, note))
    ensures NotesValid(cfg, SpendNullifier(s, nullifier), RecordSpend(cfg, h, key, note))
  {
    var s', after := SpendNullifier(s, nullifier), RecordSpend(cfg, h, key, note);
    SpendIsFirst(cfg, s, h, root, nullifier, key, note);
    forall i | 0 <= i < |after.openings|
      ensures LeafOpened(cfg, s', after, i)
    {
      assert LeafOpened(cfg, s, h, i);
    }
    RootsMonotone(cfg, s, h, s', after);
    forall i | i in after.spent
      ensures SpentBy(cfg, s', after, i, after.spent[i])
    {
      if i != note.leafIndex {
        assert SpentBy(cfg, s, h, i, h.spent[i]);
      }
    }
  }

  // ----- appending -----

  ghost function RecordAppend(cfg: Config, h: History, leaves: seq<Fe>, added: seq<Opening>): History {
    h.(openings := h.openings + added,
       sizes := h.sizes + [|leaves|],
       pairs := h.pairs + Pairs(cfg.hs.p2, leaves, TREE_DEPTH, 0),
       witnessed := h.witnessed + set o | o in added)
  }

  function Commitments(cfg: Config, added: seq<Opening>): seq<Fe> {
    seq(|added|, i requires 0 <= i < |added| => Commit(cfg.hs, added[i]))
  }

  lemma AppendKeepsRoots(cfg: Config, s: PoolState, h: History, mid: History, added: seq<Opening>)
    requires RootsKnown(cfg, s, h) && mid.sizes == h.sizes && h.pairs <= mid.pairs
    ensures var s' := Append(cfg, s, Commitments(cfg, added));
            RootsKnown(cfg, s', RecordAppend(cfg, mid, s'.leaves, added))
  {
    var s' := Append(cfg, s, Commitments(cfg, added));
    var after := RecordAppend(cfg, mid, s'.leaves, added);
    forall j | 0 <= j < |after.sizes|
      ensures RootOfPrefix(cfg, s'.leaves, s'.pushed[j], after.sizes[j], after.pairs)
    {
      if j < |h.sizes| {
        PrefixStays(cfg, s.leaves, Commitments(cfg, added), s.pushed[j], h.sizes[j], h.pairs, after.pairs);
      } else {
        assert s'.leaves[..|s'.leaves|] == s'.leaves;
      }
    }
  }

  lemma AppendKeepsNotes(cfg: Config, s: PoolState, h: History, added: seq<Opening>)
    requires NotesValid(cfg, s, h) && |s.leaves| + |added| <= Pow(2, TREE_DEPTH)
    ensures var s' := Append(cfg, s, Commitments(cfg, added));
            NotesValid(cfg, s', RecordAppend(cfg, h, s'.leaves, added))
  {
    var s' := Append(cfg, s, Commitments(cfg, added));
    var after := RecordAppend(cfg, h, s'.leaves, added);
    forall i | 0 <= i < |after.openings|
      ensures LeafOpened(cfg, s', after, i)
    {
      if i < |h.openings| {
        assert LeafOpened(cfg, s, h, i);
      }
    }
    AppendKeepsRoots(cfg, s, h, h, added);
    forall i | i in after.spent
      ensures SpentBy(cfg, s', after, i, after.spent[i])
    {
      assert SpentBy(cfg, s, h, i, h.spent[i]);
    }
  }

  lemma PrefixStays(
    cfg: Config, leaves: seq<Fe>, more: seq<Fe>, root: Fe, size: nat, pairs: set<(Fe, Fe)>, later: set<(Fe, Fe)>)
    requires RootOfPrefix(cfg, leaves, root, size, pairs) && pairs <= later
    ensures RootOfPrefix(cfg, leaves + more, root, size, later)
  {
    assert (leaves + more)[..size] == leaves[..size];
  }
}
