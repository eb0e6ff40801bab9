/** Whose spend put each nullifier in the set, and when the pool accepts an honest spend. */
module Availability {
  import opened Arithmetic
  import opened Limbs
  import opened Residues
  import opened Merkle
  import opened Inclusion
  import opened Circuits
  import opened Pool
  import opened NoteHistory
  import opened Ledger
  import opened LedgerInvariant
  import opened Safety
  import opened WalletModel

  // ----- where the nullifiers of a run come from -----

  /** `n` is the nullifier of the recorded spend of leaf `i`. */
  ghost predicate NullifierOf(cfg: Config, s: PoolState, h: History, i: nat, n: Fe) {
    && i in h.spent && i < |s.leaves| && i < 0x10_0000
    && n == Nullifier(cfg.hs, h.spent[i], s.leaves[i], i)
    && (s.leaves[i], i) in h.pairs && (h.spent[i], cfg.hs.p2(s.leaves[i], i)) in h.pairs
  }

  /** Every nullifier in the set is there because its leaf was spent. */
  ghost predicate Accounted(cfg: Config, s: PoolState, h: History) {
    forall n :: n in s.nullifiers ==> exists i: nat :: NullifierOf(cfg, s, h, i, n)
  }

  lemma SpendAccounted(cfg: Config, s: PoolState, h: History, root: Fe, nullifier: Fe, key: Fe, note: SpentNote)
    requires NotesValid(cfg, s, h) && InWindow(s, root) && nullifier !in s.nullifiers
    requires Spends(cfg.hs, root, nullifier, key, note) && Sound(cfg, RecordSpend(cfg, h, key, note))
    requires Accounted(cfg, s, h)
    ensures Accounted(cfg, SpendNullifier(s, nullifier), RecordSpend(cfg, h, key, note))
  {
    var s', after := SpendNullifier(s, nullifier), RecordSpend(cfg, h, key, note);
    SpendIsFirst(cfg, s, h, root, nullifier, key, note);
    forall n | n in s'.nullifiers
      ensures exists i: nat :: NullifierOf(cfg, s', after, i, n)
    {
      if n == nullifier {
        assert NullifierOf(cfg, s', after, note.leafIndex, n);
      } else {
        var i: nat :| NullifierOf(cfg, s, h, i, n);
        assert NullifierOf(cfg, s', after, i, n);
      }
    }
  }

  /** New leaves, roots and openings leave the spends as they are. */
  lemma GrowthAccounted(cfg: Config, s: PoolState, h: History, s': PoolState, h': History)
    requires Accounted(cfg, s, h) && s.leaves <= s'.leaves && s'.nullifiers == s.nullifiers
    requires h'.spent == h.spent && h.pairs <= h'.pairs
    ensures Accounted(cfg, s', h')
  {
    forall n | n in s'.nullifiers
      ensures exists i: nat :: NullifierOf(cfg, s', h', i, n)
    {
      var i: nat :| NullifierOf(cfg, s, h, i, n);
      assert NullifierOf(cfg, s', h', i, n);
    }
  }

  lemma TransferAccounted(cfg: Config, w: World, pub: TransferPublic, wit: TransferWitness)
    requires Inv(cfg, w) && Accounted(cfg, w.pool, w.history)
    requires Sound(cfg, StepTransfer(cfg, w, pub, wit).history)
    ensures var w' := StepTransfer(cfg, w, pub, wit); Accounted(cfg, w'.pool, w'.history)
  {
    if Transfer(cfg, w.pool, pub, TransferSat(cfg.hs, pub, wit)).1.Done? {
      var s, h, w' := w.pool, w.history, StepTransfer(cfg, w, pub, wit);
      AcceptedTransfer(cfg, s, pub, wit);
      var s0, h0 := SpendNullifier(s, pub.nullifier0), RecordSpend(cfg, h, wit.spendingKey, wit.in0);
      var s1, h1 := SpendNullifier(s0, pub.nullifier1), RecordSpend(cfg, h0, wit.spendingKey, wit.in1);
      SoundEarlier(cfg, h1, w'.history);
      SoundEarlier(cfg, h0, h1);
      SpendAccounted(cfg, s, h, pub.root, pub.nullifier0, wit.spendingKey, wit.in0);
      SpendKeepsNotes(cfg, s, h, pub.root, pub.nullifier0, wit.spendingKey, wit.in0);
      SpendAccounted(cfg, s0, h0, pub.root, pub.nullifier1, wit.spendingKey, wit.in1);
      GrowthAccounted(cfg, s1, h1, w'.pool, w'.history);
    }
  }

  lemma WithdrawAccounted(cfg: Config, w: World, args: WithdrawArgs, wit: WithdrawWitness)
    requires Inv(cfg, w) && Accounted(cfg, w.pool, w.history)
    requires Sound(cfg, StepWithdraw(cfg, w, args, wit).history)
    ensures var w' := StepWithdraw(cfg, w, args, wit); Accounted(cfg, w'.pool, w'.history)
  {
    if Withdraw(w.pool, args, WithdrawSat(cfg.hs, WithdrawInputs(cfg, args), wit)).1.Done? {
      AcceptedWithdraw(cfg, w.pool, args, wit);
      SpendAccounted(cfg, w.pool, w.history, args.root, args.nullifier, wit.spendingKey, wit.note);
    }
  }

  /** No other event touches the nullifiers or the recorded spends. */
  lemma OthersOnlyGrow(cfg: Config, w: World, e: Event)
    requires !e.SubmitTransfer? && !e.SubmitWithdraw?
    ensures var w' := Step(cfg, w, e);
            && w.pool.leaves <= w'.pool.leaves && w'.pool.nullifiers == w.pool.nullifiers
            && w'.history.spent == w.history.spent && w.history.pairs <= w'.history.pairs
  {
    StepAppends(cfg, w, e);
    StepExtends(cfg, w, e);
    OthersSpendNothing(cfg, w, e);
  }

  lemma OthersSpendNothing(cfg: Config, w: World, e: Event)
    requires !e.SubmitTransfer? && !e.SubmitWithdraw?
    ensures Step(cfg, w, e).pool.nullifiers == w.pool.nullifiers && Step(cfg, w, e).history.spent == w.history.spent
  {
  }

  lemma StepAccounted(cfg: Config, w: World, e: Event)
    requires Inv(cfg, w) && Accounted(cfg, w.pool, w.history) && Sound(cfg, Step(cfg, w, e).history)
    ensures Accounted(cfg, Step(cfg, w, e).pool, Step(cfg, w, e).history)
  {
    match e
    case SubmitTransfer(pub, wit) => TransferAccounted(cfg, w, pub, wit);
    case SubmitWithdraw(args, wit) => WithdrawAccounted(cfg, w, args, wit);
    case _ =>
      OthersOnlyGrow(cfg, w, e);
      GrowthAccounted(cfg, w.pool, w.history, Step(cfg, w, e).pool, Step(cfg, w, e).history);
  }

  lemma {:induction false} RunAccounted(cfg: Config, supply: nat, events: seq<Event>)
    requires supply < U128_MODULUS && Sound(cfg, Run(cfg, supply, events).history)
    ensures var w := Run(cfg, supply, events); Inv(cfg, w) && Accounted(cfg, w.pool, w.history)
  {
    SoundRun(cfg, supply, events);
    if events != [] {
      var init, e := events[..|events| - 1], events[|events| - 1];
      StepExtends(cfg, Run(cfg, supply, init), e);
      SoundEarlier(cfg, Run(cfg, supply, init).history, Run(cfg, supply, events).history);
      RunAccounted(cfg, supply, init);
      StepAccounted(cfg, Run(cfg, supply, init), e);
    }
  }

  // ----- no history can freeze an unspent note -----

  /** The run's hash inputs with those of the owner of the note opened by `o` at leaf `i`. */
  ghost function WithOwner(cfg: Config, h: History, key: Fe, o: Opening, i: Fe): History {
    var c := Commit(cfg.hs, o);
    h.(pairs := h.pairs + {(key, 0), (c, i), (key, cfg.hs.p2(c, i))}, witnessed := h.witnessed + {o})
  }

  /** The owner's nullifier of a leaf is used exactly when that leaf has been spent. */
  lemma NullifierUsed(cfg: Config, s: PoolState, h: History, key: Fe, o: Opening, i: nat)
    requires NotesValid(cfg, s, h) && Accounted(cfg, s, h)
    requires i < |s.leaves| && i < 0x10_0000 && s.leaves[i] == Commit(cfg.hs, o) && OwnerPubkey(cfg.hs, key) == o.1
    requires Sound(cfg, WithOwner(cfg, h, key, o, i))
    ensures Nullifier(cfg.hs, key, Commit(cfg.hs, o), i) in s.nullifiers <==> i in h.spent
  {
    var n, after := Nullifier(cfg.hs, key, Commit(cfg.hs, o), i), WithOwner(cfg, h, key, o, i);
    assert LeafOpened(cfg, s, h, i);
    SameOpening(cfg.hs, after.witnessed, h.openings[i], o);
    if i in h.spent {
      assert SpentBy(cfg, s, h, i, h.spent[i]);
      SameInputs(cfg.hs.p2, after.pairs, (key, 0), (h.spent[i], 0));
    }
    if n in s.nullifiers {
      var j: nat :| NullifierOf(cfg, s, h, j, n);
      SameInputs(cfg.hs.p2, after.pairs, (key, cfg.hs.p2(s.leaves[i], i)), (h.spent[j], cfg.hs.p2(s.leaves[j], j)));
      SameInputs(cfg.hs.p2, after.pairs, (s.leaves[i], i), (s.leaves[j], j));
    }
  }

  /**
   * In every reachable state the owner's nullifier is in the set exactly when the leaf has been
   * spent: nobody else's deposits, transfers and withdrawals can use it up.
   */
  lemma NullifierUsedExactly(cfg: Config, supply: nat, events: seq<Event>, key: Fe, o: Opening, i: nat)
    requires supply < U128_MODULUS && i < 0x10_0000
    requires var s := Run(cfg, supply, events).pool; i < |s.leaves| && s.leaves[i] == Commit(cfg.hs, o)
    requires OwnerPubkey(cfg.hs, key) == o.1
    ensures var w := Run(cfg, supply, events);
            ExhibitsFlaw(cfg, WithOwner(cfg, w.history, key, o, i))
            || (Nullifier(cfg.hs, key, Commit(cfg.hs, o), i) in w.pool.nullifiers <==> i in w.history.spent)
  {
    var w := Run(cfg, supply, events);
    SoundOrFlaw(cfg, WithOwner(cfg, w.history, key, o, i));
    if Sound(cfg, WithOwner(cfg, w.history, key, o, i)) {
      SoundEarlier(cfg, w.history, WithOwner(cfg, w.history, key, o, i));
      RunAccounted(cfg, supply, events);
      NullifierUsed(cfg, w.pool, w.history, key, o, i);
    }
  }

  lemma NullifierUsedIn(cfg: Config, supply: nat, events: seq<Event>, key: Fe, n: DiscoveredNote, after: History)
    requires supply < U128_MODULUS && Sound(cfg, after) && ToField(n.leafIndex) < 0x10_0000
    requires Extends(WithOwner(cfg, Run(cfg, supply, events).history, key, OpeningOf(n.note), ToField(n.leafIndex)), after)
    requires Scanned(cfg.hs, n) && OwnerPubkey(cfg.hs, key) == n.note.owner
    requires var s := Run(cfg, supply, events).pool;
             ToField(n.leafIndex) < |s.leaves| && s.leaves[ToField(n.leafIndex)] == n.commitment
    ensures var w := Run(cfg, supply, events);
            Nullifier(cfg.hs, key, n.commitment, ToField(n.leafIndex)) in w.pool.nullifiers
            <==> ToField(n.leafIndex) in w.history.spent
  {
    var own := WithOwner(cfg, Run(cfg, supply, events).history, key, OpeningOf(n.note), ToField(n.leafIndex));
    SoundEarlier(cfg, own, after);
    SoundOrFlaw(cfg, own);
    NullifierUsedExactly(cfg, supply, events, key, OpeningOf(n.note), ToField(n.leafIndex));
  }

  // ----- proofs built earlier -----

  /** The root an honest client saw after `k` events is accepted exactly while at most 29 pushes have followed. */
  lemma EarlierRoot(cfg: Config, supply: nat, events: seq<Event>, k: nat)
    requires supply < U128_MODULUS && k <= |events| && Run(cfg, supply, events[..k]).pool.leaves != []
    requires Sound(cfg, Run(cfg, supply, events).history)
    ensures var past, now := Run(cfg, supply, events[..k]).pool, Run(cfg, supply, events).pool;
            InWindow(now, Root(cfg.hs.p2, past.leaves, TREE_DEPTH)) <==> Recently(past.pushed, now.pushed)
  {
    SoundOrFlaw(cfg, Run(cfg, supply, events).history);
    CurrentRootInWindow(cfg, supply, events[..k]);
    RootLifetimeExactly(cfg, supply, events, k);
  }

  /** A note held after `k` events is a leaf then and at the same place later on. */
  lemma OwnedEarlier(cfg: Config, supply: nat, events: seq<Event>, k: nat, key: Fe, n: DiscoveredNote, after: History)
    requires k <= |events| && Owned(cfg.hs, key, Run(cfg, supply, events[..k]).pool.leaves, n)
    requires Scanned(cfg.hs, n) && Sound(cfg, after) && OpeningOf(n.note) in after.witnessed
    ensures var past, now, i := Run(cfg, supply, events[..k]).pool.leaves, Run(cfg, supply, events).pool.leaves, ToField(n.leafIndex);
            i < 0x10_0000 && i < |past| <= |now| && past[i] == now[i] == n.commitment
  {
    Widths();
    RunGrows(cfg, supply, events, k);
    SameOpening(cfg.hs, after.witnessed, OpeningOf(n.note), OpeningOf(n.note));
  }

  /** For a note held in `past`: root and nullifier are judged in `w` by what has happened since. */
  ghost predicate Settles(cfg: Config, past: PoolState, w: World, root: Fe, key: Fe, n: DiscoveredNote) {
    && (InWindow(w.pool, root) <==> Recently(past.pushed, w.pool.pushed))
    && (Nullifier(cfg.hs, key, n.commitment, ToField(n.leafIndex)) in w.pool.nullifiers
        <==> ToField(n.leafIndex) in w.history.spent)
  }

  lemma SettlesExactly(cfg: Config, supply: nat, events: seq<Event>, k: nat, key: Fe, n: DiscoveredNote, after: History)
    requires supply < U128_MODULUS && k <= |events| && Sound(cfg, after)
    requires Extends(WithOwner(cfg, Run(cfg, supply, events).history, key, OpeningOf(n.note), ToField(n.leafIndex)), after)
    requires Scanned(cfg.hs, n) && Owned(cfg.hs, key, Run(cfg, supply, events[..k]).pool.leaves, n)
    ensures var past, w := Run(cfg, supply, events[..k]).pool, Run(cfg, supply, events);
            Settles(cfg, past, w, Root(cfg.hs.p2, past.leaves, TREE_DEPTH), key, n)
  {
    OwnedEarlier(cfg, supply, events, k, key, n, after);
    SoundEarlier(cfg, Run(cfg, supply, events).history, after);
    EarlierRoot(cfg, supply, events, k);
    NullifierUsedIn(cfg, supply, events, key, n, after);
  }

  // ----- withdrawing -----

  /** The call carries the public inputs the wallet has built, the amounts as integers. */
  predicate Carries(cfg: Config, key: Fe, n: DiscoveredNote, req: WithdrawRequest, args: WithdrawArgs) {
    && WithdrawInputs(cfg, args) == WithdrawInputsOf(cfg.hs, key, n, req)
    && args.amount == req.amount && args.relayerFee == req.relayerFee
  }

  /** The run's hash inputs with those of the tree the proof was built on, and of the note and its owner. */
  ghost function WithInput(cfg: Config, h: History, leaves: seq<Fe>, key: Fe, n: DiscoveredNote, path: seq<Fe>): History {
    h.(pairs := h.pairs + {(key, 0)} + InputPairs(cfg.hs, key, n, path) + Pairs(cfg.hs.p2, leaves, TREE_DEPTH, 0),
       witnessed := h.witnessed + {OpeningOf(n.note)})
  }

  /** Everything the pool and the circuit ask of a withdrawal built on `past`. */
  ghost predicate WithdrawReady(
    cfg: Config, past: PoolState, w: World, key: Fe, n: DiscoveredNote, req: WithdrawRequest, args: WithdrawArgs)
  {
    && !w.pool.paused && Recently(past.pushed, w.pool.pushed)
    && OnChain(cfg.hs, key, past.leaves, n, req.path) && ToField(n.leafIndex) !in w.history.spent
    && args.relayerFee <= args.amount < Pow(2, 64)
  }

  lemma WithdrawJudged(
    cfg: Config, past: PoolState, w: World, key: Fe, n: DiscoveredNote, req: WithdrawRequest, args: WithdrawArgs)
    requires Scanned(cfg.hs, n) && n.note.amount == req.amount && Carries(cfg, key, n, req, args)
    requires |req.path| == TREE_DEPTH && req.root == Root(cfg.hs.p2, past.leaves, TREE_DEPTH)
    requires CollisionFree(cfg.hs.p2, CheckPairs(cfg.hs.p2, n.commitment, ToField(n.leafIndex), req.path)
                                      + Pairs(cfg.hs.p2, past.leaves, TREE_DEPTH, 0))
    requires Owned(cfg.hs, key, past.leaves, n) ==> Settles(cfg, past, w, req.root, key, n)
    ensures Withdraw(w.pool, args, WithdrawProvable(cfg.hs, key, n, req)).1.Done? <==> WithdrawReady(cfg, past, w, key, n, req, args)
  {
    WithdrawProvableExactly(cfg.hs, key, past.leaves, n, req);
    Widths();
    ModSmall(args.amount, P);
    ModSmall(args.relayerFee, P);
  }

  /**
   * A withdrawal built after `k` events is accepted after all of them exactly when the pool is not
   * paused, at most 29 tree updates have followed, the note was held and the path is its own, the leaf has
   * not been spent, and fee <= amount < 2^64; or the hash inputs of the run, the tree and the
   * owner exhibit a break.
   */
  lemma WithdrawAcceptedExactly(
    cfg: Config, supply: nat, events: seq<Event>, k: nat, key: Fe, n: DiscoveredNote, req: WithdrawRequest, args: WithdrawArgs)
    requires supply < U128_MODULUS && k <= |events|
    requires Scanned(cfg.hs, n) && n.note.amount == req.amount && Carries(cfg, key, n, req, args)
    requires |req.path| == TREE_DEPTH && req.root == Root(cfg.hs.p2, Run(cfg, supply, events[..k]).pool.leaves, TREE_DEPTH)
    ensures var past, w := Run(cfg, supply, events[..k]).pool, Run(cfg, supply, events);
            || ExhibitsFlaw(cfg, WithInput(cfg, w.history, past.leaves, key, n, req.path))
            || (Withdraw(w.pool, args, WithdrawProvable(cfg.hs, key, n, req)).1.Done?
                <==> WithdrawReady(cfg, past, w, key, n, req, args))
  {
    var past, w := Run(cfg, supply, events[..k]).pool, Run(cfg, supply, events);
    var after := WithInput(cfg, w.history, past.leaves, key, n, req.path);
    SoundOrFlaw(cfg, after);
    if Sound(cfg, after) {
      FewerPairs(cfg.hs.p2, CheckPairs(cfg.hs.p2, n.commitment, ToField(n.leafIndex), req.path)
                            + Pairs(cfg.hs.p2, past.leaves, TREE_DEPTH, 0), after.pairs);
      if Owned(cfg.hs, key, past.leaves, n) {
        SettlesExactly(cfg, supply, events, k, key, n, after);
      }
      WithdrawJudged(cfg, past, w, key, n, req, args);
    }
  }

  // ----- transferring -----

  /** The run's hash inputs with those of the tree, of two notes and their owner, and of the change. */
  ghost function WithTransfer(
    cfg: Config, h: History, leaves: seq<Fe>, key: Fe, a: DiscoveredNote, b: DiscoveredNote, req: TransferRequest, s: Supplied)
    : History
  {
    var change := ChangeNote(cfg.hs, key, a, b, req, s);
    h.(pairs := h.pairs + {(key, 0)} + InputPairs(cfg.hs, key, a, PadPath(s.path0)) + InputPairs(cfg.hs, key, b, PadPath(s.path1))
                + Pairs(cfg.hs.p2, leaves, TREE_DEPTH, 0),
       witnessed := h.witnessed + {OpeningOf(a.note), OpeningOf(b.note),
                                   OpeningOf(change), OpeningOf(change.(auditor := req.recipientAuditor))})
  }

  lemma TransferHashesSound(
    cfg: Config, h: History, leaves: seq<Fe>, key: Fe, a: DiscoveredNote, b: DiscoveredNote, req: TransferRequest, s: Supplied)
    requires Sound(cfg, WithTransfer(cfg, h, leaves, key, a, b, req, s))
    ensures Unbroken(cfg.hs, key, leaves, a, b, req, s)
  {
    var after, change := WithTransfer(cfg, h, leaves, key, a, b, req, s), ChangeNote(cfg.hs, key, a, b, req, s);
    var own := h.(pairs := InputPairs(cfg.hs, key, a, PadPath(s.path0)) + InputPairs(cfg.hs, key, b, PadPath(s.path1))
                           + Pairs(cfg.hs.p2, leaves, TREE_DEPTH, 0),
                  witnessed := {OpeningOf(change), OpeningOf(change.(auditor := req.recipientAuditor))});
    SoundEarlier(cfg, own, after);
  }

  /** Everything the pool and the circuit ask of a transfer built on `past`. */
  ghost predicate TransferReady(
    cfg: Config, past: PoolState, w: World, key: Fe, a: DiscoveredNote, b: DiscoveredNote, req: TransferRequest, s: Supplied)
  {
    && !w.pool.paused && |w.pool.leaves| + 2 <= Pow(2, TREE_DEPTH) && Recently(past.pushed, w.pool.pushed)
    && OnChain(cfg.hs, key, past.leaves, a, PadPath(s.path0)) && ToField(a.leafIndex) !in w.history.spent
    && OnChain(cfg.hs, key, past.leaves, b, PadPath(s.path1)) && ToField(b.leafIndex) !in w.history.spent
    && ToField(a.leafIndex) != ToField(b.leafIndex) && PaymentFits(a, b, req)
  }

  lemma TransferJudged(
    cfg: Config, past: PoolState, w: World, key: Fe, a: DiscoveredNote, b: DiscoveredNote, req: TransferRequest, s: Supplied)
    requires Scanned(cfg.hs, a) && Scanned(cfg.hs, b) && a.note.auditor == b.note.auditor
    requires BuildTransfer(cfg.hs, key, a, b, req, s).Built? && s.root == Root(cfg.hs.p2, past.leaves, TREE_DEPTH)
    requires Unbroken(cfg.hs, key, past.leaves, a, b, req, s)
    requires Owned(cfg.hs, key, past.leaves, a) ==> Settles(cfg, past, w, s.root, key, a)
    requires Owned(cfg.hs, key, past.leaves, b) ==> Settles(cfg, past, w, s.root, key, b)
    ensures var built := BuildTransfer(cfg.hs, key, a, b, req, s);
            Transfer(cfg, w.pool, built.pub, Provable(cfg.hs, built.pub, built.inputs)).1.Done?
            <==> TransferReady(cfg, past, w, key, a, b, req, s)
  {
    ProvableExactly(cfg.hs, key, past.leaves, a, b, req, s);
    UnbrokenInputs(cfg.hs, key, past.leaves, a, b, req, s);
    NullifiersDiffer(cfg.hs, key, a, b);
  }

  /**
   * A transfer built after `k` events is accepted after all of them exactly when the pool is not
   * paused and has room for two leaves, at most 29 tree updates have followed, both notes were held and the
   * paths are theirs, at different leaves that have not been spent, and the payment fits; or
   * the hash inputs of the run, the tree and the owner exhibit a break.
   */
  lemma TransferAcceptedExactly(
    cfg: Config, supply: nat, events: seq<Event>, k: nat, key: Fe, a: DiscoveredNote, b: DiscoveredNote,
    req: TransferRequest, s: Supplied)
    requires supply < U128_MODULUS && k <= |events|
    requires Scanned(cfg.hs, a) && Scanned(cfg.hs, b) && a.note.auditor == b.note.auditor
    requires BuildTransfer(cfg.hs, key, a, b, req, s).Built?
    requires s.root == Root(cfg.hs.p2, Run(cfg, supply, events[..k]).pool.leaves, TREE_DEPTH)
    ensures var past, w := Run(cfg, supply, events[..k]).pool, Run(cfg, supply, events);
            var built := BuildTransfer(cfg.hs, key, a, b, req, s);
            || ExhibitsFlaw(cfg, WithTransfer(cfg, w.history, past.leaves, key, a, b, req, s))
            || (Transfer(cfg, w.pool, built.pub, Provable(cfg.hs, built.pub, built.inputs)).1.Done?
                <==> TransferReady(cfg, past, w, key, a, b, req, s))
  {
    var past, w := Run(cfg, supply, events[..k]).pool, Run(cfg, supply, events);
    var after := WithTransfer(cfg, w.history, past.leaves, key, a, b, req, s);
    SoundOrFlaw(cfg, after);
    if Sound(cfg, after) {
      TransferHashesSound(cfg, w.history, past.leaves, key, a, b, req, s);
      if Owned(cfg.hs, key, past.leaves, a) {
        SettlesExactly(cfg, supply, events, k, key, a, after);
      }
      if Owned(cfg.hs, key, past.leaves, b) {
        SettlesExactly(cfg, supply, events, k, key, b, after);
      }
      TransferJudged(cfg, past, w, key, a, b, req, s);
    }
  }
}
