/** What holds of every run of the pool, under every interleaving of its receipts. */
module Safety {
  import opened Arithmetic
  import opened Residues
  import opened Merkle
  import opened Circuits
  import opened ContractStores
  import opened Pool
  import opened NoteHistory
  import opened Sums
  import opened Ledger
  import opened LedgerInvariant

  /**
   * The run itself contains a break of the hash: two of its Poseidon-2 inputs or two of its
   * openings collide, or one of its openings commits to zero.
   */
  ghost predicate ExhibitsFlaw(cfg: Config, h: History) {
    || (exists a, b :: a in h.pairs && b in h.pairs && a != b && cfg.hs.p2(a.0, a.1) == cfg.hs.p2(b.0, b.1))
    || (exists a, b :: a in h.witnessed && b in h.witnessed && a != b
                       && cfg.hs.p4(a.0, a.1, a.2, a.3) == cfg.hs.p4(b.0, b.1, b.2, b.3))
    || (exists a :: a in h.witnessed && cfg.hs.p4(a.0, a.1, a.2, a.3) == 0)
  }

  lemma SoundOrFlaw(cfg: Config, h: History)
    ensures Sound(cfg, h) <==> !ExhibitsFlaw(cfg, h)
  {
    if Sound(cfg, h) {
      forall a, b | a in h.pairs && b in h.pairs && cfg.hs.p2(a.0, a.1) == cfg.hs.p2(b.0, b.1)
        ensures a == b
      {
        SameInputs(cfg.hs.p2, h.pairs, a, b);
      }
      forall a, b | a in h.witnessed && b in h.witnessed && Commit(cfg.hs, a) == Commit(cfg.hs, b)
        ensures a == b && Commit(cfg.hs, a) != 0
      {
        SameOpening(cfg.hs, h.witnessed, a, b);
      }
    }
  }

  lemma {:induction false} SoundRun(cfg: Config, supply: nat, events: seq<Event>)
    requires supply < U128_MODULUS && Sound(cfg, Run(cfg, supply, events).history)
    ensures Inv(cfg, Run(cfg, supply, events))
  {
    if events == [] {
      Widths();
      forall account
        ensures AccountBalanced(Genesis(supply), account)
      {
      }
    } else {
      var init, e := events[..|events| - 1], events[|events| - 1];
      StepExtends(cfg, Run(cfg, supply, init), e);
      SoundEarlier(cfg, Run(cfg, supply, init).history, Run(cfg, supply, events).history);
      SoundRun(cfg, supply, init);
      StepKeeps(cfg, Run(cfg, supply, init), e);
    }
  }

  /**
   * Conservation: after any events, what was deposited is exactly the value of the unspent
   * leaves, the payouts in flight, the recovery book and what was delivered; and every account
   * has been delivered, is owed in flight, or is booked exactly what was promised to it.
   * Otherwise the run itself exhibits a break of the hash.
   */
  lemma ConservationOrFlaw(cfg: Config, supply: nat, events: seq<Event>)
    requires supply < U128_MODULUS
    ensures var w := Run(cfg, supply, events);
            ExhibitsFlaw(cfg, w.history) || (ValueConserved(w) && TokensConserved(w) && AccountsBalanced(w))
  {
    var w := Run(cfg, supply, events);
    SoundOrFlaw(cfg, w.history);
    if !ExhibitsFlaw(cfg, w.history) {
      SoundRun(cfg, supply, events);
    }
  }

  /**
   * Solvency: the pool's token balance covers every note, payout, booked credit and refund at
   * once; so no payout fails for lack of balance, and a rejected deposit is refunded in full.
   */
  lemma SolvencyOrFlaw(cfg: Config, supply: nat, events: seq<Event>)
    requires supply < U128_MODULUS
    ensures var w := Run(cfg, supply, events);
            ExhibitsFlaw(cfg, w.history)
            || (&& w.tokens >= SumBy(HeldAmount, w.incoming) + Unspent(w.history.openings, w.history.spent.Keys)
                               + SumBy(Pending, w.payouts) + MapSum(w.pool.unclaimed)
                && (forall i :: 0 <= i < |w.payouts| && w.payouts[i].phase.Sent? ==> w.payouts[i].amount <= w.tokens)
                && (forall i :: 0 <= i < |w.incoming| && w.incoming[i].stage.Rejected? ==>
                      Refund(w, w.incoming[i]) == w.incoming[i].amount))
  {
    var w := Run(cfg, supply, events);
    ConservationOrFlaw(cfg, supply, events);
    if !ExhibitsFlaw(cfg, w.history) {
      DeliveredCovered(w);
      forall i | 0 <= i < |w.payouts| && w.payouts[i].phase.Sent?
        ensures w.payouts[i].amount <= w.tokens
      {
        SumAtLeast(Pending, w.payouts, i);
      }
      forall i | 0 <= i < |w.incoming| && w.incoming[i].stage.Rejected?
        ensures Refund(w, w.incoming[i]) == w.incoming[i].amount
      {
        SumAtLeast(HeldAmount, w.incoming, i);
      }
    }
  }

  /** The recovery book never wraps, although release builds add to it unchecked. */
  lemma BookNeverWraps(cfg: Config, supply: nat, events: seq<Event>, i: nat)
    requires supply < U128_MODULUS
    requires var w := Run(cfg, supply, events); i < |w.payouts| && w.payouts[i].phase == Settled(false)
    ensures var w := Run(cfg, supply, events);
            ExhibitsFlaw(cfg, w.history)
            || UnclaimedOf(w.pool, w.payouts[i].account) + w.payouts[i].amount < U128_MODULUS
  {
    var w := Run(cfg, supply, events);
    SoundOrFlaw(cfg, w.history);
    if !ExhibitsFlaw(cfg, w.history) {
      SoundRun(cfg, supply, events);
      BookDoesNotWrap(cfg, w, i);
    }
  }

  // ----- what an account is owed -----

  ghost function Owed(w: World, account: AccountId): nat {
    UnclaimedOf(w.pool, account) + SumBy(PendingTo(account), w.payouts)
  }

  /** The steps that move an obligation between receipts and the book without paying it. */
  ghost predicate Shuffles(cfg: Config, w: World, e: Event) {
    match e
    case StartPayout(_) => true
    case CompletePayout(_) => true
    case SubmitClaim(_) => true
    case ExecutePayout(i, accepted) => Step(cfg, w, e).delivered == w.delivered
    case _ => false
  }

  ghost function RunFrom(cfg: Config, w: World, chain: seq<Event>): World
    decreases |chain|
  {
    if chain == [] then w else RunFrom(cfg, Step(cfg, w, chain[0]), chain[1..])
  }

  ghost predicate ShufflesOnly(cfg: Config, w: World, chain: seq<Event>)
    decreases |chain|
  {
    chain != [] ==> Shuffles(cfg, w, chain[0]) && ShufflesOnly(cfg, Step(cfg, w, chain[0]), chain[1..])
  }

  /**
   * From any reachable state, any chain of refused payouts, callbacks and claims leaves what
   * every account is owed unchanged, or the run so far exhibits a flaw.
   */
  lemma ShufflingKeepsOwed(cfg: Config, supply: nat, events: seq<Event>, chain: seq<Event>, account: AccountId)
    requires supply < U128_MODULUS && ShufflesOnly(cfg, Run(cfg, supply, events), chain)
    ensures var w := Run(cfg, supply, events);
            ExhibitsFlaw(cfg, w.history) || Owed(RunFrom(cfg, w, chain), account) == Owed(w, account)
  {
    var w := Run(cfg, supply, events);
    SoundOrFlaw(cfg, w.history);
    if Sound(cfg, w.history) {
      SoundRun(cfg, supply, events);
      ShuffleChain(cfg, w, chain, account);
    }
  }

  lemma {:induction false} ShuffleChain(cfg: Config, w: World, chain: seq<Event>, account: AccountId)
    requires Inv(cfg, w) && Sound(cfg, w.history) && ShufflesOnly(cfg, w, chain)
    ensures Owed(RunFrom(cfg, w, chain), account) == Owed(w, account)
    decreases |chain|
  {
    if chain != [] {
      ShuffleHistory(cfg, w, chain[0]);
      StepKeeps(cfg, w, chain[0]);
      ShuffleStep(cfg, w, chain[0], account);
      ShuffleChain(cfg, Step(cfg, w, chain[0]), chain[1..], account);
    }
  }

  lemma ShuffleHistory(cfg: Config, w: World, e: Event)
    requires Shuffles(cfg, w, e)
    ensures Step(cfg, w, e).history == w.history
  {
  }

  lemma ShuffleStep(cfg: Config, w: World, e: Event, account: AccountId)
    requires Inv(cfg, w) && Sound(cfg, Step(cfg, w, e).history) && Shuffles(cfg, w, e)
    ensures Owed(Step(cfg, w, e), account) == Owed(w, account)
  {
    StepKeeps(cfg, w, e);
    assert AccountBalanced(w, account) && AccountBalanced(Step(cfg, w, e), account);
  }

  // ----- each leaf is spent at most once -----

  /** Event `e` succeeds in `w` and spends leaf `leaf`. */
  ghost predicate SpendsLeaf(cfg: Config, w: World, e: Event, leaf: nat) {
    match e
    case SubmitTransfer(pub, wit) =>
      && Transfer(cfg, w.pool, pub, TransferSat(cfg.hs, pub, wit)).1.Done?
      && (leaf == wit.in0.leafIndex || leaf == wit.in1.leafIndex)
    case SubmitWithdraw(args, wit) =>
      && Withdraw(w.pool, args, WithdrawSat(cfg.hs, WithdrawInputs(cfg, args), wit)).1.Done?
      && leaf == wit.note.leafIndex
    case _ => false
  }

  lemma TransferRecorded(cfg: Config, w: World, pub: TransferPublic, wit: TransferWitness)
    requires Inv(cfg, w) && Sound(cfg, StepTransfer(cfg, w, pub, wit).history)
    requires Transfer(cfg, w.pool, pub, TransferSat(cfg.hs, pub, wit)).1.Done?
    ensures forall leaf :: SpendsLeaf(cfg, w, SubmitTransfer(pub, wit), leaf) ==>
              leaf !in w.history.spent && leaf in StepTransfer(cfg, w, pub, wit).history.spent
  {
    AcceptedTransfer(cfg, w.pool, pub, wit);
    TransferNotesKeep(cfg, w.pool, w.history, pub, wit);
  }

  lemma WithdrawRecorded(cfg: Config, w: World, args: WithdrawArgs, wit: WithdrawWitness)
    requires Inv(cfg, w) && Sound(cfg, StepWithdraw(cfg, w, args, wit).history)
    requires Withdraw(w.pool, args, WithdrawSat(cfg.hs, WithdrawInputs(cfg, args), wit)).1.Done?
    ensures forall leaf :: SpendsLeaf(cfg, w, SubmitWithdraw(args, wit), leaf) ==>
              leaf !in w.history.spent && leaf in StepWithdraw(cfg, w, args, wit).history.spent
  {
    AcceptedWithdraw(cfg, w.pool, args, wit);
    SpendIsFirst(cfg, w.pool, w.history, args.root, args.nullifier, wit.spendingKey, wit.note);
  }

  lemma {:induction false} RunExtends(cfg: Config, supply: nat, events: seq<Event>, k: nat)
    requires k <= |events|
    ensures Extends(Run(cfg, supply, events[..k]).history, Run(cfg, supply, events).history)
  {
    if k == |events| {
      assert events[..k] == events;
    } else {
      var last := |events| - 1;
      assert events[..last][..k] == events[..k];
      RunExtends(cfg, supply, events[..last], k);
      StepExtends(cfg, Run(cfg, supply, events[..last]), events[last]);
    }
  }

  /**
   * No leaf is spent twice: of two successful spends of one index, by transfer or withdrawal
   * and under whatever window roots, at least one does not happen, or the run exhibits a flaw.
   */
  lemma LeafSpentOnce(cfg: Config, supply: nat, events: seq<Event>, i: nat, j: nat, leaf: nat)
    requires supply < U128_MODULUS && i < j < |events|
    ensures SpendsLeaf(cfg, Run(cfg, supply, events[..i]), events[i], leaf)
            && SpendsLeaf(cfg, Run(cfg, supply, events[..j]), events[j], leaf)
            ==> ExhibitsFlaw(cfg, Run(cfg, supply, events).history)
  {
    var h := Run(cfg, supply, events).history;
    SoundOrFlaw(cfg, h);
    if !ExhibitsFlaw(cfg, h) && SpendsLeaf(cfg, Run(cfg, supply, events[..i]), events[i], leaf)
       && SpendsLeaf(cfg, Run(cfg, supply, events[..j]), events[j], leaf) {
      SpendAt(cfg, supply, events, i, leaf);
      SpendAt(cfg, supply, events, j, leaf);
      SpentStays(cfg, supply, events, i + 1, j, leaf);
      assert false;
    }
  }

  lemma SpentStays(cfg: Config, supply: nat, events: seq<Event>, i: nat, j: nat, leaf: nat)
    requires i <= j <= |events| && leaf in Run(cfg, supply, events[..i]).history.spent
    ensures leaf in Run(cfg, supply, events[..j]).history.spent
  {
    assert events[..j][..i] == events[..i];
    RunExtends(cfg, supply, events[..j], i);
  }

  lemma SpendAt(cfg: Config, supply: nat, events: seq<Event>, i: nat, leaf: nat)
    requires supply < U128_MODULUS && i < |events| && Sound(cfg, Run(cfg, supply, events).history)
    requires SpendsLeaf(cfg, Run(cfg, supply, events[..i]), events[i], leaf)
    ensures leaf !in Run(cfg, supply, events[..i]).history.spent
    ensures leaf in Run(cfg, supply, events[..i + 1]).history.spent
  {
    RunExtends(cfg, supply, events, i);
    RunExtends(cfg, supply, events, i + 1);
    SoundEarlier(cfg, Run(cfg, supply, events[..i]).history, Run(cfg, supply, events).history);
    SoundEarlier(cfg, Run(cfg, supply, events[..i + 1]).history, Run(cfg, supply, events).history);
    assert events[..i + 1][..i] == events[..i];
    SoundRun(cfg, supply, events[..i]);
    match events[i]
    case SubmitTransfer(pub, wit) => TransferRecorded(cfg, Run(cfg, supply, events[..i]), pub, wit);
    case SubmitWithdraw(args, wit) => WithdrawRecorded(cfg, Run(cfg, supply, events[..i]), args, wit);
    case _ =>
  }

  /** A transfer that succeeds spends two different leaves. */
  lemma TransferInputsDiffer(cfg: Config, supply: nat, events: seq<Event>, pub: TransferPublic, wit: TransferWitness)
    requires supply < U128_MODULUS
    requires Transfer(cfg, Run(cfg, supply, events).pool, pub, TransferSat(cfg.hs, pub, wit)).1.Done?
    ensures wit.in0.leafIndex != wit.in1.leafIndex
            || ExhibitsFlaw(cfg, StepTransfer(cfg, Run(cfg, supply, events), pub, wit).history)
  {
    var w := Run(cfg, supply, events);
    var after := StepTransfer(cfg, w, pub, wit);
    SoundOrFlaw(cfg, after.history);
    if Sound(cfg, after.history) {
      StepExtends(cfg, w, SubmitTransfer(pub, wit));
      SoundEarlier(cfg, w.history, after.history);
      SoundRun(cfg, supply, events);
      AcceptedTransfer(cfg, w.pool, pub, wit);
      TransferNotesKeep(cfg, w.pool, w.history, pub, wit);
    }
  }

  // ----- window roots, without any assumption on the hash -----

  /** In every reachable state every root in the window is the root of a prefix of the leaf list. */
  lemma {:induction false} RootsArePrefixRoots(cfg: Config, supply: nat, events: seq<Event>)
    ensures var w := Run(cfg, supply, events);
            RootsKnown(cfg, w.pool, w.history) && |w.pool.leaves| <= Pow(2, TREE_DEPTH)
  {
    if events == [] {
      Widths();
    } else {
      var init, e := events[..|events| - 1], events[|events| - 1];
      RootsArePrefixRoots(cfg, supply, init);
      StepKeepsRoots(cfg, Run(cfg, supply, init), e);
    }
  }

  ghost predicate RootsFine(cfg: Config, w: World) {
    RootsKnown(cfg, w.pool, w.history) && |w.pool.leaves| <= Pow(2, TREE_DEPTH)
  }

  lemma StepKeepsRoots(cfg: Config, w: World, e: Event)
    requires RootsFine(cfg, w)
    ensures RootsFine(cfg, Step(cfg, w, e))
  {
    match e
    case Receive(i, wit) => ReceiveKeepsRoots(cfg, w, i, wit);
    case SubmitTransfer(pub, wit) => TransferKeepsRoots(cfg, w, pub, wit);
    case _ =>
      var w' := Step(cfg, w, e);
      RootsMonotone(cfg, w.pool, w.history, w'.pool, w'.history);
  }

  lemma ReceiveKeepsRoots(cfg: Config, w: World, i: nat, wit: DepositWitness)
    requires RootsFine(cfg, w)
    ensures RootsFine(cfg, StepReceive(cfg, w, i, wit))
  {
    if i < |w.incoming| && w.incoming[i].stage.Held? && CallOnTransfer(cfg, w, w.incoming[i], wit).1.Done? {
      AcceptedCall(cfg, w, w.incoming[i], wit);
      AppendKeepsRoots(cfg, w.pool, w.history, w.history, [DepositOpening(DepositInputs(w.incoming[i].msg.value), wit)]);
    }
  }

  lemma TransferKeepsRoots(cfg: Config, w: World, pub: TransferPublic, wit: TransferWitness)
    requires RootsFine(cfg, w)
    ensures RootsFine(cfg, StepTransfer(cfg, w, pub, wit))
  {
    if Transfer(cfg, w.pool, pub, TransferSat(cfg.hs, pub, wit)).1.Done? {
      AcceptedTransfer(cfg, w.pool, pub, wit);
      AppendKeepsRoots(cfg, SpendNullifier(SpendNullifier(w.pool, pub.nullifier0), pub.nullifier1), w.history,
        RecordSpend(cfg, RecordSpend(cfg, w.history, wit.spendingKey, wit.in0), wit.spendingKey, wit.in1),
        [wit.out0, wit.out1]);
    }
  }

  /**
   * An inclusion proof under any root in the window of a reachable state proves that the
   * commitment is the leaf at that index of the current tree, or the pairs hashed break.
   */
  lemma WindowProofMeansLeaf(
    cfg: Config, supply: nat, events: seq<Event>, root: Fe, nullifier: Fe, key: Fe, note: SpentNote)
    requires InWindow(Run(cfg, supply, events).pool, root) && Spends(cfg.hs, root, nullifier, key, note)
    ensures var w := Run(cfg, supply, events);
            || ExhibitsFlaw(cfg, RecordSpend(cfg, w.history, key, note))
            || (note.leafIndex < |w.pool.leaves| && w.pool.leaves[note.leafIndex] == Commit(cfg.hs, note.opening))
  {
    var w := Run(cfg, supply, events);
    RootsArePrefixRoots(cfg, supply, events);
    SoundOrFlaw(cfg, RecordSpend(cfg, w.history, key, note));
    if Sound(cfg, RecordSpend(cfg, w.history, key, note)) {
      WindowInclusion(cfg, w.pool, w.history, root, nullifier, key, note);
    }
  }

  /** No leaf of a reachable state is the zero that pads the tree, or one of the run's openings commits to it. */
  lemma LeavesNonZero(cfg: Config, supply: nat, events: seq<Event>)
    requires supply < U128_MODULUS
    ensures var w := Run(cfg, supply, events); ExhibitsFlaw(cfg, w.history) || 0 !in w.pool.leaves
  {
    var w := Run(cfg, supply, events);
    SoundOrFlaw(cfg, w.history);
    if !ExhibitsFlaw(cfg, w.history) {
      SoundRun(cfg, supply, events);
      forall i | 0 <= i < |w.pool.leaves|
        ensures w.pool.leaves[i] != 0
      {
        assert LeafOpened(cfg, w.pool, w.history, i);
        SameOpening(cfg.hs, w.history.witnessed, w.history.openings[i], w.history.openings[i]);
      }
    }
  }

  /** The newest root is the root of all leaves. */
  ghost predicate NewestRoot(cfg: Config, s: PoolState) {
    if s.leaves == [] then s.pushed == []
    else |s.pushed| > 0 && s.pushed[|s.pushed| - 1] == Root(cfg.hs.p2, s.leaves, TREE_DEPTH)
  }

  /** Only deposits and transfers touch the tree or the window. */
  lemma OthersKeepTree(cfg: Config, w: World, e: Event)
    requires !e.Receive? && !e.SubmitTransfer?
    ensures Step(cfg, w, e).pool.leaves == w.pool.leaves && Step(cfg, w, e).pool.pushed == w.pool.pushed
  {
  }

  lemma StepKeepsNewest(cfg: Config, w: World, e: Event)
    requires NewestRoot(cfg, w.pool)
    ensures NewestRoot(cfg, Step(cfg, w, e).pool)
  {
    match e
    case Receive(i, wit) => ReceiveKeepsNewest(cfg, w, i, wit);
    case SubmitTransfer(pub, wit) => TransferKeepsNewest(cfg, w, pub, wit);
    case _ => OthersKeepTree(cfg, w, e);
  }

  lemma ReceiveKeepsNewest(cfg: Config, w: World, i: nat, wit: DepositWitness)
    requires NewestRoot(cfg, w.pool)
    ensures NewestRoot(cfg, StepReceive(cfg, w, i, wit).pool)
  {
  }

  lemma TransferKeepsNewest(cfg: Config, w: World, pub: TransferPublic, wit: TransferWitness)
    requires NewestRoot(cfg, w.pool)
    ensures NewestRoot(cfg, StepTransfer(cfg, w, pub, wit).pool)
  {
  }

  /** In every reachable state with a leaf the current root is acceptable. */
  lemma {:induction false} CurrentRootInWindow(cfg: Config, supply: nat, events: seq<Event>)
    ensures var s := Run(cfg, supply, events).pool;
            NewestRoot(cfg, s) && (s.leaves != [] ==> InWindow(s, Root(cfg.hs.p2, s.leaves, TREE_DEPTH)))
  {
    if events != [] {
      var init := events[..|events| - 1];
      CurrentRootInWindow(cfg, supply, init);
      StepKeepsNewest(cfg, Run(cfg, supply, init), events[|events| - 1]);
    }
    var s := Run(cfg, supply, events).pool;
    if s.leaves != [] {
      var recent := Recent(s.pushed, ROOTS_WINDOW);
      assert recent[|recent| - 1] == s.pushed[|s.pushed| - 1];
    }
  }

  // ----- how long a root stays acceptable -----

  /** A step pushes at most one root, also when it inserts two leaves, and rewrites none. */
  lemma StepPushes(cfg: Config, w: World, e: Event)
    ensures w.pool.pushed <= Step(cfg, w, e).pool.pushed
    ensures |Step(cfg, w, e).pool.pushed| <= |w.pool.pushed| + 1
  {
    if !e.Receive? && !e.SubmitTransfer? {
      OthersKeepTree(cfg, w, e);
    }
  }

  /** Nor is a leaf ever rewritten. */
  lemma StepAppends(cfg: Config, w: World, e: Event)
    ensures w.pool.leaves <= Step(cfg, w, e).pool.leaves
  {
    if !e.Receive? && !e.SubmitTransfer? {
      OthersKeepTree(cfg, w, e);
    }
  }

  lemma {:induction false} RunGrows(cfg: Config, supply: nat, events: seq<Event>, k: nat)
    requires k <= |events|
    ensures Run(cfg, supply, events[..k]).pool.pushed <= Run(cfg, supply, events).pool.pushed
    ensures Run(cfg, supply, events[..k]).pool.leaves <= Run(cfg, supply, events).pool.leaves
  {
    if k == |events| {
      assert events[..k] == events;
    } else {
      var last := |events| - 1;
      assert events[..last][..k] == events[..k];
      RunGrows(cfg, supply, events[..last], k);
      StepPushes(cfg, Run(cfg, supply, events[..last]), events[last]);
      StepAppends(cfg, Run(cfg, supply, events[..last]), events[last]);
    }
  }

  /** What follows decides whether the newest of the roots pushed `before` is still accepted. */
  predicate StillKnown(before: seq<Fe>, now: seq<Fe>) {
    && 0 < |before| <= |now|
    && (|now| - |before| <= 29 || before[|before| - 1] in Recent(now[|before|..], ROOTS_WINDOW))
  }

  /**
   * A root that was current at some point of a run is still accepted while at most 29 tree
   * updates have succeeded since, and afterwards only if it was pushed again.
   */
  lemma RootLifetime(cfg: Config, supply: nat, events: seq<Event>, k: nat)
    requires k <= |events| && |Run(cfg, supply, events[..k]).pool.pushed| > 0
    ensures var before, now := Run(cfg, supply, events[..k]).pool.pushed, Run(cfg, supply, events).pool.pushed;
            |now| >= |before|
            && (InWindow(Run(cfg, supply, events).pool, before[|before| - 1]) <==> StillKnown(before, now))
  {
    RunGrows(cfg, supply, events, k);
    KnownExactly(Run(cfg, supply, events[..k]).pool.pushed, Run(cfg, supply, events).pool.pushed);
  }

  lemma KnownExactly(before: seq<Fe>, now: seq<Fe>)
    requires 0 < |before| && before <= now
    ensures before[|before| - 1] in Recent(now, ROOTS_WINDOW) <==> StillKnown(before, now)
  {
    var older, root := before[..|before| - 1], before[|before| - 1];
    assert now == older + [root] + now[|before|..];
    RecentLifetime(older, root, now[|before|..], ROOTS_WINDOW);
  }

  // ----- roots never repeat -----

  /** Every push came with more leaves than the one before. */
  ghost predicate SizesRise(s: PoolState, h: History) {
    && |h.sizes| == |s.pushed|
    && (forall i :: 0 <= i < |h.sizes| ==> h.sizes[i] <= |s.leaves|)
    && forall i, j :: 0 <= i < j < |h.sizes| ==> h.sizes[i] < h.sizes[j]
  }

  lemma StepRises(cfg: Config, w: World, e: Event)
    requires SizesRise(w.pool, w.history)
    ensures SizesRise(Step(cfg, w, e).pool, Step(cfg, w, e).history)
  {
    if e.Receive? {
      ReceiveRises(cfg, w, e.index, e.deposit);
    } else if e.SubmitTransfer? {
      TransferRises(cfg, w, e.pub, e.transfer);
    } else {
      OthersKeepTree(cfg, w, e);
      OthersKeepSizes(cfg, w, e);
    }
  }

  lemma OthersKeepSizes(cfg: Config, w: World, e: Event)
    requires !e.Receive? && !e.SubmitTransfer?
    ensures Step(cfg, w, e).history.sizes == w.history.sizes
  {
  }

  lemma ReceiveRises(cfg: Config, w: World, i: nat, wit: DepositWitness)
    requires SizesRise(w.pool, w.history)
    ensures var w' := StepReceive(cfg, w, i, wit); SizesRise(w'.pool, w'.history)
  {
  }

  lemma TransferRises(cfg: Config, w: World, pub: TransferPublic, wit: TransferWitness)
    requires SizesRise(w.pool, w.history)
    ensures var w' := StepTransfer(cfg, w, pub, wit); SizesRise(w'.pool, w'.history)
  {
  }

  lemma {:induction false} RunRises(cfg: Config, supply: nat, events: seq<Event>)
    ensures var w := Run(cfg, supply, events); SizesRise(w.pool, w.history)
  {
    if events != [] {
      RunRises(cfg, supply, events[..|events| - 1]);
      StepRises(cfg, Run(cfg, supply, events[..|events| - 1]), events[|events| - 1]);
    }
  }

  /** In every reachable state any two pushed roots differ, or the run exhibits a flaw. */
  lemma RootsNeverRepeat(cfg: Config, supply: nat, events: seq<Event>, i: nat, j: nat)
    requires supply < U128_MODULUS && i < j < |Run(cfg, supply, events).pool.pushed|
    ensures var w := Run(cfg, supply, events); ExhibitsFlaw(cfg, w.history) || w.pool.pushed[i] != w.pool.pushed[j]
  {
    var w := Run(cfg, supply, events);
    SoundOrFlaw(cfg, w.history);
    if Sound(cfg, w.history) {
      RunRises(cfg, supply, events);
      RootsArePrefixRoots(cfg, supply, events);
      LeavesNonZero(cfg, supply, events);
      PrefixRootsDiffer(cfg, w.pool, w.history, i, j);
    }
  }

  lemma PrefixRootsDiffer(cfg: Config, s: PoolState, h: History, i: nat, j: nat)
    requires RootsKnown(cfg, s, h) && SizesRise(s, h) && i < j < |s.pushed| && 0 !in s.leaves
    requires CollisionFree(cfg.hs.p2, h.pairs) && |s.leaves| <= Pow(2, TREE_DEPTH)
    ensures s.pushed[i] != s.pushed[j]
  {
    assert RootOfPrefix(cfg, s.leaves, s.pushed[i], h.sizes[i], h.pairs);
    assert RootOfPrefix(cfg, s.leaves, s.pushed[j], h.sizes[j], h.pairs);
    var xs, ys := s.leaves[..h.sizes[i]], s.leaves[..h.sizes[j]];
    FewerPairs(cfg.hs.p2, Pairs(cfg.hs.p2, xs, TREE_DEPTH, 0) + Pairs(cfg.hs.p2, ys, TREE_DEPTH, 0), h.pairs);
    RootBindsLeaves(cfg.hs.p2, xs, ys, TREE_DEPTH);
    if SamePadded(xs, ys) {
      SamePaddedNonZero(xs, ys);
    }
  }

  /** At most 29 pushes have followed. */
  predicate Recently(before: seq<Fe>, now: seq<Fe>) {
    0 < |before| <= |now| < |before| + ROOTS_WINDOW
  }

  /** Without repetitions only the number of later pushes counts. */
  lemma KnownIsRecent(before: seq<Fe>, now: seq<Fe>)
    requires 0 < |before| && before <= now
    requires forall j :: |before| <= j < |now| ==> now[j] != before[|before| - 1]
    ensures StillKnown(before, now) <==> Recently(before, now)
  {
    RecentIsPart(now[|before|..], ROOTS_WINDOW);
  }

  /** So a root is accepted exactly while at most 29 tree updates have followed, or the run exhibits a flaw. */
  lemma RootLifetimeExactly(cfg: Config, supply: nat, events: seq<Event>, k: nat)
    requires supply < U128_MODULUS && k <= |events| && |Run(cfg, supply, events[..k]).pool.pushed| > 0
    ensures var before, w := Run(cfg, supply, events[..k]).pool.pushed, Run(cfg, supply, events);
            || ExhibitsFlaw(cfg, w.history)
            || (InWindow(w.pool, before[|before| - 1]) <==> Recently(before, w.pool.pushed))
  {
    var before, w := Run(cfg, supply, events[..k]).pool.pushed, Run(cfg, supply, events);
    RunGrows(cfg, supply, events, k);
    RootLifetime(cfg, supply, events, k);
    if !ExhibitsFlaw(cfg, w.history) {
      forall j | |before| <= j < |w.pool.pushed|
        ensures w.pool.pushed[j] != before[|before| - 1]
      {
        RootsNeverRepeat(cfg, supply, events, |before| - 1, j);
      }
      KnownIsRecent(before, w.pool.pushed);
    }
  }

  lemma RecentIsPart(pushed: seq<Fe>, capacity: nat)
    ensures forall root :: root in Recent(pushed, capacity) ==> root in pushed
  {
  }
}
