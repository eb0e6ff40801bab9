/** Getting out: what the owner of a note can always do, and the one recipient who gains nothing. */
module Exit {
  import opened Wrappers
  import opened Arithmetic
  import opened Limbs
  import opened Residues
  import opened Merkle
  import opened Inclusion
  import opened Circuits
  import opened AccountField
  import opened Pool
  import opened NoteHistory
  import opened Sums
  import opened Ledger
  import opened LedgerInvariant
  import opened Safety
  import opened WalletModel
  import opened Availability
  import opened Delivery
  import opened EndToEnd

  // ----- the withdrawal -----

  /** Where a withdrawal goes: recipient, relayer and fee. */
  datatype Terms = Terms(recipient: AccountId, relayer: AccountId, fee: u128, viewCtHash: Fe)

  function PathOf(h: Hash2, leaves: seq<Fe>, i: nat): (path: seq<Fe>)
    ensures |path| == TREE_DEPTH && SiblingPath(h, leaves, i, path)
  {
    seq(TREE_DEPTH, d requires 0 <= d < TREE_DEPTH => Node(h, leaves, d, Sibling(Shr(i, d))))
  }

  /** The request under the current root, with the note's own path. */
  function ExitRequest(cfg: Config, leaves: seq<Fe>, n: DiscoveredNote, t: Terms): WithdrawRequest {
    WithdrawRequest(n.note.amount, HashBytes(cfg.hs.p2, t.recipient), HashBytes(cfg.hs.p2, t.relayer), t.fee,
                    Root(cfg.hs.p2, leaves, TREE_DEPTH), PathOf(cfg.hs.p2, leaves, ToField(n.leafIndex)), t.viewCtHash)
  }

  function ExitCall(cfg: Config, leaves: seq<Fe>, key: Fe, n: DiscoveredNote, t: Terms): WithdrawArgs
    requires 0 <= n.note.amount < U128_MODULUS
  {
    WithdrawArgs(Root(cfg.hs.p2, leaves, TREE_DEPTH), Nullifier(cfg.hs, key, n.commitment, ToField(n.leafIndex)), t.recipient,
                 n.note.amount, n.note.auditor, t.viewCtHash, t.relayer, t.fee)
  }

  function ExitWitness(cfg: Config, leaves: seq<Fe>, key: Fe, n: DiscoveredNote, t: Terms): WithdrawWitness {
    var i, path := ToField(n.leafIndex), PathOf(cfg.hs.p2, leaves, ToField(n.leafIndex));
    var bits := LowBits(i, TREE_DEPTH);
    WithdrawWitnessOf(key, n, path, bits, Signals(cfg.hs.p2, n.commitment, bits, path), t.viewCtHash)
  }

  /** A note its owner can take out: held, unspent, of less than 2^64, and worth its fee. */
  ghost predicate Exitable(cfg: Config, w: World, key: Fe, n: DiscoveredNote, t: Terms) {
    && !w.pool.paused && Scanned(cfg.hs, n) && Owned(cfg.hs, key, w.pool.leaves, n)
    && ToField(n.leafIndex) !in w.history.spent
    && t.fee <= n.note.amount < 0x1_0000_0000_0000_0000
  }

  lemma ExitCarries(cfg: Config, w: World, key: Fe, n: DiscoveredNote, t: Terms)
    requires Exitable(cfg, w, key, n, t)
    ensures Carries(cfg, key, n, ExitRequest(cfg, w.pool.leaves, n, t), ExitCall(cfg, w.pool.leaves, key, n, t))
  {
    Widths();
    ModSmall(n.note.amount, P);
    ModSmall(t.fee, P);
  }

  lemma ExitSatisfies(cfg: Config, w: World, key: Fe, n: DiscoveredNote, t: Terms)
    requires Exitable(cfg, w, key, n, t)
    ensures WithdrawSat(cfg.hs, WithdrawInputs(cfg, ExitCall(cfg, w.pool.leaves, key, n, t)), ExitWitness(cfg, w.pool.leaves, key, n, t))
  {
    var call := ExitCall(cfg, w.pool.leaves, key, n, t);
    Widths();
    ModSmall(n.note.amount, P);
    U64GeqExact(call.amount, call.relayerFee);
    ExitIncluded(cfg, w.pool.leaves, n);
  }

  lemma ExitIncluded(cfg: Config, leaves: seq<Fe>, n: DiscoveredNote)
    requires ToField(n.leafIndex) < Pow(2, TREE_DEPTH) && Leaf(leaves, ToField(n.leafIndex)) == n.commitment
    ensures var i, path := ToField(n.leafIndex), PathOf(cfg.hs.p2, leaves, ToField(n.leafIndex));
            var bits := LowBits(i, TREE_DEPTH);
            && Num2Bits(TREE_DEPTH, i, bits)
            && MerkleInclusion(cfg.hs.p2, n.commitment, Root(cfg.hs.p2, leaves, TREE_DEPTH), bits, path,
                               Signals(cfg.hs.p2, n.commitment, bits, path))
  {
    var i, path := ToField(n.leafIndex), PathOf(cfg.hs.p2, leaves, ToField(n.leafIndex));
    var bits := LowBits(i, TREE_DEPTH);
    Widths();
    Num2BitsExact(TREE_DEPTH, i, bits);
    SiblingsIncluded(cfg.hs.p2, leaves, i, TREE_DEPTH, path);
    SignalsForced(cfg.hs.p2, n.commitment, Root(cfg.hs.p2, leaves, TREE_DEPTH), bits, path,
                  Ancestors(cfg.hs.p2, leaves, i, TREE_DEPTH));
  }

  /** The hash inputs of the run and of this withdrawal. */
  ghost function WithExit(cfg: Config, w: World, key: Fe, n: DiscoveredNote): History {
    WithInput(cfg, w.history, w.pool.leaves, key, n, PathOf(cfg.hs.p2, w.pool.leaves, ToField(n.leafIndex)))
  }

  ghost function ExitEvent(cfg: Config, w: World, key: Fe, n: DiscoveredNote, t: Terms): Event
    requires 0 <= n.note.amount < U128_MODULUS
  {
    SubmitWithdraw(ExitCall(cfg, w.pool.leaves, key, n, t), ExitWitness(cfg, w.pool.leaves, key, n, t))
  }

  lemma ExitAccepted(cfg: Config, supply: nat, events: seq<Event>, key: Fe, n: DiscoveredNote, t: Terms)
    requires supply < U128_MODULUS && Exitable(cfg, Run(cfg, supply, events), key, n, t)
    requires Sound(cfg, WithExit(cfg, Run(cfg, supply, events), key, n))
    ensures var w := Run(cfg, supply, events);
            Withdraw(w.pool, ExitCall(cfg, w.pool.leaves, key, n, t), true).1.Done?
  {
    var w := Run(cfg, supply, events);
    var req, call := ExitRequest(cfg, w.pool.leaves, n, t), ExitCall(cfg, w.pool.leaves, key, n, t);
    assert events[..|events|] == events;
    ExitCarries(cfg, w, key, n, t);
    SoundOrFlaw(cfg, WithExit(cfg, w, key, n));
    WithdrawAcceptedExactly(cfg, supply, events, |events|, key, n, req, call);
    ExitReady(cfg, supply, events, key, n, t);
  }

  lemma ExitReady(cfg: Config, supply: nat, events: seq<Event>, key: Fe, n: DiscoveredNote, t: Terms)
    requires supply < U128_MODULUS && Exitable(cfg, Run(cfg, supply, events), key, n, t)
    requires Sound(cfg, WithExit(cfg, Run(cfg, supply, events), key, n))
    ensures var w := Run(cfg, supply, events);
            WithdrawReady(cfg, w.pool, w, key, n, ExitRequest(cfg, w.pool.leaves, n, t), ExitCall(cfg, w.pool.leaves, key, n, t))
  {
    assert events[..|events|] == events;
    OwnedEarlier(cfg, supply, events, |events|, key, n, WithExit(cfg, Run(cfg, supply, events), key, n));
    CurrentRootInWindow(cfg, supply, events);
    Widths();
  }

  /** What the accepted withdrawal does. */
  ghost predicate Promises(cfg: Config, w: World, w': World, key: Fe, n: DiscoveredNote, t: Terms)
    requires 0 <= n.note.amount < U128_MODULUS && t.fee <= n.note.amount
  {
    var payouts := ToPayouts(Payouts(ExitCall(cfg, w.pool.leaves, key, n, t)));
    && w'.payouts == w.payouts + payouts && w'.promised == w.promised + ToPayments(payouts)
    && w'.delivered == w.delivered
  }

  lemma ExitPromises(cfg: Config, w: World, key: Fe, n: DiscoveredNote, t: Terms)
    requires Exitable(cfg, w, key, n, t) && Withdraw(w.pool, ExitCall(cfg, w.pool.leaves, key, n, t), true).1.Done?
    ensures Promises(cfg, w, Step(cfg, w, ExitEvent(cfg, w, key, n, t)), key, n, t)
  {
    ExitSatisfies(cfg, w, key, n, t);
  }

  lemma ExitStep(cfg: Config, supply: nat, events: seq<Event>, key: Fe, n: DiscoveredNote, t: Terms)
    requires supply < U128_MODULUS && Exitable(cfg, Run(cfg, supply, events), key, n, t)
    requires Sound(cfg, WithExit(cfg, Run(cfg, supply, events), key, n))
    ensures var w := Run(cfg, supply, events);
            var w' := Step(cfg, w, ExitEvent(cfg, w, key, n, t));
            Promises(cfg, w, w', key, n, t) && Inv(cfg, w')
  {
    var w := Run(cfg, supply, events);
    ExitAccepted(cfg, supply, events, key, n, t);
    ExitPromises(cfg, w, key, n, t);
    ExitSound(cfg, w, key, n, t);
    SoundEarlier(cfg, w.history, WithExit(cfg, w, key, n));
    SoundRun(cfg, supply, events);
    StepKeeps(cfg, w, ExitEvent(cfg, w, key, n, t));
  }

  lemma ExitSound(cfg: Config, w: World, key: Fe, n: DiscoveredNote, t: Terms)
    requires Scanned(cfg.hs, n) && 0 <= n.note.amount < U128_MODULUS
    requires Sound(cfg, WithExit(cfg, w, key, n))
    ensures Sound(cfg, Step(cfg, w, ExitEvent(cfg, w, key, n, t)).history)
  {
    var after := RecordSpend(cfg, w.history, key, ExitWitness(cfg, w.pool.leaves, key, n, t).note);
    ExitAddsOnly(cfg, w, key, n, t);
    SoundEarlier(cfg, after, WithExit(cfg, w, key, n).(spent := after.spent));
    SoundEarlier(cfg, w.history, WithExit(cfg, w, key, n));
    ExitRecords(cfg, w, key, n, t);
  }

  lemma ExitAddsOnly(cfg: Config, w: World, key: Fe, n: DiscoveredNote, t: Terms)
    requires Scanned(cfg.hs, n)
    ensures var after := RecordSpend(cfg, w.history, key, ExitWitness(cfg, w.pool.leaves, key, n, t).note);
            after.pairs <= WithExit(cfg, w, key, n).pairs && after.witnessed <= WithExit(cfg, w, key, n).witnessed
  {
  }

  lemma ExitRecords(cfg: Config, w: World, key: Fe, n: DiscoveredNote, t: Terms)
    requires 0 <= n.note.amount < U128_MODULUS
    ensures var h := Step(cfg, w, ExitEvent(cfg, w, key, n, t)).history;
            h == w.history || h == RecordSpend(cfg, w.history, key, ExitWitness(cfg, w.pool.leaves, key, n, t).note)
  {
  }

  // ----- and the payout -----

  /** A scheduled payout to anyone but the pool can be carried through at once. */
  lemma PayoutDelivered(cfg: Config, w: World, i: nat)
    requires Inv(cfg, w) && i < |w.payouts| && w.payouts[i].phase.Scheduled? && w.payouts[i].account != cfg.poolAccount
    ensures var done := StepComplete(StepExecute(cfg, StepStart(w, i), i, true), i);
            done.delivered == w.delivered + [Payment(w.payouts[i].account, w.payouts[i].amount)]
  {
    DeliveredCovered(w);
    SumAtLeast(Pending, w.payouts, i);
  }

  lemma FirstPayout(args: WithdrawArgs)
    requires args.relayerFee <= args.amount
    ensures var payouts := ToPayouts(Payouts(args));
            |payouts| > 0 && payouts[0] == Payout(args.recipient, args.amount - args.relayerFee, Scheduled)
  {
  }

  lemma ExitDelivered(cfg: Config, w: World, w': World, key: Fe, n: DiscoveredNote, t: Terms)
    requires 0 <= n.note.amount < U128_MODULUS && t.fee <= n.note.amount && t.recipient != cfg.poolAccount
    requires Promises(cfg, w, w', key, n, t) && Inv(cfg, w')
    ensures var i := |w.payouts|;
            StepComplete(StepExecute(cfg, StepStart(w', i), i, true), i).delivered
            == w.delivered + [Payment(t.recipient, n.note.amount - t.fee)]
  {
    FirstPayout(ExitCall(cfg, w.pool.leaves, key, n, t));
    PayoutDelivered(cfg, w', |w.payouts|);
  }

  /** Withdraw, pay, execute, call back. */
  ghost function ExitChain(cfg: Config, w: World, key: Fe, n: DiscoveredNote, t: Terms): seq<Event>
    requires 0 <= n.note.amount < U128_MODULUS
  {
    var i := |w.payouts|;
    [ExitEvent(cfg, w, key, n, t), StartPayout(i), ExecutePayout(i, true), CompletePayout(i)]
  }

  /**
   * In every reachable state that is not paused the owner of an unspent note below 2^64 can have
   * it delivered, less the fee, to any account but the pool's, with these four events; or the
   * hash inputs of the run and the owner break.
   */
  lemma OwnerCanExit(cfg: Config, supply: nat, events: seq<Event>, key: Fe, n: DiscoveredNote, t: Terms)
    requires supply < U128_MODULUS && Exitable(cfg, Run(cfg, supply, events), key, n, t) && t.recipient != cfg.poolAccount
    ensures var w := Run(cfg, supply, events);
            || ExhibitsFlaw(cfg, WithExit(cfg, w, key, n))
            || Run(cfg, supply, events + ExitChain(cfg, w, key, n, t)).delivered
               == w.delivered + [Payment(t.recipient, n.note.amount - t.fee)]
  {
    var w := Run(cfg, supply, events);
    SoundOrFlaw(cfg, WithExit(cfg, w, key, n));
    if Sound(cfg, WithExit(cfg, w, key, n)) {
      ExitStep(cfg, supply, events, key, n, t);
      ExitDelivered(cfg, w, Step(cfg, w, ExitEvent(cfg, w, key, n, t)), key, n, t);
      FourSteps(cfg, w, key, n, t);
      RunOn(cfg, supply, events, ExitChain(cfg, w, key, n, t));
    }
  }

  lemma FourSteps(cfg: Config, w: World, key: Fe, n: DiscoveredNote, t: Terms)
    requires 0 <= n.note.amount < U128_MODULUS
    ensures var i, w' := |w.payouts|, Step(cfg, w, ExitEvent(cfg, w, key, n, t));
            RunFrom(cfg, w, ExitChain(cfg, w, key, n, t)) == StepComplete(StepExecute(cfg, StepStart(w', i), i, true), i)
  {
    var i, w' := |w.payouts|, Step(cfg, w, ExitEvent(cfg, w, key, n, t));
    var chain := ExitChain(cfg, w, key, n, t);
    assert chain[1..] == [StartPayout(i), ExecutePayout(i, true), CompletePayout(i)];
    ThreeReceipts(cfg, w', i);
  }

  lemma ThreeReceipts(cfg: Config, w: World, i: nat)
    ensures RunFrom(cfg, w, [StartPayout(i), ExecutePayout(i, true), CompletePayout(i)])
            == StepComplete(StepExecute(cfg, StepStart(w, i), i, true), i)
  {
    var w1 := StepStart(w, i);
    var w2 := StepExecute(cfg, w1, i, true);
    assert RunFrom(cfg, w2, [CompletePayout(i)]) == StepComplete(w2, i);
    assert [ExecutePayout(i, true), CompletePayout(i)][1..] == [CompletePayout(i)];
    assert [StartPayout(i), ExecutePayout(i, true), CompletePayout(i)][1..] == [ExecutePayout(i, true), CompletePayout(i)];
  }

  // ----- the pool as recipient -----

  lemma StepPromises(cfg: Config, w: World, e: Event)
    ensures w.promised <= Step(cfg, w, e).promised
  {
  }

  lemma {:induction false} RunPromises(cfg: Config, supply: nat, events: seq<Event>, later: seq<Event>)
    ensures Run(cfg, supply, events).promised <= Run(cfg, supply, events + later).promised
  {
    if later == [] {
      assert events + [] == events;
    } else {
      var last := |later| - 1;
      assert (events + later)[..|events + later| - 1] == events + later[..last];
      RunPromises(cfg, supply, events, later[..last]);
      StepPromises(cfg, Run(cfg, supply, events + later[..last]), later[last]);
    }
  }

  lemma PrefixSums(account: AccountId, few: seq<Payment>, many: seq<Payment>)
    requires few <= many
    ensures SumBy(PaidTo(account), few) <= SumBy(PaidTo(account), many)
  {
    assert many == few + many[|few|..];
    SumAppend(PaidTo(account), few, many[|few|..]);
  }

  lemma PromisedAtLeast(account: AccountId, s: seq<Payment>, more: seq<Payment>)
    requires more != [] && more[0].account == account
    ensures SumBy(PaidTo(account), s + more) >= more[0].amount
  {
    SumAppend(PaidTo(account), s, more);
    SumAtLeast(PaidTo(account), more, 0);
  }

  /**
   * The exception: the owner can name the pool itself as recipient. The call is accepted just the
   * same, and the amount less the fee is then owed to the pool in every continuation, for good; or
   * hash inputs break.
   */
  lemma SelfPayoutForGood(
    cfg: Config, supply: nat, events: seq<Event>, key: Fe, n: DiscoveredNote, t: Terms, later: seq<Event>)
    requires supply < U128_MODULUS && Exitable(cfg, Run(cfg, supply, events), key, n, t) && t.recipient == cfg.poolAccount
    ensures var w := Run(cfg, supply, events);
            var w' := Run(cfg, supply, events + [ExitEvent(cfg, w, key, n, t)] + later);
            || ExhibitsFlaw(cfg, WithExit(cfg, w, key, n)) || ExhibitsFlaw(cfg, w'.history)
            || Owed(w', cfg.poolAccount) >= n.note.amount - t.fee
  {
    var w := Run(cfg, supply, events);
    var more := events + [ExitEvent(cfg, w, key, n, t)];
    assert more[..|more| - 1] == events;
    SoundOrFlaw(cfg, WithExit(cfg, w, key, n));
    if Sound(cfg, WithExit(cfg, w, key, n)) {
      ExitStep(cfg, supply, events, key, n, t);
      var payments := ToPayments(ToPayouts(Payouts(ExitCall(cfg, w.pool.leaves, key, n, t))));
      PromisedAtLeast(cfg.poolAccount, w.promised, payments);
      RunPromises(cfg, supply, more, later);
      PrefixSums(cfg.poolAccount, Run(cfg, supply, more).promised, Run(cfg, supply, more + later).promised);
      PoolNeverPaid(cfg, supply, more + later);
    }
  }

  /** Such runs exist: a deposit into an empty pool and its withdrawal to the pool. */
  lemma SelfPayoutReached(cfg: Config, supply: nat, key: Fe, note: Note, viewCtHash: Fe, relayer: AccountId, later: seq<Event>)
    requires 0 < note.amount <= supply < U128_MODULUS && note.amount < 0x1_0000_0000_0000_0000
    requires note.owner == OwnerPubkey(cfg.hs, key)
    ensures var events, t := FirstDeposit(cfg.hs, note, viewCtHash), Terms(cfg.poolAccount, relayer, 0, viewCtHash);
            var n, w := DiscoveredNote(0, note, CommitNote(cfg.hs, note), None), Run(cfg, supply, events);
            var w' := Run(cfg, supply, events + [ExitEvent(cfg, w, key, n, t)] + later);
            || ExhibitsFlaw(cfg, WithExit(cfg, w, key, n)) || ExhibitsFlaw(cfg, w'.history)
            || Owed(w', cfg.poolAccount) >= note.amount
  {
    var events, t := FirstDeposit(cfg.hs, note, viewCtHash), Terms(cfg.poolAccount, relayer, 0, viewCtHash);
    FirstNote(cfg, supply, key, note, viewCtHash);
    SelfPayoutForGood(cfg, supply, events, key, DiscoveredNote(0, note, CommitNote(cfg.hs, note), None), t, later);
  }
}
