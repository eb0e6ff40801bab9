/** Every step keeps the ledger invariant, and what that means for whole runs. */
module LedgerInvariant {
  import opened Wrappers
  import opened Arithmetic
  import opened Limbs
  import opened Residues
  import opened Merkle
  import opened Circuits
  import opened Pool
  import opened NoteHistory
  import opened Sums
  import opened Ledger

  // ----- steps of the token and of the receipts -----

  lemma SameAccounts(w: World, w': World)
    requires AccountsBalanced(w)
    requires w'.payouts == w.payouts && w'.promised == w.promised && w'.delivered == w.delivered
    requires w'.pool.unclaimed == w.pool.unclaimed
    ensures AccountsBalanced(w')
  {
    forall account
      ensures AccountBalanced(w', account)
    {
      assert AccountBalanced(w, account);
    }
  }

  lemma TransferInKeeps(cfg: Config, w: World, amount: u128, msg: Option<DepositArgs>)
    requires Inv(cfg, w)
    ensures Inv(cfg, StepTransferIn(w, amount, msg))
  {
    SumSnoc(HeldAmount, w.incoming, Incoming(amount, msg, Held));
    SameAccounts(w, StepTransferIn(w, amount, msg));
  }

  lemma ResolveKeeps(cfg: Config, w: World, i: nat)
    requires Inv(cfg, w)
    ensures Inv(cfg, StepResolve(w, i))
  {
    if i < |w.incoming| && !w.incoming[i].stage.Held? {
      SumWithout(HeldAmount, w.incoming, i);
      DeliveredCovered(w);
    }
    SameAccounts(w, StepResolve(w, i));
  }

  /** The pool never pays out more than it took in, so refunds are always covered. */
  lemma DeliveredCovered(w: World)
    requires ValueConserved(w) && TokensConserved(w)
    ensures w.tokens == w.donated + SumBy(HeldAmount, w.incoming) + Unspent(w.history.openings, w.history.spent.Keys)
                        + SumBy(Pending, w.payouts) + MapSum(w.pool.unclaimed)
  {
  }

  /** Replacing payout `i` by one that owes the same amount to the same account. */
  lemma SamePending(cfg: Config, w: World, i: nat, p: Payout)
    requires Inv(cfg, w) && i < |w.payouts|
    requires p.account == w.payouts[i].account && Pending(p) == Pending(w.payouts[i])
    ensures Inv(cfg, w.(payouts := w.payouts[i := p]))
  {
    var w' := w.(payouts := w.payouts[i := p]);
    SumUpdate(Pending, w.payouts, i, p);
    forall account
      ensures AccountBalanced(w', account)
    {
      assert AccountBalanced(w, account);
      SumUpdate(PendingTo(account), w.payouts, i, p);
    }
  }

  lemma StartKeeps(cfg: Config, w: World, i: nat)
    requires Inv(cfg, w)
    ensures Inv(cfg, StepStart(w, i))
  {
    if i < |w.payouts| && w.payouts[i].phase.Scheduled? {
      SamePending(cfg, w, i, w.payouts[i].(phase := Sent));
    }
  }

  lemma ExecuteKeeps(cfg: Config, w: World, i: nat, accepted: bool)
    requires Inv(cfg, w)
    ensures Inv(cfg, StepExecute(cfg, w, i, accepted))
  {
    if i < |w.payouts| && w.payouts[i].phase.Sent? {
      var p := w.payouts[i];
      if accepted && p.amount <= w.tokens && p.account != cfg.poolAccount {
        DeliverKeeps(cfg, w, i);
      } else {
        SamePending(cfg, w, i, p.(phase := Settled(false)));
      }
    }
  }

  lemma DeliverKeeps(cfg: Config, w: World, i: nat)
    requires Inv(cfg, w) && i < |w.payouts| && w.payouts[i].phase.Sent? && w.payouts[i].amount <= w.tokens
    ensures var p := w.payouts[i];
            Inv(cfg, w.(tokens := w.tokens - p.amount,
                        delivered := w.delivered + [Payment(p.account, p.amount)],
                        payouts := w.payouts[i := p.(phase := Settled(true))]))
  {
    var p := w.payouts[i];
    var done, paid := p.(phase := Settled(true)), Payment(p.account, p.amount);
    var w' := w.(tokens := w.tokens - p.amount, delivered := w.delivered + [paid], payouts := w.payouts[i := done]);
    SumUpdate(Pending, w.payouts, i, done);
    SumSnoc(AmountOf, w.delivered, paid);
    DeliverAccounts(w, w', i, done, paid);
  }

  lemma DeliverAccounts(w: World, w': World, i: nat, done: Payout, paid: Payment)
    requires AccountsBalanced(w) && i < |w.payouts| && w.payouts[i].phase.Sent?
    requires done == w.payouts[i].(phase := Settled(true)) && paid == Payment(done.account, done.amount)
    requires w'.payouts == w.payouts[i := done] && w'.delivered == w.delivered + [paid]
    requires w'.promised == w.promised && w'.pool.unclaimed == w.pool.unclaimed
    ensures AccountsBalanced(w')
  {
    forall account
      ensures AccountBalanced(w', account)
    {
      assert AccountBalanced(w, account);
      SumUpdate(PendingTo(account), w.payouts, i, done);
      SumSnoc(PaidTo(account), w.delivered, paid);
    }
  }

  /** With the supply within 128 bits the recovery book cannot wrap around. */
  lemma BookDoesNotWrap(cfg: Config, w: World, i: nat)
    requires Inv(cfg, w) && i < |w.payouts| && w.payouts[i].phase == Settled(false)
    ensures UnclaimedOf(w.pool, w.payouts[i].account) + w.payouts[i].amount < U128_MODULUS
  {
    DeliveredCovered(w);
    SumAtLeast(Pending, w.payouts, i);
    MapSumSet(w.pool.unclaimed, w.payouts[i].account, 0);
  }

  lemma CompleteKeeps(cfg: Config, w: World, i: nat)
    requires Inv(cfg, w)
    ensures Inv(cfg, StepComplete(w, i))
  {
    if i < |w.payouts| && w.payouts[i].phase.Settled? {
      if w.payouts[i].phase.ok {
        CompletePaid(cfg, w, i);
      } else {
        CompleteFailed(cfg, w, i);
      }
    }
  }

  lemma CompletePaid(cfg: Config, w: World, i: nat)
    requires Inv(cfg, w) && i < |w.payouts| && w.payouts[i].phase == Settled(true)
    ensures Inv(cfg, w.(payouts := Without(w.payouts, i)))
  {
    var w' := w.(payouts := Without(w.payouts, i));
    SumWithout(Pending, w.payouts, i);
    forall account
      ensures AccountBalanced(w', account)
    {
      assert AccountBalanced(w, account);
      SumWithout(PendingTo(account), w.payouts, i);
    }
  }

  lemma CompleteFailed(cfg: Config, w: World, i: nat)
    requires Inv(cfg, w) && i < |w.payouts| && w.payouts[i].phase == Settled(false)
    ensures Inv(cfg, StepComplete(w, i))
  {
    var p, w' := w.payouts[i], StepComplete(w, i);
    BookDoesNotWrap(cfg, w, i);
    var booked: u128 := UnclaimedOf(w.pool, p.account) + p.amount;
    ModSmall(booked, U128_MODULUS);
    assert w'.pool.unclaimed == w.pool.unclaimed[p.account := booked];
    SumWithout(Pending, w.payouts, i);
    MapSumSet(w.pool.unclaimed, p.account, booked);
    BookingKeepsNotes(cfg, w.pool, w'.pool, w.history);
    forall account
      ensures AccountBalanced(w', account)
    {
      assert AccountBalanced(w, account);
      SumWithout(PendingTo(account), w.payouts, i);
    }
  }

  /** The notes do not look at the book or the pause flag. */
  lemma BookingKeepsNotes(cfg: Config, s: PoolState, s': PoolState, h: History)
    requires NotesValid(cfg, s, h)
    requires s'.leaves == s.leaves && s'.pushed == s.pushed && s'.nullifiers == s.nullifiers
    ensures NotesValid(cfg, s', h)
  {
    forall i | 0 <= i < |h.openings|
      ensures LeafOpened(cfg, s', h, i)
    {
      assert LeafOpened(cfg, s, h, i);
    }
    forall i | i in h.spent
      ensures SpentBy(cfg, s', h, i, h.spent[i])
    {
      assert SpentBy(cfg, s, h, i, h.spent[i]);
    }
  }

  lemma ClaimKeeps(cfg: Config, w: World, caller: AccountId)
    requires Inv(cfg, w)
    ensures Inv(cfg, StepClaim(w, caller))
  {
    if caller in w.pool.unclaimed && w.pool.unclaimed[caller] != 0 {
      var w' := StepClaim(w, caller);
      assert w'.payouts == w.payouts + [Payout(caller, w.pool.unclaimed[caller], Sent)];
      ClaimValue(w, w', caller);
      BookingKeepsNotes(cfg, w.pool, w'.pool, w.history);
      ClaimAccounts(w, w', caller);
    }
  }

  lemma ClaimValue(w: World, w': World, caller: AccountId)
    requires ValueConserved(w) && TokensConserved(w) && caller in w.pool.unclaimed
    requires w'.pool.unclaimed == w.pool.unclaimed - {caller}
    requires w'.payouts == w.payouts + [Payout(caller, w.pool.unclaimed[caller], Sent)]
    requires w'.history == w.history && w'.incoming == w.incoming && w'.delivered == w.delivered
    requires w'.deposited == w.deposited && w'.donated == w.donated && w'.tokens == w.tokens && w'.supply == w.supply
    ensures ValueConserved(w') && TokensConserved(w')
  {
    SumSnoc(Pending, w.payouts, Payout(caller, w.pool.unclaimed[caller], Sent));
    MapSumRemove(w.pool.unclaimed, caller);
  }

  lemma ClaimAccounts(w: World, w': World, caller: AccountId)
    requires AccountsBalanced(w) && caller in w.pool.unclaimed
    requires w'.pool.unclaimed == w.pool.unclaimed - {caller}
    requires w'.payouts == w.payouts + [Payout(caller, w.pool.unclaimed[caller], Sent)]
    requires w'.promised == w.promised && w'.delivered == w.delivered
    ensures AccountsBalanced(w')
  {
    forall account
      ensures AccountBalanced(w', account)
    {
      assert AccountBalanced(w, account);
      SumSnoc(PendingTo(account), w.payouts, Payout(caller, w.pool.unclaimed[caller], Sent));
    }
  }

  lemma PauseKeeps(cfg: Config, w: World, caller: AccountId, value: bool)
    requires Inv(cfg, w)
    ensures Inv(cfg, StepPause(cfg, w, caller, value))
  {
    var w' := w.(pool := w.pool.(paused := value));
    BookingKeepsNotes(cfg, w.pool, w'.pool, w.history);
    SameAccounts(w, w');
    NothingScheduled(w');
  }

  lemma DonateKeeps(cfg: Config, w: World, amount: u128)
    requires Inv(cfg, w)
    ensures Inv(cfg, Step(cfg, w, Donate(amount)))
  {
    SameAccounts(w, Step(cfg, w, Donate(amount)));
  }

  // ----- steps of the notes -----

  lemma ReceiveKeeps(cfg: Config, w: World, i: nat, wit: DepositWitness)
    requires Inv(cfg, w)
    ensures Inv(cfg, StepReceive(cfg, w, i, wit))
  {
    if i < |w.incoming| && w.incoming[i].stage.Held? {
      if CallOnTransfer(cfg, w, w.incoming[i], wit).1.Panicked? {
        RejectKeeps(cfg, w, i);
      } else {
        AcceptedCall(cfg, w, w.incoming[i], wit);
        AcceptKeeps(cfg, w, i, DepositOpening(DepositInputs(w.incoming[i].msg.value), wit));
        ReceiveEffect(cfg, w, i, wit);
      }
    }
  }

  lemma RejectKeeps(cfg: Config, w: World, i: nat)
    requires Inv(cfg, w) && i < |w.incoming| && w.incoming[i].stage.Held?
    ensures Inv(cfg, Reject(w, i))
  {
    SumUpdate(HeldAmount, w.incoming, i, w.incoming[i].(stage := Rejected));
    SameAccounts(w, Reject(w, i));
  }

  /** An accepted deposit commits to exactly the amount the token moved. */
  lemma AcceptedCall(cfg: Config, w: World, call: Incoming, wit: DepositWitness)
    requires CallOnTransfer(cfg, w, call, wit).1.Done?
    ensures call.msg.Some? && |w.pool.leaves| + 1 <= Pow(2, TREE_DEPTH)
    ensures var o := DepositOpening(DepositInputs(call.msg.value), wit);
            && o.0 == call.amount
            && CallOnTransfer(cfg, w, call, wit) == (Append(cfg, w.pool, Commitments(cfg, [o])), Done([]))
  {
    var o := DepositOpening(DepositInputs(call.msg.value), wit);
    assert Commitments(cfg, [o]) == [call.msg.value.commitment];
  }

  /** An accepted deposit schedules nothing. */
  lemma ReceiveEffect(cfg: Config, w: World, i: nat, wit: DepositWitness)
    requires i < |w.incoming| && w.incoming[i].stage.Held? && CallOnTransfer(cfg, w, w.incoming[i], wit).1.Done?
    ensures w.incoming[i].msg.Some?
    ensures var o := DepositOpening(DepositInputs(w.incoming[i].msg.value), wit);
            StepReceive(cfg, w, i, wit) == Accept(cfg, w, i, Append(cfg, w.pool, Commitments(cfg, [o])), o)
  {
    AcceptedCall(cfg, w, w.incoming[i], wit);
    var o := DepositOpening(DepositInputs(w.incoming[i].msg.value), wit);
    NothingScheduled(Accept(cfg, w, i, Append(cfg, w.pool, Commitments(cfg, [o])), o));
  }

  lemma AcceptKeeps(cfg: Config, w: World, i: nat, o: Opening)
    requires Inv(cfg, w) && i < |w.incoming| && w.incoming[i].stage.Held? && o.0 == w.incoming[i].amount
    requires |w.pool.leaves| + 1 <= Pow(2, TREE_DEPTH)
    ensures Inv(cfg, Accept(cfg, w, i, Append(cfg, w.pool, Commitments(cfg, [o])), o))
  {
    AppendKeepsNotes(cfg, w.pool, w.history, [o]);
    SpentInRange(cfg, w);
    UnspentAppend(w.history.openings, w.history.spent.Keys, o);
    SumUpdate(HeldAmount, w.incoming, i, w.incoming[i].(stage := Used));
    SameAccounts(w, Accept(cfg, w, i, Append(cfg, w.pool, Commitments(cfg, [o])), o));
  }

  lemma SpentInRange(cfg: Config, w: World)
    requires Inv(cfg, w)
    ensures forall k :: k in w.history.spent ==> k < |w.history.openings|
  {
    forall k | k in w.history.spent
      ensures k < |w.history.openings|
    {
      assert SpentBy(cfg, w.pool, w.history, k, w.history.spent[k]);
    }
  }

  /** A spend takes exactly the opened amount out of the unspent value. */
  lemma SpendValue(cfg: Config, s: PoolState, h: History, root: Fe, nullifier: Fe, key: Fe, note: SpentNote)
    requires NotesValid(cfg, s, h) && InWindow(s, root) && nullifier !in s.nullifiers
    requires Spends(cfg.hs, root, nullifier, key, note)
    requires Sound(cfg, RecordSpend(cfg, h, key, note))
    ensures var after := RecordSpend(cfg, h, key, note);
            Unspent(h.openings, h.spent.Keys) == Unspent(after.openings, after.spent.Keys) + note.opening.0
  {
    var after := RecordSpend(cfg, h, key, note);
    SpendIsFirst(cfg, s, h, root, nullifier, key, note);
    assert after.spent.Keys == h.spent.Keys + {note.leafIndex as nat};
    UnspentSpend(h.openings, h.spent.Keys, note.leafIndex);
  }

  /** What an accepted transfer has established. */
  lemma AcceptedTransfer(cfg: Config, s: PoolState, pub: TransferPublic, wit: TransferWitness)
    requires Transfer(cfg, s, pub, TransferSat(cfg.hs, pub, wit)).1.Done?
    ensures TransferSat(cfg.hs, pub, wit) && InWindow(s, pub.root) && |s.leaves| + 2 <= Pow(2, TREE_DEPTH)
    ensures pub.nullifier0 != pub.nullifier1 && pub.nullifier0 !in s.nullifiers && pub.nullifier1 !in s.nullifiers
    ensures Transfer(cfg, s, pub, true)
            == (Append(cfg, SpendNullifier(SpendNullifier(s, pub.nullifier0), pub.nullifier1),
                       Commitments(cfg, [wit.out0, wit.out1])), Done([]))
  {
    assert Commitments(cfg, [wit.out0, wit.out1]) == [pub.commitment0, pub.commitment1];
    assert s.nullifiers + {pub.nullifier0, pub.nullifier1} == s.nullifiers + {pub.nullifier0} + {pub.nullifier1};
  }

  /** Both inputs are first spends, of different leaves, and the outputs are worth what they were. */
  lemma TransferNotesKeep(cfg: Config, s: PoolState, h: History, pub: TransferPublic, wit: TransferWitness)
    requires NotesValid(cfg, s, h) && TransferSat(cfg.hs, pub, wit) && InWindow(s, pub.root)
    requires pub.nullifier0 != pub.nullifier1 && pub.nullifier0 !in s.nullifiers && pub.nullifier1 !in s.nullifiers
    requires |s.leaves| + 2 <= Pow(2, TREE_DEPTH)
    requires Sound(cfg, RecordTransfer(cfg, h, s.leaves + [pub.commitment0, pub.commitment1], wit))
    ensures var s1 := SpendNullifier(SpendNullifier(s, pub.nullifier0), pub.nullifier1);
            var s2 := Append(cfg, s1, Commitments(cfg, [wit.out0, wit.out1]));
            var after := RecordTransfer(cfg, h, s2.leaves, wit);
            && NotesValid(cfg, s2, after)
            && Unspent(after.openings, after.spent.Keys) == Unspent(h.openings, h.spent.Keys)
    ensures wit.in0.leafIndex !in h.spent && wit.in1.leafIndex !in h.spent && wit.in0.leafIndex != wit.in1.leafIndex
  {
    var s0 := SpendNullifier(s, pub.nullifier0);
    var s1 := SpendNullifier(s0, pub.nullifier1);
    var h0 := RecordSpend(cfg, h, wit.spendingKey, wit.in0);
    var h1 := RecordSpend(cfg, h0, wit.spendingKey, wit.in1);
    var leaves := s.leaves + [pub.commitment0, pub.commitment1];
    SoundEarlier(cfg, h1, RecordTransfer(cfg, h, leaves, wit));
    SoundEarlier(cfg, h0, h1);
    SpendIsFirst(cfg, s, h, pub.root, pub.nullifier0, wit.spendingKey, wit.in0);
    SpendValue(cfg, s, h, pub.root, pub.nullifier0, wit.spendingKey, wit.in0);
    SpendKeepsNotes(cfg, s, h, pub.root, pub.nullifier0, wit.spendingKey, wit.in0);
    SpendIsFirst(cfg, s0, h0, pub.root, pub.nullifier1, wit.spendingKey, wit.in1);
    SpendValue(cfg, s0, h0, pub.root, pub.nullifier1, wit.spendingKey, wit.in1);
    SpendKeepsNotes(cfg, s0, h0, pub.root, pub.nullifier1, wit.spendingKey, wit.in1);
    AppendKeepsNotes(cfg, s1, h1, [wit.out0, wit.out1]);
    OutputValue(cfg, s1, h1, wit.out0, wit.out1);
    TransferConserves(cfg.hs, pub, wit);
  }

  lemma OutputValue(cfg: Config, s: PoolState, h: History, o0: Opening, o1: Opening)
    requires NotesValid(cfg, s, h)
    ensures Unspent(h.openings + [o0, o1], h.spent.Keys) == Unspent(h.openings, h.spent.Keys) + o0.0 + o1.0
  {
    forall k | k in h.spent
      ensures k < |h.openings|
    {
      assert SpentBy(cfg, s, h, k, h.spent[k]);
    }
    UnspentAppend(h.openings, h.spent.Keys, o0);
    UnspentAppend(h.openings + [o0], h.spent.Keys, o1);
    assert h.openings + [o0, o1] == h.openings + [o0] + [o1];
  }

  /** An accepted transfer schedules nothing and touches only the notes. */
  lemma TransferEffect(cfg: Config, w: World, pub: TransferPublic, wit: TransferWitness)
    requires Transfer(cfg, w.pool, pub, TransferSat(cfg.hs, pub, wit)).1.Done?
    ensures TransferSat(cfg.hs, pub, wit)
    ensures var pool := Append(cfg, SpendNullifier(SpendNullifier(w.pool, pub.nullifier0), pub.nullifier1),
                               Commitments(cfg, [wit.out0, wit.out1]));
            StepTransfer(cfg, w, pub, wit) == w.(pool := pool, history := RecordTransfer(cfg, w.history, pool.leaves, wit))
  {
    AcceptedTransfer(cfg, w.pool, pub, wit);
    var pool := Transfer(cfg, w.pool, pub, true).0;
    NothingScheduled(w.(pool := pool, history := RecordTransfer(cfg, w.history, pool.leaves, wit)));
  }

  lemma TransferKeeps(cfg: Config, w: World, pub: TransferPublic, wit: TransferWitness)
    requires Inv(cfg, w) && Sound(cfg, StepTransfer(cfg, w, pub, wit).history)
    ensures Inv(cfg, StepTransfer(cfg, w, pub, wit))
  {
    if Transfer(cfg, w.pool, pub, TransferSat(cfg.hs, pub, wit)).1.Done? {
      AcceptedTransfer(cfg, w.pool, pub, wit);
      TransferNotesKeep(cfg, w.pool, w.history, pub, wit);
      TransferEffect(cfg, w, pub, wit);
      SameAccounts(w, StepTransfer(cfg, w, pub, wit));
    }
  }

  /** What an accepted withdrawal has established. */
  lemma AcceptedWithdraw(cfg: Config, s: PoolState, args: WithdrawArgs, wit: WithdrawWitness)
    requires Withdraw(s, args, WithdrawSat(cfg.hs, WithdrawInputs(cfg, args), wit)).1.Done?
    ensures WithdrawSat(cfg.hs, WithdrawInputs(cfg, args), wit) && InWindow(s, args.root) && args.nullifier !in s.nullifiers
    ensures args.relayerFee <= args.amount && wit.note.opening.0 == args.amount
    ensures Withdraw(s, args, true) == (SpendNullifier(s, args.nullifier), Done(Payouts(args)))
  {
  }

  /** Who gets what of a withdrawal: the recipient the amount less the fee, the relayer the fee. */
  function Share(args: WithdrawArgs, account: AccountId): nat
    requires args.relayerFee <= args.amount
  {
    (if account == args.recipient then args.amount - args.relayerFee else 0)
    + (if account == args.relayer then args.relayerFee else 0)
  }

  /** Every account is scheduled exactly its share, by one payout or, with a fee, two. */
  lemma PayoutsShare(args: WithdrawArgs, account: AccountId)
    requires args.relayerFee <= args.amount
    ensures var payouts := ToPayouts(Payouts(args));
            && SumBy(PendingTo(account), payouts) == SumBy(PaidTo(account), ToPayments(payouts)) == Share(args, account)
            && |payouts| == (if args.relayerFee > 0 then 2 else 1)
            && forall i :: 0 <= i < |payouts| ==> payouts[i].phase.Scheduled?
  {
    var payouts := ToPayouts(Payouts(args));
    var first := Payout(args.recipient, args.amount - args.relayerFee, Scheduled);
    var second := Payout(args.relayer, args.relayerFee, Scheduled);
    SumOne(PendingTo(account), first);
    if args.relayerFee > 0 {
      assert payouts == [first] + [second];
      SumSnoc(PendingTo(account), [first], second);
    } else {
      assert payouts == [first];
    }
    ScheduledOwe(account, payouts);
  }

  /** An accepted withdrawal promises every account exactly its share, and delivers nothing yet. */
  lemma WithdrawPromises(cfg: Config, w: World, args: WithdrawArgs, wit: WithdrawWitness, account: AccountId)
    requires Withdraw(w.pool, args, WithdrawSat(cfg.hs, WithdrawInputs(cfg, args), wit)).1.Done?
    ensures var w' := StepWithdraw(cfg, w, args, wit);
            && args.relayerFee <= args.amount
            && SumBy(PaidTo(account), w'.promised) == SumBy(PaidTo(account), w.promised) + Share(args, account)
            && SumBy(PendingTo(account), w'.payouts) == SumBy(PendingTo(account), w.payouts) + Share(args, account)
            && w'.delivered == w.delivered && w'.pool.unclaimed == w.pool.unclaimed
  {
    AcceptedWithdraw(cfg, w.pool, args, wit);
    var payouts := ToPayouts(Payouts(args));
    PayoutsShare(args, account);
    SumAppend(PendingTo(account), w.payouts, payouts);
    SumAppend(PaidTo(account), w.promised, ToPayments(payouts));
  }

  /** The scheduled payouts add up to the withdrawn amount, account by account and in total. */
  lemma PayoutsOwe(args: WithdrawArgs)
    requires args.relayerFee <= args.amount
    ensures SumBy(Pending, ToPayouts(Payouts(args))) == args.amount
    ensures forall account :: SumBy(PendingTo(account), ToPayouts(Payouts(args)))
                              == SumBy(PaidTo(account), ToPayments(ToPayouts(Payouts(args))))
  {
    var payouts := ToPayouts(Payouts(args));
    var first := Payout(args.recipient, args.amount - args.relayerFee, Scheduled);
    var second := Payout(args.relayer, args.relayerFee, Scheduled);
    SumOne(Pending, first);
    if args.relayerFee > 0 {
      assert payouts == [first] + [second];
      SumSnoc(Pending, [first], second);
    } else {
      assert payouts == [first];
    }
    forall account
      ensures SumBy(PendingTo(account), payouts) == SumBy(PaidTo(account), ToPayments(payouts))
    {
      ScheduledOwe(account, payouts);
    }
  }

  lemma {:induction false} ScheduledOwe(account: AccountId, payouts: seq<Payout>)
    requires forall i :: 0 <= i < |payouts| ==> payouts[i].phase.Scheduled?
    ensures SumBy(PendingTo(account), payouts) == SumBy(PaidTo(account), ToPayments(payouts))
  {
    if payouts != [] {
      var init := payouts[..|payouts| - 1];
      assert ToPayments(payouts)[..|payouts| - 1] == ToPayments(init);
      ScheduledOwe(account, init);
    }
  }

  /** A withdrawal turns one note's value into payouts of the same value. */
  lemma WithdrawKeeps(cfg: Config, w: World, args: WithdrawArgs, wit: WithdrawWitness)
    requires Inv(cfg, w) && Sound(cfg, StepWithdraw(cfg, w, args, wit).history)
    ensures Inv(cfg, StepWithdraw(cfg, w, args, wit))
  {
    if Withdraw(w.pool, args, WithdrawSat(cfg.hs, WithdrawInputs(cfg, args), wit)).1.Done? {
      AcceptedWithdraw(cfg, w.pool, args, wit);
      SpendValue(cfg, w.pool, w.history, args.root, args.nullifier, wit.spendingKey, wit.note);
      SpendKeepsNotes(cfg, w.pool, w.history, args.root, args.nullifier, wit.spendingKey, wit.note);
      WithdrawAccounts(cfg, w, StepWithdraw(cfg, w, args, wit), args);
    }
  }

  lemma WithdrawAccounts(cfg: Config, w: World, w': World, args: WithdrawArgs)
    requires AccountsBalanced(w) && args.relayerFee <= args.amount
    requires w'.payouts == w.payouts + ToPayouts(Payouts(args))
    requires w'.promised == w.promised + ToPayments(ToPayouts(Payouts(args)))
    requires w'.delivered == w.delivered && w'.pool.unclaimed == w.pool.unclaimed
    ensures AccountsBalanced(w') && SumBy(Pending, w'.payouts) == SumBy(Pending, w.payouts) + args.amount
  {
    var payouts := ToPayouts(Payouts(args));
    PayoutsOwe(args);
    SumAppend(Pending, w.payouts, payouts);
    forall account
      ensures AccountBalanced(w', account)
    {
      assert AccountBalanced(w, account);
      SumAppend(PendingTo(account), w.payouts, payouts);
      SumAppend(PaidTo(account), w.promised, ToPayments(payouts));
    }
  }

  // ----- every step, every run -----

  lemma StepKeeps(cfg: Config, w: World, e: Event)
    requires Inv(cfg, w) && Sound(cfg, Step(cfg, w, e).history)
    ensures Inv(cfg, Step(cfg, w, e))
  {
    match e
    case TransferIn(amount, msg) => TransferInKeeps(cfg, w, amount, msg);
    case Receive(i, wit) => ReceiveKeeps(cfg, w, i, wit);
    case Resolve(i) => ResolveKeeps(cfg, w, i);
    case Donate(amount) => DonateKeeps(cfg, w, amount);
    case Forge(predecessor, claimed, args) =>
    case SubmitTransfer(pub, wit) => TransferKeeps(cfg, w, pub, wit);
    case SubmitWithdraw(args, wit) => WithdrawKeeps(cfg, w, args, wit);
    case StartPayout(i) => StartKeeps(cfg, w, i);
    case ExecutePayout(i, accepted) => ExecuteKeeps(cfg, w, i, accepted);
    case CompletePayout(i) => CompleteKeeps(cfg, w, i);
    case SubmitClaim(caller) => ClaimKeeps(cfg, w, caller);
    case SubmitPause(caller, value) => PauseKeeps(cfg, w, caller, value);
  }

  lemma StepExtends(cfg: Config, w: World, e: Event)
    ensures Extends(w.history, Step(cfg, w, e).history)
  {
  }
}
