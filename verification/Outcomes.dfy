/** What an accepted call has really done: which notes it opened, for whom, and who may pause. */
module Outcomes {
  import opened Residues
  import opened Circuits
  import opened Pool
  import opened NoteHistory
  import opened Ledger
  import opened LedgerInvariant
  import opened Safety

  // ----- whose notes are spent -----

  /** The leaf is the commitment to `o`, spelled out, and `key` owns it. */
  ghost predicate Opens(cfg: Config, w: World, leaf: nat, key: Fe, o: Opening) {
    && leaf < |w.pool.leaves| && leaf < |w.history.openings| && w.history.openings[leaf] == o
    && w.pool.leaves[leaf] == cfg.hs.p4(o.0, o.1, o.2, o.3)
    && o.1 == cfg.hs.p2(key, 0)
  }

  lemma SpendOpens(cfg: Config, w: World, root: Fe, nullifier: Fe, key: Fe, note: SpentNote)
    requires NotesValid(cfg, w.pool, w.history) && InWindow(w.pool, root)
    requires Spends(cfg.hs, root, nullifier, key, note) && Sound(cfg, RecordSpend(cfg, w.history, key, note))
    ensures Opens(cfg, w, note.leafIndex, key, note.opening)
    ensures nullifier == cfg.hs.p2(key, cfg.hs.p2(w.pool.leaves[note.leafIndex], note.leafIndex))
  {
    WindowInclusion(cfg, w.pool, w.history, root, nullifier, key, note);
    assert LeafOpened(cfg, w.pool, w.history, note.leafIndex);
    SameOpening(cfg.hs, RecordSpend(cfg, w.history, key, note).witnessed, w.history.openings[note.leafIndex], note.opening);
  }

  /**
   * An accepted withdrawal opens a leaf that was recorded with exactly the withdrawn amount, the
   * named auditor and the spender's public key, and uses that leaf's nullifier; or the run breaks.
   */
  lemma WithdrawOpens(cfg: Config, supply: nat, events: seq<Event>, args: WithdrawArgs, wit: WithdrawWitness)
    requires supply < U128_MODULUS
    requires Withdraw(Run(cfg, supply, events).pool, args, WithdrawSat(cfg.hs, WithdrawInputs(cfg, args), wit)).1.Done?
    ensures var w, leaf, o := Run(cfg, supply, events), wit.note.leafIndex, wit.note.opening;
            || ExhibitsFlaw(cfg, StepWithdraw(cfg, w, args, wit).history)
            || (&& Opens(cfg, w, leaf, wit.spendingKey, o) && o.0 == args.amount && o.2 == args.auditor
                && args.nullifier == cfg.hs.p2(wit.spendingKey, cfg.hs.p2(w.pool.leaves[leaf], leaf)))
  {
    var w := Run(cfg, supply, events);
    var after := StepWithdraw(cfg, w, args, wit).history;
    SoundOrFlaw(cfg, after);
    if Sound(cfg, after) {
      StepExtends(cfg, w, SubmitWithdraw(args, wit));
      SoundEarlier(cfg, w.history, after);
      SoundRun(cfg, supply, events);
      AcceptedWithdraw(cfg, w.pool, args, wit);
      SpendOpens(cfg, w, args.root, args.nullifier, wit.spendingKey, wit.note);
    }
  }

  /** What a transfer records of its two outputs. */
  ghost predicate Adds(cfg: Config, w: World, w': World, pub: TransferPublic, o0: Opening, o1: Opening) {
    && w'.pool.leaves == w.pool.leaves + [pub.commitment0, pub.commitment1]
    && w'.history.openings == w.history.openings + [o0, o1]
    && cfg.hs.p4(o0.0, o0.1, o0.2, o0.3) == pub.commitment0 && o0.2 == pub.recipientAuditor
    && cfg.hs.p4(o1.0, o1.1, o1.2, o1.3) == pub.commitment1 && o1.2 == pub.recipientAuditor
  }

  /** The two leaves a transfer appends commit to openings under the named recipient auditor. */
  lemma TransferAdds(cfg: Config, w: World, pub: TransferPublic, wit: TransferWitness)
    requires Transfer(cfg, w.pool, pub, TransferSat(cfg.hs, pub, wit)).1.Done?
    ensures Adds(cfg, w, StepTransfer(cfg, w, pub, wit), pub, wit.out0, wit.out1)
    ensures StepTransfer(cfg, w, pub, wit).pool.nullifiers == w.pool.nullifiers + {pub.nullifier0, pub.nullifier1}
  {
    TransferEffect(cfg, w, pub, wit);
  }

  /**
   * An accepted transfer opens two leaves recorded under the named auditor and the spender's key, by
   * their own nullifiers, and its outputs are worth what they were; or the run breaks.
   */
  lemma TransferOpens(cfg: Config, supply: nat, events: seq<Event>, pub: TransferPublic, wit: TransferWitness)
    requires supply < U128_MODULUS
    requires Transfer(cfg, Run(cfg, supply, events).pool, pub, TransferSat(cfg.hs, pub, wit)).1.Done?
    ensures var w, key, i, j := Run(cfg, supply, events), wit.spendingKey, wit.in0.leafIndex, wit.in1.leafIndex;
            || ExhibitsFlaw(cfg, StepTransfer(cfg, w, pub, wit).history)
            || (&& Opens(cfg, w, i, key, wit.in0.opening) && wit.in0.opening.2 == pub.auditor
                && Opens(cfg, w, j, key, wit.in1.opening) && wit.in1.opening.2 == pub.auditor
                && pub.nullifier0 == cfg.hs.p2(key, cfg.hs.p2(w.pool.leaves[i], i))
                && pub.nullifier1 == cfg.hs.p2(key, cfg.hs.p2(w.pool.leaves[j], j))
                && wit.in0.opening.0 + wit.in1.opening.0 == wit.out0.0 + wit.out1.0)
  {
    var w := Run(cfg, supply, events);
    var after := StepTransfer(cfg, w, pub, wit).history;
    SoundOrFlaw(cfg, after);
    if Sound(cfg, after) {
      StepExtends(cfg, w, SubmitTransfer(pub, wit));
      SoundEarlier(cfg, w.history, after);
      SoundRun(cfg, supply, events);
      AcceptedTransfer(cfg, w.pool, pub, wit);
      SpendsSound(cfg, w, pub, wit);
      SpendOpens(cfg, w, pub.root, pub.nullifier0, wit.spendingKey, wit.in0);
      SpendOpens(cfg, w, pub.root, pub.nullifier1, wit.spendingKey, wit.in1);
      TransferConserves(cfg.hs, pub, wit);
    }
  }

  lemma SpendsSound(cfg: Config, w: World, pub: TransferPublic, wit: TransferWitness)
    requires Transfer(cfg, w.pool, pub, TransferSat(cfg.hs, pub, wit)).1.Done?
    requires Sound(cfg, StepTransfer(cfg, w, pub, wit).history)
    ensures Sound(cfg, RecordSpend(cfg, w.history, wit.spendingKey, wit.in0))
    ensures Sound(cfg, RecordSpend(cfg, w.history, wit.spendingKey, wit.in1))
  {
    TransferEffect(cfg, w, pub, wit);
    var after := StepTransfer(cfg, w, pub, wit).history;
    SoundEarlier(cfg, RecordSpend(cfg, w.history, wit.spendingKey, wit.in0), after);
    SoundEarlier(cfg, RecordSpend(cfg, w.history, wit.spendingKey, wit.in1), after);
  }

  /** An accepted deposit appends the message's commitment, which opens to the moved amount and the named auditor. */
  lemma DepositOpens(cfg: Config, w: World, i: nat, wit: DepositWitness)
    requires i < |w.incoming| && w.incoming[i].stage.Held? && CallOnTransfer(cfg, w, w.incoming[i], wit).1.Done?
    ensures w.incoming[i].msg.Some?
    ensures var w', call, args := StepReceive(cfg, w, i, wit), w.incoming[i], w.incoming[i].msg.value;
            var o := (call.amount, wit.owner, args.auditor, wit.blinding);
            && w'.pool.leaves == w.pool.leaves + [args.commitment]
            && w'.history.openings == w.history.openings + [o]
            && cfg.hs.p4(call.amount, wit.owner, args.auditor, wit.blinding) == args.commitment
            && w'.deposited == w.deposited + call.amount && w'.pool.nullifiers == w.pool.nullifiers
  {
    ReceiveEffect(cfg, w, i, wit);
  }

  // ----- the pause -----

  /** The flag moves only when the owner says so, and then to what the owner says. */
  lemma PauseByOwnerOnly(cfg: Config, w: World, e: Event)
    ensures Step(cfg, w, e).pool.paused
            == if e.SubmitPause? && e.caller == cfg.owner then e.value else w.pool.paused
  {
    match e
    case Receive(i, wit) =>
      if i < |w.incoming| && w.incoming[i].stage.Held? && CallOnTransfer(cfg, w, w.incoming[i], wit).1.Done? {
        ReceiveEffect(cfg, w, i, wit);
      }
    case SubmitTransfer(pub, wit) =>
      if Transfer(cfg, w.pool, pub, TransferSat(cfg.hs, pub, wit)).1.Done? {
        TransferEffect(cfg, w, pub, wit);
      }
    case _ =>
  }

  /** The flag after a run is what the owner last asked for, and off before that. */
  function LastAsked(owner: AccountId, events: seq<Event>): bool {
    if events == [] then false
    else
      var e := events[|events| - 1];
      if e.SubmitPause? && e.caller == owner then e.value else LastAsked(owner, events[..|events| - 1])
  }

  lemma {:induction false} PauseIsLastAsked(cfg: Config, supply: nat, events: seq<Event>)
    ensures Run(cfg, supply, events).pool.paused == LastAsked(cfg.owner, events)
  {
    if events != [] {
      PauseIsLastAsked(cfg, supply, events[..|events| - 1]);
      PauseByOwnerOnly(cfg, Run(cfg, supply, events[..|events| - 1]), events[|events| - 1]);
    }
  }

  /** While paused no leaf, root, nullifier or promise is added; receipts and claims go on. */
  lemma PausedStandsStill(cfg: Config, w: World, e: Event)
    requires w.pool.paused
    ensures var w' := Step(cfg, w, e);
            && w'.pool.leaves == w.pool.leaves && w'.pool.pushed == w.pool.pushed
            && w'.pool.nullifiers == w.pool.nullifiers && w'.promised == w.promised
  {
    if e.SubmitPause? {
      NothingScheduled(w.(pool := w.pool.(paused := e.value)));
    }
  }
}
