/** The record of hash inputs holds nothing but what a run has really hashed, so a break found there is a real one. */
module HashInputs {
  import opened Residues
  import opened Merkle
  import opened Inclusion
  import opened Circuits
  import opened Pool
  import opened Ledger
  import opened LedgerInvariant
  import opened Safety

  /** Hashed in the tree of some prefix of the leaves. */
  ghost predicate InTree(h: Hash2, leaves: seq<Fe>, a: (Fe, Fe)) {
    exists size: nat :: size <= |leaves| && a in Pairs(h, leaves[..size], 20, 0)
  }

  /** An input of the key, nullifier or path hashes of one spent note. */
  ghost predicate InNote(hs: Hashes, key: Fe, note: SpentNote, a: (Fe, Fe)) {
    var o := note.opening;
    var c := hs.p4(o.0, o.1, o.2, o.3);
    || a == (key, 0) || a == (c, note.leafIndex) || a == (key, hs.p2(c, note.leafIndex))
    || exists d :: 0 <= d < |note.path| && d < |note.cur| && OnPath(note, d, a)
  }

  predicate OnPath(note: SpentNote, d: nat, a: (Fe, Fe))
    requires d < |note.path| && d < |note.cur|
  {
    a == (note.cur[d], note.path[d]) || a == (note.path[d], note.cur[d])
  }

  ghost predicate InSpend(hs: Hashes, e: Event, a: (Fe, Fe)) {
    match e
    case SubmitTransfer(_, wit) => InNote(hs, wit.spendingKey, wit.in0, a) || InNote(hs, wit.spendingKey, wit.in1, a)
    case SubmitWithdraw(_, wit) => InNote(hs, wit.spendingKey, wit.note, a)
    case _ => false
  }

  predicate OpenedBy(e: Event, o: Opening) {
    match e
    case SubmitTransfer(_, wit) => o == wit.in0.opening || o == wit.in1.opening
    case SubmitWithdraw(_, wit) => o == wit.note.opening
    case _ => false
  }

  lemma TreeGrows(h: Hash2, leaves: seq<Fe>, later: seq<Fe>, a: (Fe, Fe))
    requires InTree(h, leaves, a) && leaves <= later
    ensures InTree(h, later, a)
  {
    var size: nat :| size <= |leaves| && a in Pairs(h, leaves[..size], 20, 0);
    assert later[..size] == leaves[..size];
  }

  lemma AppendedInTree(h: Hash2, leaves: seq<Fe>, a: (Fe, Fe))
    requires a in Pairs(h, leaves, TREE_DEPTH, 0)
    ensures InTree(h, leaves, a)
  {
    assert leaves[..|leaves|] == leaves;
  }

  lemma SpendInNote(hs: Hashes, key: Fe, note: SpentNote, a: (Fe, Fe))
    requires |note.bits| == |note.path| && |note.cur| == |note.bits| + 1 && a in SpendPairs(hs, key, note)
    ensures InNote(hs, key, note, a)
  {
    if a in PathPairs(note.bits, note.path, note.cur) {
      var d :| 0 <= d < |note.bits| && a == Ordered(note.bits[d], note.cur[d], note.path[d]);
      assert OnPath(note, d, a);
    }
  }

  /** One step adds only inputs of the new tree or of its own spends. */
  lemma StepUses(cfg: Config, w: World, e: Event, a: (Fe, Fe))
    requires a in Step(cfg, w, e).history.pairs
    ensures a in w.history.pairs || InTree(cfg.hs.p2, Step(cfg, w, e).pool.leaves, a) || InSpend(cfg.hs, e, a)
  {
    match e
    case Receive(i, wit) => ReceiveUses(cfg, w, i, wit, a);
    case SubmitTransfer(pub, wit) => TransferUses(cfg, w, pub, wit, a);
    case SubmitWithdraw(args, wit) => WithdrawUses(cfg, w, args, wit, a);
    case _ =>
  }

  lemma ReceiveUses(cfg: Config, w: World, i: nat, wit: DepositWitness, a: (Fe, Fe))
    requires a in StepReceive(cfg, w, i, wit).history.pairs
    ensures a in w.history.pairs || InTree(cfg.hs.p2, StepReceive(cfg, w, i, wit).pool.leaves, a)
  {
    if a !in w.history.pairs {
      AppendedInTree(cfg.hs.p2, StepReceive(cfg, w, i, wit).pool.leaves, a);
    }
  }

  lemma TransferUses(cfg: Config, w: World, pub: TransferPublic, wit: TransferWitness, a: (Fe, Fe))
    requires a in StepTransfer(cfg, w, pub, wit).history.pairs
    ensures || a in w.history.pairs || InTree(cfg.hs.p2, StepTransfer(cfg, w, pub, wit).pool.leaves, a)
            || InNote(cfg.hs, wit.spendingKey, wit.in0, a) || InNote(cfg.hs, wit.spendingKey, wit.in1, a)
  {
    if Transfer(cfg, w.pool, pub, TransferSat(cfg.hs, pub, wit)).1.Done? {
      TransferEffect(cfg, w, pub, wit);
      if a in SpendPairs(cfg.hs, wit.spendingKey, wit.in0) {
        SpendInNote(cfg.hs, wit.spendingKey, wit.in0, a);
      } else if a in SpendPairs(cfg.hs, wit.spendingKey, wit.in1) {
        SpendInNote(cfg.hs, wit.spendingKey, wit.in1, a);
      } else if a !in w.history.pairs {
        AppendedInTree(cfg.hs.p2, StepTransfer(cfg, w, pub, wit).pool.leaves, a);
      }
    }
  }

  lemma WithdrawUses(cfg: Config, w: World, args: WithdrawArgs, wit: WithdrawWitness, a: (Fe, Fe))
    requires a in StepWithdraw(cfg, w, args, wit).history.pairs
    ensures a in w.history.pairs || InNote(cfg.hs, wit.spendingKey, wit.note, a)
  {
    if a !in w.history.pairs {
      SpendInNote(cfg.hs, wit.spendingKey, wit.note, a);
    }
  }

  /** Every recorded pair was hashed in the tree of a prefix of the leaves or for a spend of the run. */
  lemma {:induction false} PairsAreUsed(cfg: Config, supply: nat, events: seq<Event>, a: (Fe, Fe))
    requires a in Run(cfg, supply, events).history.pairs
    ensures InTree(cfg.hs.p2, Run(cfg, supply, events).pool.leaves, a)
            || exists k :: 0 <= k < |events| && InSpend(cfg.hs, events[k], a)
  {
    if events != [] {
      var init, last := events[..|events| - 1], |events| - 1;
      var w := Run(cfg, supply, init);
      StepUses(cfg, w, events[last], a);
      if a in w.history.pairs {
        PairsAreUsed(cfg, supply, init, a);
        StepAppends(cfg, w, events[last]);
        if InTree(cfg.hs.p2, w.pool.leaves, a) {
          TreeGrows(cfg.hs.p2, w.pool.leaves, Run(cfg, supply, events).pool.leaves, a);
        } else {
          var k :| 0 <= k < |init| && InSpend(cfg.hs, init[k], a);
          assert events[k] == init[k];
        }
      }
    }
  }

  lemma StepWitnesses(cfg: Config, w: World, e: Event, o: Opening)
    requires o in Step(cfg, w, e).history.witnessed
    ensures o in w.history.witnessed || o in Step(cfg, w, e).history.openings || OpenedBy(e, o)
    ensures w.history.openings <= Step(cfg, w, e).history.openings
  {
    if e.SubmitTransfer? {
      TransferWitnesses(cfg, w, e.pub, e.transfer, o);
    } else {
      OthersWitness(cfg, w, e, o);
    }
  }

  lemma OthersWitness(cfg: Config, w: World, e: Event, o: Opening)
    requires !e.SubmitTransfer? && o in Step(cfg, w, e).history.witnessed
    ensures o in w.history.witnessed || o in Step(cfg, w, e).history.openings || OpenedBy(e, o)
    ensures w.history.openings <= Step(cfg, w, e).history.openings
  {
  }

  lemma TransferWitnesses(cfg: Config, w: World, pub: TransferPublic, wit: TransferWitness, o: Opening)
    requires o in StepTransfer(cfg, w, pub, wit).history.witnessed
    ensures var h := StepTransfer(cfg, w, pub, wit).history;
            && w.history.openings <= h.openings
            && (o in w.history.witnessed || o in h.openings || o == wit.in0.opening || o == wit.in1.opening)
  {
    if Transfer(cfg, w.pool, pub, TransferSat(cfg.hs, pub, wit)).1.Done? {
      TransferEffect(cfg, w, pub, wit);
    }
  }

  /** Every recorded opening is that of a leaf or was shown by a spend of the run. */
  lemma {:induction false} OpeningsAreUsed(cfg: Config, supply: nat, events: seq<Event>, o: Opening)
    requires o in Run(cfg, supply, events).history.witnessed
    ensures o in Run(cfg, supply, events).history.openings || exists k :: 0 <= k < |events| && OpenedBy(events[k], o)
  {
    if events != [] {
      var init, last := events[..|events| - 1], |events| - 1;
      var w := Run(cfg, supply, init);
      StepWitnesses(cfg, w, events[last], o);
      if o in w.history.witnessed {
        OpeningsAreUsed(cfg, supply, init, o);
        if o !in w.history.openings {
          var k :| 0 <= k < |init| && OpenedBy(init[k], o);
          assert events[k] == init[k];
        }
      }
    }
  }
}
