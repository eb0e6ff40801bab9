/** The contract object: its methods update their fields in place and refine the functions of `Pool`. */
module ShieldedPool {
  import opened Wrappers
  import opened Arithmetic
  import opened Limbs
  import opened Residues
  import opened Merkle
  import opened Circuits
  import opened IncrementalTree
  import opened ContractStores
  import opened Pool

  class Contract {
    const cfg: Config
    const tree: IncrementalMerkleTree
    const recentRoots: RootsWindow
    const nullifiers: NullifierSet
    var unclaimedPayouts: map<AccountId, u128>
    var paused: bool

    ghost predicate Valid()
      reads this, tree, recentRoots, nullifiers
    {
      && tree.Valid() && tree.h == cfg.hs.p2 && tree.depth == TREE_DEPTH
      && recentRoots.Valid() && recentRoots.capacity == ROOTS_WINDOW
      && nullifiers.Valid()
    }

    ghost function State(): PoolState
      reads this, tree, recentRoots, nullifiers
    {
      PoolState(tree.leaves, recentRoots.pushed, nullifiers.elements, unclaimedPayouts, paused)
    }

    constructor (cfg: Config)
      ensures Valid() && fresh(tree) && fresh(recentRoots) && fresh(nullifiers)
      ensures State() == INITIAL && this.cfg == cfg
    {
      var emptyTree := new IncrementalMerkleTree(cfg.hs.p2, TREE_DEPTH);
      var window := new RootsWindow(ROOTS_WINDOW);
      var unspent := new NullifierSet();
      this.cfg, tree, recentRoots, nullifiers := cfg, emptyTree, window, unspent;
      unclaimedPayouts, paused := map[], false;
      new;
      assert tree.Valid() && recentRoots.Valid() && nullifiers.Valid();
    }

    method SetPausedBy(caller: AccountId, value: bool) returns (r: Receipt)
      requires Valid()
      modifies this
      ensures Valid() && (State(), r) == SetPaused(cfg, old(State()), caller, value)
    {
      if caller != cfg.owner {
        return Panicked(OnlyOwner);
      }
      paused := value;
      r := Done([]);
    }

    /** `ft_on_transfer` and `do_deposit`. */
    method FtOnTransfer(predecessor: AccountId, amount: u128, msg: Option<DepositArgs>, verified: bool) returns (r: Receipt)
      requires Valid()
      modifies this, tree, recentRoots
      ensures Valid() && (State(), r) == OnTransfer(cfg, old(State()), predecessor, amount, msg, verified)
    {
      if predecessor != cfg.usdcToken {
        return Panicked(OnlyToken);
      }
      if msg.None? {
        return Panicked(BadMessage);
      }
      if msg.value.amount != amount {
        return Panicked(AmountMismatch);
      }
      if paused {
        return Panicked(ContractPaused);
      }
      if !verified {
        return Panicked(InvalidProof);
      }
      var inserted := tree.Insert(msg.value.commitment);
      if inserted.TreeFull? {
        return Panicked(TreeIsFull);
      }
      var root := tree.RootElement();
      recentRoots.Push(root);
      r := Done([]);
    }

    /**
     * `transfer`. A panic rolls the call back, so the two "tree full" panics of the inserts
     * are decided before the first write.
     */
    method TransferNotes(pub: TransferPublic, verified: bool) returns (r: Receipt)
      requires Valid()
      modifies this, tree, recentRoots, nullifiers
      ensures Valid() && (State(), r) == Transfer(cfg, old(State()), pub, verified)
    {
      if paused {
        return Panicked(ContractPaused);
      }
      var known := recentRoots.Contains(pub.root);
      if !known {
        return Panicked(StaleRoot);
      }
      if pub.nullifier0 == pub.nullifier1 {
        return Panicked(NullifiersEqual);
      }
      var spent0 := nullifiers.Contains(pub.nullifier0);
      var spent1 := nullifiers.Contains(pub.nullifier1);
      if spent0 || spent1 {
        return Panicked(DoubleSpend);
      }
      if !verified {
        return Panicked(InvalidProof);
      }
      if tree.nextIndex + 2 > Pow(2, TREE_DEPTH) {
        return Panicked(TreeIsFull);
      }
      var _ := nullifiers.Insert(pub.nullifier0);
      var _ := nullifiers.Insert(pub.nullifier1);
      var _ := tree.Insert(pub.commitment0);
      var _ := tree.Insert(pub.commitment1);
      var root := tree.RootElement();
      recentRoots.Push(root);
      AppendTwo(old(tree.leaves), pub.commitment0, pub.commitment1);
      assert nullifiers.elements == old(nullifiers.elements) + {pub.nullifier0, pub.nullifier1};
      r := Done([]);
    }

    method WithdrawNote(args: WithdrawArgs, verified: bool) returns (r: Receipt)
      requires Valid()
      modifies nullifiers
      ensures Valid() && (State(), r) == Withdraw(old(State()), args, verified)
    {
      if paused {
        return Panicked(ContractPaused);
      }
      if args.relayerFee > args.amount {
        return Panicked(FeeExceedsAmount);
      }
      var known := recentRoots.Contains(args.root);
      if !known {
        return Panicked(StaleRoot);
      }
      var spent := nullifiers.Contains(args.nullifier);
      if spent {
        return Panicked(DoubleSpend);
      }
      if !verified {
        return Panicked(InvalidProof);
      }
      var _ := nullifiers.Insert(args.nullifier);
      var promises := Schedule(args);
      r := Done(promises);
    }

    /** The payouts of an accepted withdrawal. */
    method Schedule(args: WithdrawArgs) returns (promises: seq<Promise>)
      requires args.relayerFee <= args.amount
      ensures promises == Payouts(args)
    {
      var payout: u128 := args.amount - args.relayerFee;
      promises := [SelfPay(args.recipient, payout)];
      if args.relayerFee > 0 {
        promises := promises + [SelfPay(args.relayer, args.relayerFee)];
      }
    }

    method OnFtTransferComplete(recipient: AccountId, amount: u128, succeeded: bool)
      requires Valid()
      modifies this
      ensures Valid() && State() == TransferComplete(old(State()), recipient, amount, succeeded)
    {
      if !succeeded {
        var current: u128 := if recipient in unclaimedPayouts then unclaimedPayouts[recipient] else 0;
        unclaimedPayouts := unclaimedPayouts[recipient := (current + amount) % U128_MODULUS];
      }
    }

    method ClaimBy(caller: AccountId) returns (r: Receipt)
      requires Valid()
      modifies this
      ensures Valid() && (State(), r) == Claim(old(State()), caller)
    {
      if caller !in unclaimedPayouts {
        return Panicked(NothingToClaim);
      }
      var amount := unclaimedPayouts[caller];
      if amount == 0 {
        return Panicked(ZeroClaim);
      }
      unclaimedPayouts := unclaimedPayouts - {caller};
      r := Done([TokenPay(caller, amount)]);
    }
  }

  lemma AppendTwo(leaves: seq<Fe>, c0: Fe, c1: Fe)
    ensures leaves + [c0] + [c1] == leaves + [c0, c1]
  {
  }
}
