/** What each entry point of the pool does, as a function of the pool state. */
module Pool {
  import opened Wrappers
  import opened Arithmetic
  import opened Limbs
  import opened Residues
  import opened Merkle
  import opened Circuits
  import opened AccountField
  import opened ContractStores

  const ROOTS_WINDOW: nat := 30
  const U128_MODULUS: int := 0x1_0000_0000_0000_0000_0000_0000_0000_0000

  /** Account ids as the bytes the contract hashes. */
  type AccountId = seq<byte>

  /** The hashes and the fixed accounts. */
  datatype Config = Config(hs: Hashes, owner: AccountId, usdcToken: AccountId, poolAccount: AccountId)

  datatype PoolState = PoolState(
    leaves: seq<Fe>,                    // every commitment, in insertion order
    pushed: seq<Fe>,                    // every root pushed to the window, oldest first
    nullifiers: set<Fe>,
    unclaimed: map<AccountId, u128>,    // the recovery book
    paused: bool)

  /** Why a call panics; a panic leaves the state as it was. */
  datatype Panic =
    | ContractPaused | StaleRoot | NullifiersEqual | DoubleSpend | InvalidProof | TreeIsFull
    | FeeExceedsAmount | OnlyToken | BadMessage | AmountMismatch | NothingToClaim | ZeroClaim | OnlyOwner

  /** A promise the call schedules. */
  datatype Promise =
    | SelfPay(recipient: AccountId, amount: u128)       // pay_ft_with_recovery on the pool itself
    | TokenPay(recipient: AccountId, amount: u128)      // ft_transfer, then on_ft_transfer_complete

  datatype Receipt = Panicked(reason: Panic) | Done(promises: seq<Promise>)

  datatype DepositArgs = DepositArgs(commitment: Fe, amount: u128, auditor: Fe, viewCtHash: Fe)

  datatype WithdrawArgs = WithdrawArgs(
    root: Fe, nullifier: Fe, recipient: AccountId, amount: u128, auditor: Fe, viewCtHash: Fe,
    relayer: AccountId, relayerFee: u128)

  const INITIAL := PoolState([], [], {}, map[], false)

  function DepositInputs(args: DepositArgs): DepositPublic {
    DepositPublic(args.commitment, args.amount, args.auditor, args.viewCtHash)
  }

  function WithdrawInputs(cfg: Config, args: WithdrawArgs): WithdrawPublic {
    WithdrawPublic(args.root, args.nullifier, HashBytes(cfg.hs.p2, args.recipient), args.amount,
                   HashBytes(cfg.hs.p2, args.relayer), args.relayerFee, args.auditor, args.viewCtHash)
  }

  /** Leaves are appended together, and one root is pushed for all of them. */
  function Append(cfg: Config, s: PoolState, commitments: seq<Fe>): PoolState {
    var leaves := s.leaves + commitments;
    s.(leaves := leaves, pushed := s.pushed + [Root(cfg.hs.p2, leaves, TREE_DEPTH)])
  }

  predicate InWindow(s: PoolState, root: Fe) {
    root in Recent(s.pushed, ROOTS_WINDOW)
  }

  /** `ft_on_transfer` with its parsed message, if it parsed; `verified` is the verifier's answer. */
  function OnTransfer(
    cfg: Config, s: PoolState, predecessor: AccountId, amount: u128, msg: Option<DepositArgs>, verified: bool)
    : (PoolState, Receipt)
  {
    if predecessor != cfg.usdcToken then (s, Panicked(OnlyToken))
    else if msg.None? then (s, Panicked(BadMessage))
    else if msg.value.amount != amount then (s, Panicked(AmountMismatch))
    else if s.paused then (s, Panicked(ContractPaused))
    else if !verified then (s, Panicked(InvalidProof))
    else if |s.leaves| >= Pow(2, TREE_DEPTH) then (s, Panicked(TreeIsFull))
    else (Append(cfg, s, [msg.value.commitment]), Done([]))
  }

  /** `transfer`: both nullifiers are spent and both outputs appended, or nothing happens. */
  function Transfer(cfg: Config, s: PoolState, pub: TransferPublic, verified: bool): (PoolState, Receipt) {
    if s.paused then (s, Panicked(ContractPaused))
    else if !InWindow(s, pub.root) then (s, Panicked(StaleRoot))
    else if pub.nullifier0 == pub.nullifier1 then (s, Panicked(NullifiersEqual))
    else if pub.nullifier0 in s.nullifiers || pub.nullifier1 in s.nullifiers then (s, Panicked(DoubleSpend))
    else if !verified then (s, Panicked(InvalidProof))
    else if |s.leaves| + 2 > Pow(2, TREE_DEPTH) then (s, Panicked(TreeIsFull))
    else
      var spent := s.(nullifiers := s.nullifiers + {pub.nullifier0, pub.nullifier1});
      (Append(cfg, spent, [pub.commitment0, pub.commitment1]), Done([]))
  }

  /** `withdraw`: the nullifier is spent before any payout has resolved. */
  function Withdraw(s: PoolState, args: WithdrawArgs, verified: bool): (PoolState, Receipt) {
    if s.paused then (s, Panicked(ContractPaused))
    else if args.relayerFee > args.amount then (s, Panicked(FeeExceedsAmount))
    else if !InWindow(s, args.root) then (s, Panicked(StaleRoot))
    else if args.nullifier in s.nullifiers then (s, Panicked(DoubleSpend))
    else if !verified then (s, Panicked(InvalidProof))
    else
      (s.(nullifiers := s.nullifiers + {args.nullifier}), Done(Payouts(args)))
  }

  /** The recipient is paid the amount less the fee; a zero fee schedules no relayer payout. */
  function Payouts(args: WithdrawArgs): seq<Promise>
    requires args.relayerFee <= args.amount
  {
    var recipient := SelfPay(args.recipient, args.amount - args.relayerFee);
    if args.relayerFee > 0 then [recipient, SelfPay(args.relayer, args.relayerFee)] else [recipient]
  }

  function UnclaimedOf(s: PoolState, account: AccountId): u128 {
    if account in s.unclaimed then s.unclaimed[account] else 0
  }

  /** `on_ft_transfer_complete`: a failed payout is booked; release builds add without an overflow check. */
  function TransferComplete(s: PoolState, recipient: AccountId, amount: u128, succeeded: bool): PoolState {
    if succeeded then s
    else s.(unclaimed := s.unclaimed[recipient := (UnclaimedOf(s, recipient) + amount) % U128_MODULUS])
  }

  /** `claim`: the caller's entry leaves the book and is sent; not gated by the pause. */
  function Claim(s: PoolState, caller: AccountId): (PoolState, Receipt) {
    if caller !in s.unclaimed then (s, Panicked(NothingToClaim))
    else if s.unclaimed[caller] == 0 then (s, Panicked(ZeroClaim))
    else (s.(unclaimed := s.unclaimed - {caller}), Done([TokenPay(caller, s.unclaimed[caller])]))
  }

  function SetPaused(cfg: Config, s: PoolState, caller: AccountId, paused: bool): (PoolState, Receipt) {
    if caller != cfg.owner then (s, Panicked(OnlyOwner)) else (s.(paused := paused), Done([]))
  }

  /**
   * A proof is bound to its call: with account ids that hold no zero byte and have as many chunks,
   * two withdrawals have the same public inputs only if they are the same call, unless the
   * pairs hashed for the ids collide.
   */
  lemma CallBound(cfg: Config, a: WithdrawArgs, b: WithdrawArgs)
    requires 0 !in a.recipient && 0 !in b.recipient && WordCount(a.recipient) == WordCount(b.recipient)
    requires 0 !in a.relayer && 0 !in b.relayer && WordCount(a.relayer) == WordCount(b.relayer)
    requires CollisionFree(cfg.hs.p2, AllFoldPairs(cfg.hs.p2, a.recipient, b.recipient))
    requires CollisionFree(cfg.hs.p2, AllFoldPairs(cfg.hs.p2, a.relayer, b.relayer))
    ensures WithdrawInputs(cfg, a) == WithdrawInputs(cfg, b) <==> a == b
  {
    AccountBound(cfg.hs.p2, a.recipient, b.recipient);
    AccountBound(cfg.hs.p2, a.relayer, b.relayer);
  }

  // ----- which check answers -----

  datatype Check = Check(passed: bool, panic: Panic)

  /** The first check that fails names the panic; if all pass the call is done. */
  function Verdict(checks: seq<Check>, promises: seq<Promise>): Receipt {
    if checks == [] then Done(promises)
    else if !checks[0].passed then Panicked(checks[0].panic)
    else Verdict(checks[1..], promises)
  }

  lemma VerdictStep(c: Check, rest: seq<Check>, promises: seq<Promise>)
    ensures Verdict([c] + rest, promises) == if c.passed then Verdict(rest, promises) else Panicked(c.panic)
  {
    assert ([c] + rest)[1..] == rest;
  }

  /** `ft_on_transfer`: the checks in order, room for one leaf among 2^20 last; then one leaf and one root. */
  lemma DepositVerdict(cfg: Config, s: PoolState, predecessor: AccountId, amount: u128, msg: Option<DepositArgs>, verified: bool)
    ensures OnTransfer(cfg, s, predecessor, amount, msg, verified).1
            == Verdict([Check(predecessor == cfg.usdcToken, OnlyToken), Check(msg.Some?, BadMessage),
                        Check(msg.Some? && msg.value.amount == amount, AmountMismatch), Check(!s.paused, ContractPaused),
                        Check(verified, InvalidProof), Check(|s.leaves| < 0x10_0000, TreeIsFull)], [])
    ensures var (after, receipt) := OnTransfer(cfg, s, predecessor, amount, msg, verified);
            if receipt.Panicked? then after == s
            else && after.leaves == s.leaves + [msg.value.commitment]
                 && after.pushed == s.pushed + [Root(cfg.hs.p2, after.leaves, 20)]
                 && after == s.(leaves := after.leaves, pushed := after.pushed)
  {
    Widths();
    SixChecks(Check(predecessor == cfg.usdcToken, OnlyToken), Check(msg.Some?, BadMessage),
              Check(msg.Some? && msg.value.amount == amount, AmountMismatch), Check(!s.paused, ContractPaused),
              Check(verified, InvalidProof), Check(|s.leaves| < 0x10_0000, TreeIsFull), []);
  }

  lemma FiveChecks(a: Check, b: Check, c: Check, d: Check, e: Check, promises: seq<Promise>)
    ensures Verdict([a, b, c, d, e], promises)
            == if !a.passed then Panicked(a.panic) else if !b.passed then Panicked(b.panic)
               else if !c.passed then Panicked(c.panic) else if !d.passed then Panicked(d.panic)
               else if !e.passed then Panicked(e.panic) else Done(promises)
  {
    VerdictStep(e, [], promises);
    VerdictStep(d, [e], promises);
    VerdictStep(c, [d, e], promises);
    VerdictStep(b, [c, d, e], promises);
    VerdictStep(a, [b, c, d, e], promises);
    assert [e] + [] == [e] && [d] + [e] == [d, e] && [c] + [d, e] == [c, d, e];
    assert [b] + [c, d, e] == [b, c, d, e] && [a] + [b, c, d, e] == [a, b, c, d, e];
  }

  lemma SixChecks(a: Check, b: Check, c: Check, d: Check, e: Check, f: Check, promises: seq<Promise>)
    ensures Verdict([a, b, c, d, e, f], promises)
            == if !a.passed then Panicked(a.panic) else if !b.passed then Panicked(b.panic)
               else if !c.passed then Panicked(c.panic) else if !d.passed then Panicked(d.panic)
               else if !e.passed then Panicked(e.panic) else if !f.passed then Panicked(f.panic) else Done(promises)
  {
    FiveChecks(b, c, d, e, f, promises);
    VerdictStep(a, [b, c, d, e, f], promises);
    assert [a] + [b, c, d, e, f] == [a, b, c, d, e, f];
  }

  /** `transfer`: the checks in order, room for two leaves last; then both nullifiers, both leaves and one root. */
  lemma TransferVerdict(cfg: Config, s: PoolState, pub: TransferPublic, verified: bool)
    ensures Transfer(cfg, s, pub, verified).1
            == Verdict([Check(!s.paused, ContractPaused), Check(InWindow(s, pub.root), StaleRoot),
                        Check(pub.nullifier0 != pub.nullifier1, NullifiersEqual),
                     Check(pub.nullifier0 !in s.nullifiers && pub.nullifier1 !in s.nullifiers, DoubleSpend),
                     Check(verified, InvalidProof), Check(|s.leaves| + 2 <= 0x10_0000, TreeIsFull)], [])
    ensures var (after, receipt) := Transfer(cfg, s, pub, verified);
            if receipt.Panicked? then after == s
            else && after.leaves == s.leaves + [pub.commitment0, pub.commitment1]
                 && after.pushed == s.pushed + [Root(cfg.hs.p2, after.leaves, 20)]
                 && after.nullifiers == s.nullifiers + {pub.nullifier0, pub.nullifier1}
                 && after == s.(leaves := after.leaves, pushed := after.pushed, nullifiers := after.nullifiers)
  {
    Widths();
    SixChecks(Check(!s.paused, ContractPaused), Check(InWindow(s, pub.root), StaleRoot),
              Check(pub.nullifier0 != pub.nullifier1, NullifiersEqual),
                 Check(pub.nullifier0 !in s.nullifiers && pub.nullifier1 !in s.nullifiers, DoubleSpend),
                 Check(verified, InvalidProof), Check(|s.leaves| + 2 <= 0x10_0000, TreeIsFull), []);
  }

  /** `withdraw`: the checks in order; then one nullifier, and the payouts are promised. */
  lemma WithdrawVerdict(s: PoolState, args: WithdrawArgs, verified: bool)
    ensures Withdraw(s, args, verified).1
            == Verdict([Check(!s.paused, ContractPaused), Check(args.relayerFee <= args.amount, FeeExceedsAmount),
                        Check(InWindow(s, args.root), StaleRoot), Check(args.nullifier !in s.nullifiers, DoubleSpend),
                        Check(verified, InvalidProof)],
                       if args.relayerFee <= args.amount then Payouts(args) else [])
    ensures var (after, receipt) := Withdraw(s, args, verified);
            after == if receipt.Panicked? then s else s.(nullifiers := s.nullifiers + {args.nullifier})
  {
    FiveChecks(Check(!s.paused, ContractPaused), Check(args.relayerFee <= args.amount, FeeExceedsAmount),
               Check(InWindow(s, args.root), StaleRoot), Check(args.nullifier !in s.nullifiers, DoubleSpend),
               Check(verified, InvalidProof), if args.relayerFee <= args.amount then Payouts(args) else []);
  }

  /** `claim`: an absent entry and an empty one panic; any other leaves the book and is sent to its owner, paused or not. */
  lemma ClaimVerdict(s: PoolState, caller: AccountId)
    ensures var (after, receipt) := Claim(s, caller);
            if UnclaimedOf(s, caller) == 0
            then after == s && receipt == Panicked(if caller in s.unclaimed then ZeroClaim else NothingToClaim)
            else && receipt == Done([TokenPay(caller, UnclaimedOf(s, caller))])
                 && after == s.(unclaimed := after.unclaimed) && UnclaimedOf(after, caller) == 0 && caller !in after.unclaimed
                 && forall other :: other != caller ==> UnclaimedOf(after, other) == UnclaimedOf(s, other)
  {
  }

  /** The callback books exactly a failed payout, for its recipient alone. */
  lemma CompleteVerdict(s: PoolState, recipient: AccountId, amount: u128, succeeded: bool, other: AccountId)
    requires UnclaimedOf(s, recipient) + amount < U128_MODULUS
    ensures var after := TransferComplete(s, recipient, amount, succeeded);
            && after == s.(unclaimed := after.unclaimed)
            && UnclaimedOf(after, other) == UnclaimedOf(s, other) + if !succeeded && other == recipient then amount else 0
  {
    ModSmall(UnclaimedOf(s, recipient) + amount, U128_MODULUS);
  }
}
