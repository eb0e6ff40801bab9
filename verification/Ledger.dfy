/** The pool, the token and the receipts between them as one state machine, and what every run keeps. */
module Ledger {
  import opened Wrappers
  import opened Limbs
  import opened Residues
  import opened Circuits
  import opened Pool
  import opened NoteHistory
  import opened Sums

  // ----- state -----

  /** A payout between its promise and its callback. */
  datatype Phase = Scheduled | Sent | Settled(ok: bool)
  datatype Payout = Payout(account: AccountId, amount: u128, phase: Phase)

  /** An `ft_transfer_call` to the pool between the token's debit and `ft_resolve_transfer`. */
  datatype Stage = Held | Used | Rejected
  datatype Incoming = Incoming(amount: u128, msg: Option<DepositArgs>, stage: Stage)

  datatype Payment = Payment(account: AccountId, amount: nat)

  datatype World = World(
    pool: PoolState,
    history: History,
    supply: nat,                // all tokens in existence
    tokens: nat,                // the pool's balance at the token
    incoming: seq<Incoming>,
    payouts: seq<Payout>,
    deposited: nat,             // value accepted by ft_on_transfer
    donated: nat,               // plain transfers to the pool's account
    promised: seq<Payment>,     // every payout a withdrawal promised
    delivered: seq<Payment>)    // every payout the token executed

  function Genesis(supply: nat): World {
    World(INITIAL, NO_HISTORY, supply, 0, [], [], 0, 0, [], [])
  }

  datatype Event =
    | TransferIn(amount: u128, msg: Option<DepositArgs>)     // the token debits a sender for ft_transfer_call
    | Receive(index: nat, deposit: DepositWitness)            // ft_on_transfer runs
    | Resolve(index: nat)                                     // ft_resolve_transfer runs
    | Donate(amount: u128)
    | Forge(predecessor: AccountId, claimed: u128, args: Option<DepositArgs>)   // ft_on_transfer called by anyone
    | SubmitTransfer(pub: TransferPublic, transfer: TransferWitness)
    | SubmitWithdraw(request: WithdrawArgs, withdraw: WithdrawWitness)
    | StartPayout(index: nat)                                 // pay_ft_with_recovery runs
    | ExecutePayout(index: nat, accepted: bool)               // the token runs ft_transfer
    | CompletePayout(index: nat)                              // on_ft_transfer_complete runs
    | SubmitClaim(caller: AccountId)
    | SubmitPause(caller: AccountId, value: bool)

  // ----- steps -----

  function ToPayout(p: Promise): Payout {
    match p
    case SelfPay(account, amount) => Payout(account, amount, Scheduled)
    case TokenPay(account, amount) => Payout(account, amount, Sent)
  }

  function ToPayouts(ps: seq<Promise>): seq<Payout> {
    seq(|ps|, i requires 0 <= i < |ps| => ToPayout(ps[i]))
  }

  function ToPayments(ps: seq<Payout>): seq<Payment> {
    seq(|ps|, i requires 0 <= i < |ps| => Payment(ps[i].account, ps[i].amount))
  }

  /** Every promise a call returns becomes a receipt, and what it promises goes on record. */
  function Schedule(w: World, promises: seq<Promise>): World {
    var payouts := ToPayouts(promises);
    w.(payouts := w.payouts + payouts, promised := w.promised + ToPayments(payouts))
  }

  lemma NothingScheduled(w: World)
    ensures Schedule(w, []) == w
  {
  }

  function StepTransferIn(w: World, amount: u128, msg: Option<DepositArgs>): World {
    if w.tokens + amount > w.supply then w
    else w.(tokens := w.tokens + amount, incoming := w.incoming + [Incoming(amount, msg, Held)])
  }

  /** `ft_on_transfer` as the token calls it for a held transfer; the proof is good if the witness is. */
  ghost function CallOnTransfer(cfg: Config, w: World, call: Incoming, wit: DepositWitness): (PoolState, Receipt) {
    var verified := call.msg.Some? && DepositSat(cfg.hs, DepositInputs(call.msg.value), wit);
    OnTransfer(cfg, w.pool, cfg.usdcToken, call.amount, call.msg, verified)
  }

  function Reject(w: World, i: nat): World
    requires i < |w.incoming|
  {
    w.(incoming := w.incoming[i := w.incoming[i].(stage := Rejected)])
  }

  ghost function Accept(cfg: Config, w: World, i: nat, pool: PoolState, o: Opening): World
    requires i < |w.incoming|
  {
    w.(pool := pool,
       history := RecordAppend(cfg, w.history, pool.leaves, [o]),
       deposited := w.deposited + w.incoming[i].amount,
       incoming := w.incoming[i := w.incoming[i].(stage := Used)])
  }

  ghost function StepReceive(cfg: Config, w: World, i: nat, wit: DepositWitness): World {
    if i >= |w.incoming| || !w.incoming[i].stage.Held? then w
    else
      var call := w.incoming[i];
      var (pool, receipt) := CallOnTransfer(cfg, w, call, wit);
      if receipt.Panicked? then Reject(w, i)
      else Schedule(Accept(cfg, w, i, pool, DepositOpening(DepositInputs(call.msg.value), wit)), receipt.promises)
  }

  /** A rejected call is refunded, up to what the pool still holds. */
  function Refund(w: World, call: Incoming): nat {
    if call.stage.Rejected? then if call.amount <= w.tokens then call.amount else w.tokens else 0
  }

  function StepResolve(w: World, i: nat): World {
    if i >= |w.incoming| || w.incoming[i].stage.Held? then w
    else w.(tokens := w.tokens - Refund(w, w.incoming[i]), incoming := Without(w.incoming, i))
  }

  ghost function RecordTransfer(cfg: Config, h: History, leaves: seq<Fe>, wit: TransferWitness): History
    requires |wit.in0.bits| == |wit.in0.path| && |wit.in0.cur| == |wit.in0.bits| + 1
    requires |wit.in1.bits| == |wit.in1.path| && |wit.in1.cur| == |wit.in1.bits| + 1
  {
    RecordAppend(cfg, RecordSpend(cfg, RecordSpend(cfg, h, wit.spendingKey, wit.in0), wit.spendingKey, wit.in1),
                 leaves, [wit.out0, wit.out1])
  }

  ghost function StepTransfer(cfg: Config, w: World, pub: TransferPublic, wit: TransferWitness): World {
    var (pool, receipt) := Transfer(cfg, w.pool, pub, TransferSat(cfg.hs, pub, wit));
    if receipt.Panicked? then w
    else Schedule(w.(pool := pool, history := RecordTransfer(cfg, w.history, pool.leaves, wit)), receipt.promises)
  }

  ghost function StepWithdraw(cfg: Config, w: World, args: WithdrawArgs, wit: WithdrawWitness): World {
    var (pool, receipt) := Withdraw(w.pool, args, WithdrawSat(cfg.hs, WithdrawInputs(cfg, args), wit));
    if receipt.Panicked? then w
    else Schedule(w.(pool := pool, history := RecordSpend(cfg, w.history, wit.spendingKey, wit.note)), receipt.promises)
  }

  function StepStart(w: World, i: nat): World {
    if i >= |w.payouts| || !w.payouts[i].phase.Scheduled? then w
    else w.(payouts := w.payouts[i := w.payouts[i].(phase := Sent)])
  }

  /**
   * The token may refuse for any reason; it always refuses what the pool cannot cover and a
   * transfer from the pool to itself.
   */
  function StepExecute(cfg: Config, w: World, i: nat, accepted: bool): World {
    if i >= |w.payouts| || !w.payouts[i].phase.Sent? then w
    else
      var p := w.payouts[i];
      if accepted && p.amount <= w.tokens && p.account != cfg.poolAccount then
        w.(tokens := w.tokens - p.amount,
           delivered := w.delivered + [Payment(p.account, p.amount)],
           payouts := w.payouts[i := p.(phase := Settled(true))])
      else w.(payouts := w.payouts[i := p.(phase := Settled(false))])
  }

  function StepComplete(w: World, i: nat): World {
    if i >= |w.payouts| || !w.payouts[i].phase.Settled? then w
    else
      var p := w.payouts[i];
      w.(pool := TransferComplete(w.pool, p.account, p.amount, p.phase.ok), payouts := Without(w.payouts, i))
  }

  function StepClaim(w: World, caller: AccountId): World {
    var (pool, receipt) := Claim(w.pool, caller);
    if receipt.Panicked? then w
    else w.(pool := pool, payouts := w.payouts + ToPayouts(receipt.promises))
  }

  /** A direct call of `ft_on_transfer`; the token itself calls it only from `Receive`. */
  function StepForge(cfg: Config, w: World, predecessor: AccountId, claimed: u128, args: Option<DepositArgs>): World {
    if predecessor == cfg.usdcToken then w
    else
      var (pool, receipt) := OnTransfer(cfg, w.pool, predecessor, claimed, args, true);
      if receipt.Panicked? then w else Schedule(w.(pool := pool), receipt.promises)
  }

  function StepPause(cfg: Config, w: World, caller: AccountId, value: bool): World {
    var (pool, receipt) := SetPaused(cfg, w.pool, caller, value);
    if receipt.Panicked? then w else Schedule(w.(pool := pool), receipt.promises)
  }

  ghost function Step(cfg: Config, w: World, e: Event): World {
    match e
    case TransferIn(amount, msg) => StepTransferIn(w, amount, msg)
    case Receive(i, wit) => StepReceive(cfg, w, i, wit)
    case Resolve(i) => StepResolve(w, i)
    case Donate(amount) =>
      if w.tokens + amount > w.supply then w else w.(tokens := w.tokens + amount, donated := w.donated + amount)
    case Forge(predecessor, claimed, args) => StepForge(cfg, w, predecessor, claimed, args)
    case SubmitTransfer(pub, wit) => StepTransfer(cfg, w, pub, wit)
    case SubmitWithdraw(args, wit) => StepWithdraw(cfg, w, args, wit)
    case StartPayout(i) => StepStart(w, i)
    case ExecutePayout(i, accepted) => StepExecute(cfg, w, i, accepted)
    case CompletePayout(i) => StepComplete(w, i)
    case SubmitClaim(caller) => StepClaim(w, caller)
    case SubmitPause(caller, value) => StepPause(cfg, w, caller, value)
  }

  /** The world after any list of events, in any interleaving; an event that cannot happen changes nothing. */
  ghost function Run(cfg: Config, supply: nat, events: seq<Event>): World {
    if events == [] then Genesis(supply)
    else Step(cfg, Run(cfg, supply, events[..|events| - 1]), events[|events| - 1])
  }

  // ----- measures -----

  function AmountOf(p: Payment): nat {
    p.amount
  }

  /** What a payout still owes: everything until the token has executed it. */
  function Pending(p: Payout): nat {
    if p.phase == Settled(true) then 0 else p.amount
  }

  function HeldAmount(call: Incoming): nat {
    if call.stage.Used? then 0 else call.amount
  }

  function PendingTo(account: AccountId): Payout -> nat {
    (p: Payout) => if p.account == account then Pending(p) else 0
  }

  function PaidTo(account: AccountId): Payment -> nat {
    (p: Payment) => if p.account == account then p.amount else 0
  }

  /** The value of the leaves that have not been spent. */
  ghost function Unspent(openings: seq<Opening>, spent: set<nat>): nat {
    if openings == [] then 0
    else
      var last := |openings| - 1;
      Unspent(openings[..last], spent) + if last in spent then 0 else openings[last].0
  }

  lemma {:induction false} UnspentSpend(openings: seq<Opening>, spent: set<nat>, i: nat)
    requires i !in spent
    ensures Unspent(openings, spent) == Unspent(openings, spent + {i}) + if i < |openings| then openings[i].0 else 0
  {
    if openings != [] {
      UnspentSpend(openings[..|openings| - 1], spent, i);
    }
  }

  lemma UnspentAppend(openings: seq<Opening>, spent: set<nat>, o: Opening)
    requires |openings| !in spent
    ensures Unspent(openings + [o], spent) == Unspent(openings, spent) + o.0
  {
    assert (openings + [o])[..|openings|] == openings;
  }

  // ----- the invariant -----

  /** What the pool owes in notes, receipts and the recovery book, plus what it has paid, is what it took in. */
  ghost predicate ValueConserved(w: World) {
    w.deposited == Unspent(w.history.openings, w.history.spent.Keys) + SumBy(Pending, w.payouts)
                   + MapSum(w.pool.unclaimed) + SumBy(AmountOf, w.delivered)
  }

  /** The token balance is what came in less what went out. */
  ghost predicate TokensConserved(w: World) {
    && w.tokens + SumBy(AmountOf, w.delivered) == w.donated + w.deposited + SumBy(HeldAmount, w.incoming)
    && w.tokens <= w.supply < U128_MODULUS
  }

  /** Promised to an account = delivered + in flight + booked. */
  ghost predicate AccountBalanced(w: World, account: AccountId) {
    SumBy(PaidTo(account), w.promised)
    == SumBy(PaidTo(account), w.delivered) + SumBy(PendingTo(account), w.payouts) + UnclaimedOf(w.pool, account)
  }

  ghost predicate AccountsBalanced(w: World) {
    forall account :: AccountBalanced(w, account)
  }

  ghost predicate Inv(cfg: Config, w: World) {
    NotesValid(cfg, w.pool, w.history) && ValueConserved(w) && TokensConserved(w) && AccountsBalanced(w)
  }
}
