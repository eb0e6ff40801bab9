/** What has been promised can be delivered, and to whom it never is. */
module Delivery {
  import opened Circuits
  import opened Pool
  import opened NoteHistory
  import opened Sums
  import opened Ledger
  import opened LedgerInvariant
  import opened Safety

  // ----- the pool never pays itself -----

  /** Nothing is delivered to the pool's own account, and no payout to it has been executed. */
  ghost predicate NeverPaidSelf(cfg: Config, w: World) {
    && (forall i :: 0 <= i < |w.delivered| ==> w.delivered[i].account != cfg.poolAccount)
    && (forall i :: 0 <= i < |w.payouts| && w.payouts[i].phase == Settled(true) ==> w.payouts[i].account != cfg.poolAccount)
  }

  /** Nothing but withdrawals, claims and receipts creates or moves a payout. */
  lemma OthersPayNothing(cfg: Config, w: World, e: Event)
    requires !PaysOut(e) && !e.SubmitWithdraw?
    ensures var w' := Step(cfg, w, e);
            w'.delivered == w.delivered && w'.payouts == w.payouts && w'.promised == w.promised
            && w'.pool.unclaimed == w.pool.unclaimed
  {
    match e
    case Receive(i, wit) =>
      if i < |w.incoming| && w.incoming[i].stage.Held? && CallOnTransfer(cfg, w, w.incoming[i], wit).1.Done? {
        ReceiveEffect(cfg, w, i, wit);
      }
    case SubmitTransfer(pub, wit) =>
      if Transfer(cfg, w.pool, pub, TransferSat(cfg.hs, pub, wit)).1.Done? {
        TransferEffect(cfg, w, pub, wit);
      }
    case SubmitPause(caller, value) => NothingScheduled(w.(pool := w.pool.(paused := value)));
    case _ =>
  }

  lemma StepNeverPaysSelf(cfg: Config, w: World, e: Event)
    requires NeverPaidSelf(cfg, w)
    ensures NeverPaidSelf(cfg, Step(cfg, w, e))
  {
    var w' := Step(cfg, w, e);
    if !PaysOut(e) && !e.SubmitWithdraw? {
      OthersPayNothing(cfg, w, e);
    }
  }

  lemma {:induction false} RunNeverPaysSelf(cfg: Config, supply: nat, events: seq<Event>)
    ensures NeverPaidSelf(cfg, Run(cfg, supply, events))
  {
    if events != [] {
      RunNeverPaysSelf(cfg, supply, events[..|events| - 1]);
      StepNeverPaysSelf(cfg, Run(cfg, supply, events[..|events| - 1]), events[|events| - 1]);
    }
  }

  lemma {:induction false} NothingTo(account: AccountId, delivered: seq<Payment>)
    requires forall i :: 0 <= i < |delivered| ==> delivered[i].account != account
    ensures SumBy(PaidTo(account), delivered) == 0
  {
    if delivered != [] {
      NothingTo(account, delivered[..|delivered| - 1]);
    }
  }

  /**
   * What a withdrawal promises to the pool itself, as recipient or relayer, is owed for good: in
   * every run nothing of it has been delivered and all of it is in flight or booked.
   */
  lemma PoolNeverPaid(cfg: Config, supply: nat, events: seq<Event>)
    requires supply < U128_MODULUS
    ensures var w := Run(cfg, supply, events);
            && SumBy(PaidTo(cfg.poolAccount), w.delivered) == 0
            && (ExhibitsFlaw(cfg, w.history) || Owed(w, cfg.poolAccount) == SumBy(PaidTo(cfg.poolAccount), w.promised))
  {
    var w := Run(cfg, supply, events);
    RunNeverPaysSelf(cfg, supply, events);
    NothingTo(cfg.poolAccount, w.delivered);
    ConservationOrFlaw(cfg, supply, events);
    assert AccountsBalanced(w) ==> AccountBalanced(w, cfg.poolAccount);
  }

  // ----- everybody else can be paid in full -----

  /** How many receipts a payout is away from having been executed once more. */
  function Distance(p: Payout): nat {
    match p.phase
    case Scheduled => 2
    case Sent => 1
    case Settled(ok) => if ok then 0 else 3
  }

  function DistanceTo(account: AccountId): Payout -> nat {
    (p: Payout) => if p.account == account then Distance(p) else 0
  }

  ghost function Rank(w: World, account: AccountId): nat {
    SumBy(DistanceTo(account), w.payouts) + if UnclaimedOf(w.pool, account) > 0 then 2 else 0
  }

  /** The next receipt for a payout that has not been delivered. */
  function Advance(i: nat, phase: Phase): Event {
    match phase
    case Scheduled => StartPayout(i)
    case Sent => ExecutePayout(i, true)
    case Settled(_) => CompletePayout(i)
  }

  /** Only receipts and claims, of the sort that carry promised payouts onwards. */
  predicate PaysOut(e: Event) {
    e.StartPayout? || e.ExecutePayout? || e.CompletePayout? || e.SubmitClaim?
  }

  lemma {:induction false} SomePending(account: AccountId, payouts: seq<Payout>) returns (i: nat)
    requires SumBy(PendingTo(account), payouts) > 0
    ensures i < |payouts| && payouts[i].account == account && Pending(payouts[i]) > 0
  {
    var last := |payouts| - 1;
    if PendingTo(account)(payouts[last]) > 0 {
      i := last;
    } else {
      i := SomePending(account, payouts[..last]);
    }
  }

  /** As long as something is owed to an account other than the pool's, some step brings it nearer. */
  lemma NextStep(cfg: Config, w: World, account: AccountId) returns (e: Event)
    requires Inv(cfg, w) && account != cfg.poolAccount && Owed(w, account) > 0
    ensures PaysOut(e) && Rank(Step(cfg, w, e), account) < Rank(w, account)
  {
    if SumBy(PendingTo(account), w.payouts) > 0 {
      var i := SomePending(account, w.payouts);
      e := Advance(i, w.payouts[i].phase);
      AdvanceRanks(cfg, w, i);
    } else {
      e := SubmitClaim(account);
      ClaimRanks(cfg, w, account);
    }
  }

  lemma AdvanceRanks(cfg: Config, w: World, i: nat)
    requires Inv(cfg, w) && i < |w.payouts| && w.payouts[i].account != cfg.poolAccount && Pending(w.payouts[i]) > 0
    ensures var p := w.payouts[i]; Rank(Step(cfg, w, Advance(i, p.phase)), p.account) < Rank(w, p.account)
  {
    match w.payouts[i].phase
    case Scheduled => StartRanks(w, i);
    case Sent => ExecuteRanks(cfg, w, i);
    case Settled(_) => CompleteRanks(w, i);
  }

  lemma StartRanks(w: World, i: nat)
    requires i < |w.payouts| && w.payouts[i].phase.Scheduled?
    ensures Rank(StepStart(w, i), w.payouts[i].account) < Rank(w, w.payouts[i].account)
  {
    SumUpdate(DistanceTo(w.payouts[i].account), w.payouts, i, w.payouts[i].(phase := Sent));
  }

  lemma ExecuteRanks(cfg: Config, w: World, i: nat)
    requires ValueConserved(w) && TokensConserved(w)
    requires i < |w.payouts| && w.payouts[i].phase.Sent? && w.payouts[i].account != cfg.poolAccount
    ensures Rank(StepExecute(cfg, w, i, true), w.payouts[i].account) < Rank(w, w.payouts[i].account)
  {
    DeliveredCovered(w);
    SumAtLeast(Pending, w.payouts, i);
    SumUpdate(DistanceTo(w.payouts[i].account), w.payouts, i, w.payouts[i].(phase := Settled(true)));
  }

  lemma CompleteRanks(w: World, i: nat)
    requires i < |w.payouts| && w.payouts[i].phase == Settled(false)
    ensures Rank(StepComplete(w, i), w.payouts[i].account) < Rank(w, w.payouts[i].account)
  {
    SumWithout(DistanceTo(w.payouts[i].account), w.payouts, i);
  }

  lemma ClaimRanks(cfg: Config, w: World, account: AccountId)
    requires UnclaimedOf(w.pool, account) > 0
    ensures Rank(Step(cfg, w, SubmitClaim(account)), account) < Rank(w, account)
  {
    var p := Payout(account, w.pool.unclaimed[account], Sent);
    assert StepClaim(w, account).payouts == w.payouts + [p];
    SumSnoc(DistanceTo(account), w.payouts, p);
  }

  lemma PaysOutKeeps(cfg: Config, w: World, e: Event)
    requires PaysOut(e)
    ensures Step(cfg, w, e).history == w.history && Step(cfg, w, e).promised == w.promised
  {
  }

  lemma {:induction false} Drain(cfg: Config, w: World, account: AccountId) returns (chain: seq<Event>)
    requires Inv(cfg, w) && Sound(cfg, w.history) && account != cfg.poolAccount
    ensures forall j :: 0 <= j < |chain| ==> PaysOut(chain[j])
    ensures Inv(cfg, RunFrom(cfg, w, chain)) && Owed(RunFrom(cfg, w, chain), account) == 0
    ensures RunFrom(cfg, w, chain).promised == w.promised
    decreases Rank(w, account)
  {
    if Owed(w, account) == 0 {
      chain := [];
    } else {
      var e := NextStep(cfg, w, account);
      PaysOutKeeps(cfg, w, e);
      StepKeeps(cfg, w, e);
      var rest := Drain(cfg, Step(cfg, w, e), account);
      chain := [e] + rest;
      assert chain[1..] == rest;
    }
  }

  lemma {:induction false} RunOn(cfg: Config, supply: nat, events: seq<Event>, chain: seq<Event>)
    ensures RunFrom(cfg, Run(cfg, supply, events), chain) == Run(cfg, supply, events + chain)
    decreases |chain|
  {
    if chain == [] {
      assert events + [] == events;
    } else {
      var more := events + [chain[0]];
      assert more[..|more| - 1] == events;
      assert more + chain[1..] == events + chain;
      RunOn(cfg, supply, more, chain[1..]);
    }
  }

  /**
   * From every reachable state and for every account but the pool's own, receipts and claims, with
   * the token accepting what is covered, can deliver exactly what has been promised to it; or
   * the run's hash inputs break.
   */
  lemma CanBePaidInFull(cfg: Config, supply: nat, events: seq<Event>, account: AccountId)
    requires supply < U128_MODULUS && account != cfg.poolAccount
    ensures || ExhibitsFlaw(cfg, Run(cfg, supply, events).history)
            || exists chain: seq<Event> ::
                 && (forall j :: 0 <= j < |chain| ==> PaysOut(chain[j]))
                 && PaidInFull(Run(cfg, supply, events), Run(cfg, supply, events + chain), account)
  {
    var w := Run(cfg, supply, events);
    SoundOrFlaw(cfg, w.history);
    if Sound(cfg, w.history) {
      SoundRun(cfg, supply, events);
      var chain := Drain(cfg, w, account);
      RunOn(cfg, supply, events, chain);
      assert AccountBalanced(Run(cfg, supply, events + chain), account);
      assert PaidInFull(w, Run(cfg, supply, events + chain), account);
    }
  }

  /** Nothing is owed any more, and exactly what was promised before has been delivered. */
  ghost predicate PaidInFull(w: World, w': World, account: AccountId) {
    && Owed(w', account) == 0
    && SumBy(PaidTo(account), w'.delivered) == SumBy(PaidTo(account), w.promised)
  }
}
