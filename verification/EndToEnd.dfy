/** The wallet and the client objects against the running pool. */
module EndToEnd {
  import opened Wrappers
  import opened Arithmetic
  import opened Limbs
  import opened Residues
  import opened Merkle
  import opened Inclusion
  import opened Circuits
  import opened ClientTree
  import opened Pool
  import opened NoteHistory
  import opened Ledger
  import opened LedgerInvariant
  import opened Safety
  import opened WalletModel
  import opened PoolClientModel
  import opened Availability

  /** The client keeps its leaves in an array, which has fewer than 2^32 entries. */
  const ARRAY_LIMIT: nat := 0x1_0000_0000

  // ----- from the wallet's notes to the pool's answer -----

  /** No two unspent notes name one leaf. */
  ghost predicate UnspentDistinct(notes: seq<DiscoveredNote>, spent: set<nat>) {
    forall i, j :: 0 <= i < j < |notes| && notes[i].leafIndex !in spent ==> notes[i].leafIndex != notes[j].leafIndex
  }

  /** The root and the paths of two notes, from the client's tree; nothing if a leaf is not there. */
  method SupplyFor(
    tree: MerkleTree, a: DiscoveredNote, b: DiscoveredNote,
    recipientBlinding: Fe, changeBlinding: Fe, hashSender: Fe, hashRecipient: Fe) returns (s: Option<Supplied>)
    requires tree.Valid() && |tree.leaves| < ARRAY_LIMIT
    ensures s.Some? <==> a.leafIndex < |tree.leaves| && b.leafIndex < |tree.leaves|
    ensures s.Some? ==> Supplies(tree.h, tree.leaves, a, b, s.value)
  {
    Widths();
    var root := tree.RootElement();
    var path0 := tree.PathFor(a.leafIndex);
    var path1 := tree.PathFor(b.leafIndex);
    if path0.None? || path1.None? {
      return None;
    }
    ModSmall(a.leafIndex, P);
    ModSmall(b.leafIndex, P);
    s := Some(Supplied(recipientBlinding, changeBlinding, hashSender, hashRecipient, root, path0.value, path1.value));
  }

  /** `s` holds the root of the tree and the sibling paths of the notes' indices. */
  ghost predicate Supplies(h: Hash2, leaves: seq<Fe>, a: DiscoveredNote, b: DiscoveredNote, s: Supplied) {
    && s.root == Root(h, leaves, TREE_DEPTH)
    && |s.path0| == TREE_DEPTH && SiblingPath(h, leaves, ToField(a.leafIndex), s.path0)
    && |s.path1| == TREE_DEPTH && SiblingPath(h, leaves, ToField(b.leafIndex), s.path1)
    && ToField(a.leafIndex) == a.leafIndex && ToField(b.leafIndex) == b.leafIndex
  }

  /** `(i, j)` is the wallet's first eligible pair and both its leaves are in the client's tree. */
  ghost predicate Payable(wallet: Wallet, tree: MerkleTree, i: nat, j: nat, amount: int)
    reads wallet, tree
  {
    && First(wallet.notes, wallet.spent, i, j, amount)
    && wallet.notes[i].leafIndex < |tree.leaves| && wallet.notes[j].leafIndex < |tree.leaves|
  }

  /**
   * Paying, from whatever notes a scan has found and the client's tree. The request is refused
   * exactly when the amount is not positive, no two notes cover it, or the first pair that does
   * points beyond the tree. Otherwise, absent a collision of the hashes involved, the transfer
   * can be proved exactly when both notes of that pair are leaves of the tree under the wallet's
   * key, at different places, both outputs fit 128 bits and the recipient uses the sender's
   * auditor. The pair is known before the call; with distinct unspent notes its places differ.
   */
  method Pay(
    wallet: Wallet, tree: MerkleTree, req: TransferRequest,
    recipientBlinding: Fe, changeBlinding: Fe, hashSender: Fe, hashRecipient: Fe) returns (r: Built, s: Supplied)
    requires wallet.Valid() && tree.Valid() && tree.h == wallet.hs.p2 && |tree.leaves| < ARRAY_LIMIT
    ensures r.Rejected? <==> req.amount <= 0 || !exists i: nat, j: nat :: Payable(wallet, tree, i, j, req.amount)
    ensures forall i: nat, j: nat {:trigger First(wallet.notes, wallet.spent, i, j, req.amount)} ::
              First(wallet.notes, wallet.spent, i, j, req.amount) && r.Built? ==>
                Paid(wallet, tree.leaves, wallet.notes[i], wallet.notes[j], req, s, r)
    ensures UnspentDistinct(wallet.notes, wallet.spent) ==>
              forall i: nat, j: nat :: First(wallet.notes, wallet.spent, i, j, req.amount) ==>
                wallet.notes[i].leafIndex != wallet.notes[j].leafIndex
  {
    s := Supplied(recipientBlinding, changeBlinding, hashSender, hashRecipient, 0, [], []);
    var found := wallet.FindTransferInputs(req.amount);
    if found.None? {
      assert forall i: nat, j: nat :: !Payable(wallet, tree, i, j, req.amount);
      return Built.Rejected, s;
    }
    var (i, j) := found.value;
    var a, b := wallet.notes[i], wallet.notes[j];
    assert a in wallet.notes && b in wallet.notes;
    forall k: nat, l: nat | First(wallet.notes, wallet.spent, k, l, req.amount)
      ensures k == i && l == j
    {
      FirstUnique(wallet.notes, wallet.spent, i, j, k, l, req.amount);
    }
    var supplied := SupplyFor(tree, a, b, recipientBlinding, changeBlinding, hashSender, hashRecipient);
    if supplied.None? {
      return Built.Rejected, s;
    }
    s := supplied.value;
    r := wallet.BuildTransferProved(req, s);
    assert Payable(wallet, tree, i, j, req.amount) && Eligible(wallet.notes, wallet.spent, i, j, req.amount);
    if r.Built? {
      BuiltIsPaid(wallet, tree.leaves, a, b, req, s);
    }
  }

  /** `r` is the transfer of `a` and `b` under the tree's root, provable exactly when it should be. */
  ghost predicate Paid(
    wallet: Wallet, leaves: seq<Fe>, a: DiscoveredNote, b: DiscoveredNote, req: TransferRequest, s: Supplied, r: Built)
  {
    var hs, key := wallet.hs, wallet.spendingKey;
    && Supplies(hs.p2, leaves, a, b, s) && r == BuildTransfer(hs, key, a, b, req, s) && r.Built?
    && (Unbroken(hs, key, leaves, a, b, req, s) ==>
          (Provable(hs, r.pub, r.inputs)
           <==> (&& Owned(hs, key, leaves, a) && Owned(hs, key, leaves, b) && a.leafIndex != b.leafIndex
                 && PaymentFits(a, b, req))))
  }

  lemma BuiltIsPaid(wallet: Wallet, leaves: seq<Fe>, a: DiscoveredNote, b: DiscoveredNote, req: TransferRequest, s: Supplied)
    requires Scanned(wallet.hs, a) && Scanned(wallet.hs, b) && a.note.auditor == b.note.auditor
    requires Supplies(wallet.hs.p2, leaves, a, b, s) && BuildTransfer(wallet.hs, wallet.spendingKey, a, b, req, s).Built?
    ensures Paid(wallet, leaves, a, b, req, s, BuildTransfer(wallet.hs, wallet.spendingKey, a, b, req, s))
  {
    if Unbroken(wallet.hs, wallet.spendingKey, leaves, a, b, req, s) {
      ProvableExactly(wallet.hs, wallet.spendingKey, leaves, a, b, req, s);
    }
  }

  lemma FirstUnique(notes: seq<DiscoveredNote>, spent: set<nat>, i: nat, j: nat, k: nat, l: nat, amount: int)
    requires First(notes, spent, i, j, amount) && First(notes, spent, k, l, amount)
    ensures i == k && j == l
  {
    assert !Before(i, j, k, l) && !Before(k, l, i, j);
  }

  /** What it takes, at the pool's end, for a payment built on `past` to go through. */
  ghost predicate PaymentReady(
    cfg: Config, past: PoolState, w: World, key: Fe, a: DiscoveredNote, b: DiscoveredNote, req: TransferRequest)
  {
    && !w.pool.paused && |w.pool.leaves| + 2 <= Pow(2, TREE_DEPTH) && Recently(past.pushed, w.pool.pushed)
    && Owned(cfg.hs, key, past.leaves, a) && a.leafIndex !in w.history.spent
    && Owned(cfg.hs, key, past.leaves, b) && b.leafIndex !in w.history.spent
    && a.leafIndex != b.leafIndex && PaymentFits(a, b, req)
  }

  /**
   * The whole way, with other users' transactions landing in between: a client whose leaves were
   * the pool's after `k` events pays, and the pool accepts the payment after all of them exactly
   * when it is not paused and has room, at most 29 tree updates have followed, the wallet's first pair was
   * held, at two leaves unspent to this day, and the payment fits; or the hash inputs break.
   */
  method PayThePool(
    ghost cfg: Config, ghost supply: nat, ghost events: seq<Event>, ghost k: nat,
    wallet: Wallet, tree: MerkleTree, req: TransferRequest,
    recipientBlinding: Fe, changeBlinding: Fe, hashSender: Fe, hashRecipient: Fe) returns (r: Built, s: Supplied)
    requires supply < U128_MODULUS && k <= |events| && wallet.hs == cfg.hs
    requires wallet.Valid() && tree.Valid() && tree.h == wallet.hs.p2
    requires tree.leaves == Run(cfg, supply, events[..k]).pool.leaves
    ensures r.Rejected? <==> req.amount <= 0 || !exists i: nat, j: nat :: Payable(wallet, tree, i, j, req.amount)
    ensures forall i: nat, j: nat {:trigger First(wallet.notes, wallet.spent, i, j, req.amount)} ::
              First(wallet.notes, wallet.spent, i, j, req.amount) && r.Built? ==>
                var past, w := Run(cfg, supply, events[..k]).pool, Run(cfg, supply, events);
                var key, a, b := wallet.spendingKey, wallet.notes[i], wallet.notes[j];
                || ExhibitsFlaw(cfg, WithTransfer(cfg, w.history, past.leaves, key, a, b, req, s))
                || (Transfer(cfg, w.pool, r.pub, Provable(cfg.hs, r.pub, r.inputs)).1.Done?
                    <==> PaymentReady(cfg, past, w, key, a, b, req))
  {
    Widths();
    RootsArePrefixRoots(cfg, supply, events[..k]);
    r, s := Pay(wallet, tree, req, recipientBlinding, changeBlinding, hashSender, hashRecipient);
    forall i: nat, j: nat | First(wallet.notes, wallet.spent, i, j, req.amount) && r.Built?
      ensures var past, w := Run(cfg, supply, events[..k]).pool, Run(cfg, supply, events);
              var key, a, b := wallet.spendingKey, wallet.notes[i], wallet.notes[j];
              || ExhibitsFlaw(cfg, WithTransfer(cfg, w.history, past.leaves, key, a, b, req, s))
              || (Transfer(cfg, w.pool, r.pub, Provable(cfg.hs, r.pub, r.inputs)).1.Done?
                  <==> PaymentReady(cfg, past, w, key, a, b, req))
    {
      assert wallet.notes[i] in wallet.notes && wallet.notes[j] in wallet.notes;
      PaidExactly(cfg, supply, events, k, wallet.spendingKey, wallet.notes[i], wallet.notes[j], req, s);
    }
  }

  lemma PaidExactly(
    cfg: Config, supply: nat, events: seq<Event>, k: nat, key: Fe, a: DiscoveredNote, b: DiscoveredNote,
    req: TransferRequest, s: Supplied)
    requires supply < U128_MODULUS && k <= |events|
    requires Scanned(cfg.hs, a) && Scanned(cfg.hs, b) && a.note.auditor == b.note.auditor
    requires Supplies(cfg.hs.p2, Run(cfg, supply, events[..k]).pool.leaves, a, b, s)
    requires BuildTransfer(cfg.hs, key, a, b, req, s).Built?
    ensures var past, w := Run(cfg, supply, events[..k]).pool, Run(cfg, supply, events);
            var built := BuildTransfer(cfg.hs, key, a, b, req, s);
            || ExhibitsFlaw(cfg, WithTransfer(cfg, w.history, past.leaves, key, a, b, req, s))
            || (Transfer(cfg, w.pool, built.pub, Provable(cfg.hs, built.pub, built.inputs)).1.Done?
                <==> PaymentReady(cfg, past, w, key, a, b, req))
  {
    TransferAcceptedExactly(cfg, supply, events, k, key, a, b, req, s);
    ReadySupplied(cfg, Run(cfg, supply, events[..k]).pool, Run(cfg, supply, events), key, a, b, req, s);
  }

  lemma ReadySupplied(
    cfg: Config, past: PoolState, w: World, key: Fe, a: DiscoveredNote, b: DiscoveredNote, req: TransferRequest, s: Supplied)
    requires Supplies(cfg.hs.p2, past.leaves, a, b, s)
    ensures TransferReady(cfg, past, w, key, a, b, req, s) <==> PaymentReady(cfg, past, w, key, a, b, req)
  {
  }

  // ----- withdrawing -----

  /** The two leaves have the same siblings on every level. */
  ghost predicate SamePath(h: Hash2, leaves: seq<Fe>, i: nat, j: nat) {
    forall d :: 0 <= d < TREE_DEPTH ==> Node(h, leaves, d, Sibling(Shr(i, d))) == Node(h, leaves, d, Sibling(Shr(j, d)))
  }

  /**
   * Withdrawing with the path of leaf `leaf`, which the caller picks, while the wallet picks the
   * note: the first unspent one of exactly the amount. Absent a collision the withdrawal can be
   * proved exactly when that note is held, its leaf has the very path of `leaf`, and as field
   * elements fee <= amount < 2^64. With two notes of one amount the path may be the wrong one.
   */
  method TakeOut(
    wallet: Wallet, tree: MerkleTree, leaf: nat, amount: int, recipient: Fe, relayer: Fe, fee: int, viewCtHash: Fe)
    returns (r: Option<WithdrawPublic>, req: WithdrawRequest)
    requires wallet.Valid() && tree.Valid() && tree.h == wallet.hs.p2
    ensures r.None? <==> fee > amount || leaf >= |tree.leaves|
                         || !exists i: nat :: FirstExact(wallet.notes, wallet.spent, i, amount) && wallet.notes[i].auditorBytes.Some?
    ensures req.amount == amount && req.relayerFee == fee && req.recipient == recipient && req.relayer == relayer
    ensures r.Some? ==> |req.path| == TREE_DEPTH && req.root == Root(tree.h, tree.leaves, TREE_DEPTH)
    ensures forall i: nat {:trigger FirstExact(wallet.notes, wallet.spent, i, amount)} ::
              FirstExact(wallet.notes, wallet.spent, i, amount) && r.Some? ==>
                TakenOut(wallet, tree.leaves, leaf, wallet.notes[i], req, r.value)
  {
    req := WithdrawRequest(amount, recipient, relayer, fee, 0, [], viewCtHash);
    var path := tree.PathFor(leaf);
    if path.None? {
      return None, req;
    }
    var root := tree.RootElement();
    req := req.(root := root, path := path.value);
    r := wallet.BuildWithdrawProved(req);
    forall i: nat | FirstExact(wallet.notes, wallet.spent, i, amount) && r.Some?
      ensures TakenOut(wallet, tree.leaves, leaf, wallet.notes[i], req, r.value)
    {
      assert wallet.notes[i] in wallet.notes;
      PathOfLeaf(wallet.hs, wallet.spendingKey, tree.leaves, leaf, wallet.notes[i], req.path);
      if CheckSound(wallet.hs, tree.leaves, wallet.notes[i], req.path) {
        WithdrawProvableExactly(wallet.hs, wallet.spendingKey, tree.leaves, wallet.notes[i], req);
      }
    }
  }

  /** The pairs hashed for the inclusion of `n` along `path` and in the tree do not collide. */
  ghost predicate CheckSound(hs: Hashes, leaves: seq<Fe>, n: DiscoveredNote, path: seq<Fe>) {
    CollisionFree(hs.p2, CheckPairs(hs.p2, n.commitment, ToField(n.leafIndex), path) + Pairs(hs.p2, leaves, TREE_DEPTH, 0))
  }

  lemma PathOfLeaf(hs: Hashes, key: Fe, leaves: seq<Fe>, leaf: nat, n: DiscoveredNote, path: seq<Fe>)
    requires |path| == TREE_DEPTH && SiblingPath(hs.p2, leaves, leaf, path)
    ensures OnChain(hs, key, leaves, n, path)
            <==> Owned(hs, key, leaves, n) && SamePath(hs.p2, leaves, leaf, ToField(n.leafIndex))
  {
  }

  ghost predicate TakenOut(
    wallet: Wallet, leaves: seq<Fe>, leaf: nat, n: DiscoveredNote, req: WithdrawRequest, pub: WithdrawPublic)
  {
    var hs, key := wallet.hs, wallet.spendingKey;
    && pub == WithdrawInputsOf(hs, key, n, req)
    && (OnChain(hs, key, leaves, n, req.path)
        <==> Owned(hs, key, leaves, n) && SamePath(hs.p2, leaves, leaf, ToField(n.leafIndex)))
    && (CheckSound(hs, leaves, n, req.path) ==>
          (WithdrawProvable(hs, key, n, req)
           <==> (&& Owned(hs, key, leaves, n) && SamePath(hs.p2, leaves, leaf, ToField(n.leafIndex))
                 && ToField(req.relayerFee) <= ToField(req.amount) < Pow(2, 64))))
  }

  /**
   * And on to the pool: built when the client's leaves were the pool's after `k` events, the
   * withdrawal is accepted after all of them exactly when it is ready then, where being on
   * chain means that the note was held and the path given was its own; or the hash inputs break.
   */
  method TakeFromThePool(
    ghost cfg: Config, ghost supply: nat, ghost events: seq<Event>, ghost k: nat,
    wallet: Wallet, tree: MerkleTree, leaf: nat, amount: int, recipient: Fe, relayer: Fe, fee: int, viewCtHash: Fe)
    returns (r: Option<WithdrawPublic>, req: WithdrawRequest)
    requires supply < U128_MODULUS && k <= |events| && wallet.hs == cfg.hs
    requires wallet.Valid() && tree.Valid() && tree.h == wallet.hs.p2
    requires tree.leaves == Run(cfg, supply, events[..k]).pool.leaves
    ensures r.None? <==> fee > amount || leaf >= |tree.leaves|
                         || !exists i: nat :: FirstExact(wallet.notes, wallet.spent, i, amount) && wallet.notes[i].auditorBytes.Some?
    ensures forall i: nat, args: WithdrawArgs {:trigger FirstExact(wallet.notes, wallet.spent, i, amount), Carries(cfg, wallet.spendingKey, wallet.notes[i], req, args)} ::
              FirstExact(wallet.notes, wallet.spent, i, amount) && r.Some?
              && Carries(cfg, wallet.spendingKey, wallet.notes[i], req, args) ==>
                var past, w := Run(cfg, supply, events[..k]).pool, Run(cfg, supply, events);
                var key, n := wallet.spendingKey, wallet.notes[i];
                || ExhibitsFlaw(cfg, WithInput(cfg, w.history, past.leaves, key, n, req.path))
                || (Withdraw(w.pool, args, WithdrawProvable(cfg.hs, key, n, req)).1.Done?
                    <==> (&& !w.pool.paused && Recently(past.pushed, w.pool.pushed)
                          && Owned(cfg.hs, key, past.leaves, n) && SamePath(cfg.hs.p2, past.leaves, leaf, ToField(n.leafIndex))
                          && ToField(n.leafIndex) !in w.history.spent && fee <= amount < Pow(2, 64)))
  {
    r, req := TakeOut(wallet, tree, leaf, amount, recipient, relayer, fee, viewCtHash);
    forall i: nat, args: WithdrawArgs |
      FirstExact(wallet.notes, wallet.spent, i, amount) && r.Some?
      && Carries(cfg, wallet.spendingKey, wallet.notes[i], req, args)
      ensures var past, w := Run(cfg, supply, events[..k]).pool, Run(cfg, supply, events);
              var key, n := wallet.spendingKey, wallet.notes[i];
              || ExhibitsFlaw(cfg, WithInput(cfg, w.history, past.leaves, key, n, req.path))
              || (Withdraw(w.pool, args, WithdrawProvable(cfg.hs, key, n, req)).1.Done?
                  <==> (&& !w.pool.paused && Recently(past.pushed, w.pool.pushed)
                        && Owned(cfg.hs, key, past.leaves, n) && SamePath(cfg.hs.p2, past.leaves, leaf, ToField(n.leafIndex))
                        && ToField(n.leafIndex) !in w.history.spent && fee <= amount < Pow(2, 64)))
    {
      assert wallet.notes[i] in wallet.notes;
      WithdrawAcceptedExactly(cfg, supply, events, k, wallet.spendingKey, wallet.notes[i], req, args);
    }
  }

  // ----- depositing -----

  /** The message `buildDeposit` leads to. */
  function DepositOf(hs: Hashes, note: Note, viewCtHash: Fe): DepositArgs
    requires 0 <= note.amount < U128_MODULUS
  {
    DepositArgs(CommitNote(hs, note), note.amount, note.auditor, viewCtHash)
  }

  /** A transfer to the pool is used for a deposit, given the right proof, exactly in these circumstances. */
  lemma DepositAcceptedExactly(cfg: Config, w: World, call: Incoming)
    ensures (exists wit :: CallOnTransfer(cfg, w, call, wit).1.Done?)
            <==> (&& call.msg.Some? && call.msg.value.amount == call.amount
                  && !w.pool.paused && |w.pool.leaves| < Pow(2, TREE_DEPTH)
                  && exists owner, blinding ::
                       Commit(cfg.hs, (call.amount, owner, call.msg.value.auditor, blinding)) == call.msg.value.commitment)
  {
    if call.msg.Some? && call.msg.value.amount == call.amount && !w.pool.paused && |w.pool.leaves| < Pow(2, TREE_DEPTH) {
      forall owner, blinding |
        Commit(cfg.hs, (call.amount, owner, call.msg.value.auditor, blinding)) == call.msg.value.commitment
        ensures CallOnTransfer(cfg, w, call, DepositWitness(owner, blinding, call.msg.value.viewCtHash)).1.Done?
      {
      }
    }
    forall wit | CallOnTransfer(cfg, w, call, wit).1.Done?
      ensures Commit(cfg.hs, (call.amount, wit.owner, call.msg.value.auditor, wit.blinding)) == call.msg.value.commitment
    {
    }
  }

  /** A deposit the wallet has built, while the token holds its amount. */
  ghost predicate DepositPending(cfg: Config, w: World, i: nat, key: Fe, note: Note, viewCtHash: Fe) {
    && 0 <= note.amount < U128_MODULUS && note.owner == OwnerPubkey(cfg.hs, key)
    && i < |w.incoming| && w.incoming[i] == Incoming(note.amount, Some(DepositOf(cfg.hs, note, viewCtHash)), Stage.Held)
  }

  /**
   * Unless the pool is paused or full the wallet's deposit lands: the note is held at the next
   * leaf, which has not been spent, whatever its amount; or the run's hash inputs break.
   */
  lemma DepositLands(cfg: Config, supply: nat, events: seq<Event>, i: nat, key: Fe, note: Note, viewCtHash: Fe)
    requires supply < U128_MODULUS && DepositPending(cfg, Run(cfg, supply, events), i, key, note, viewCtHash)
    requires var s := Run(cfg, supply, events).pool; !s.paused && |s.leaves| < Pow(2, TREE_DEPTH)
    ensures var w := Run(cfg, supply, events);
            var wit, c := DepositWitness(note.owner, note.blinding, viewCtHash), CommitNote(cfg.hs, note);
            var w' := Run(cfg, supply, events + [Receive(i, wit)]);
            && w'.pool.leaves == w.pool.leaves + [c]
            && Owned(cfg.hs, key, w'.pool.leaves, DiscoveredNote(|w.pool.leaves|, note, c, None))
            && w'.deposited == w.deposited + note.amount
            && (ExhibitsFlaw(cfg, w.history) || |w.pool.leaves| !in w'.history.spent)
  {
    var w, wit := Run(cfg, supply, events), DepositWitness(note.owner, note.blinding, viewCtHash);
    var more := events + [Receive(i, wit)];
    assert more[..|more| - 1] == events;
    Widths();
    ModSmall(note.amount, P);
    ModSmall(|w.pool.leaves|, P);
    SoundOrFlaw(cfg, w.history);
    if Sound(cfg, w.history) {
      SoundRun(cfg, supply, events);
      SpentInRange(cfg, w);
    }
  }

  /** The two events that put a wallet's note into an empty pool. */
  function FirstDeposit(hs: Hashes, note: Note, viewCtHash: Fe): seq<Event>
    requires 0 <= note.amount < U128_MODULUS
  {
    [TransferIn(note.amount, Some(DepositOf(hs, note, viewCtHash))),
     Receive(0, DepositWitness(note.owner, note.blinding, viewCtHash))]
  }

  lemma FirstTransferIn(cfg: Config, supply: nat, note: Note, viewCtHash: Fe)
    requires 0 <= note.amount <= supply < U128_MODULUS
    ensures var w := Run(cfg, supply, FirstDeposit(cfg.hs, note, viewCtHash)[..1]);
            && w.pool == INITIAL && w.history == NO_HISTORY
            && w.incoming == [Incoming(note.amount, Some(DepositOf(cfg.hs, note, viewCtHash)), Stage.Held)]
  {
    var first := FirstDeposit(cfg.hs, note, viewCtHash)[..1];
    assert first[..0] == [] && Run(cfg, supply, first) == Step(cfg, Genesis(supply), first[0]);
  }

  /** They make any note of up to the whole supply, held and unspent, in a pool that is not paused. */
  lemma FirstNote(cfg: Config, supply: nat, key: Fe, note: Note, viewCtHash: Fe)
    requires 0 <= note.amount <= supply < U128_MODULUS && note.owner == OwnerPubkey(cfg.hs, key)
    ensures var w := Run(cfg, supply, FirstDeposit(cfg.hs, note, viewCtHash));
            && Owned(cfg.hs, key, w.pool.leaves, DiscoveredNote(0, note, CommitNote(cfg.hs, note), None))
            && w.pool.leaves == [CommitNote(cfg.hs, note)] && !w.pool.paused && w.history.spent == map[]
  {
    var events := FirstDeposit(cfg.hs, note, viewCtHash);
    Widths();
    FirstTransferIn(cfg, supply, note, viewCtHash);
    DepositLands(cfg, supply, events[..1], 0, key, note, viewCtHash);
    assert events[..1] + [events[1]] == events && events[..|events| - 1] == events[..1];
  }

  /**
   * So notes of 2^64 and more exist: one deposit into an empty pool makes one, and no withdrawal
   * that verifies ever opens it.
   */
  lemma LargeNoteStuck(cfg: Config, supply: nat, key: Fe, note: Note, viewCtHash: Fe)
    requires 0x1_0000_0000_0000_0000 <= note.amount <= supply < U128_MODULUS && note.owner == OwnerPubkey(cfg.hs, key)
    ensures Owned(cfg.hs, key, Run(cfg, supply, FirstDeposit(cfg.hs, note, viewCtHash)).pool.leaves,
                  DiscoveredNote(0, note, CommitNote(cfg.hs, note), None))
    ensures forall pub, wit :: WithdrawSat(cfg.hs, pub, wit) ==> wit.note.opening != OpeningOf(note)
  {
    FirstNote(cfg, supply, key, note, viewCtHash);
    Widths();
    ModSmall(note.amount, P);
    forall pub, wit | WithdrawSat(cfg.hs, pub, wit)
      ensures wit.note.opening != OpeningOf(note)
    {
      WithdrawWhole(cfg.hs, pub, wit);
    }
  }

  // ----- what an accepted payment leaves behind -----

  /**
   * An accepted payment adds the recipient's note and the change at the next two leaves, each held
   * under its owner's key and unspent; or the run's hash inputs break.
   */
  lemma PaymentLands(
    cfg: Config, supply: nat, events: seq<Event>, key: Fe, a: DiscoveredNote, b: DiscoveredNote,
    req: TransferRequest, s: Supplied, wit: TransferWitness, recipientKey: Fe)
    requires supply < U128_MODULUS && req.recipientOwner == OwnerPubkey(cfg.hs, recipientKey)
    requires BuildTransfer(cfg.hs, key, a, b, req, s).Built?
    requires var built := BuildTransfer(cfg.hs, key, a, b, req, s);
             && Completes(built.inputs, wit)
             && Transfer(cfg, Run(cfg, supply, events).pool, built.pub, TransferSat(cfg.hs, built.pub, wit)).1.Done?
    ensures var w, pub := Run(cfg, supply, events), BuildTransfer(cfg.hs, key, a, b, req, s).pub;
            var w', first := Run(cfg, supply, events + [SubmitTransfer(pub, wit)]), |w.pool.leaves|;
            var paid, change := RecipientNote(req, s), ChangeNote(cfg.hs, key, a, b, req, s);
            && w'.pool.leaves == w.pool.leaves + [CommitNote(cfg.hs, paid), CommitNote(cfg.hs, change)]
            && Owned(cfg.hs, recipientKey, w'.pool.leaves, DiscoveredNote(first, paid, CommitNote(cfg.hs, paid), None))
            && Owned(cfg.hs, key, w'.pool.leaves, DiscoveredNote(first + 1, change, CommitNote(cfg.hs, change), None))
            && (ExhibitsFlaw(cfg, w'.history) || (first !in w'.history.spent && first + 1 !in w'.history.spent))
  {
    var w, pub := Run(cfg, supply, events), BuildTransfer(cfg.hs, key, a, b, req, s).pub;
    var more := events + [SubmitTransfer(pub, wit)];
    assert more[..|more| - 1] == events;
    AcceptedTransfer(cfg, w.pool, pub, wit);
    OutputsOwned(cfg, w.pool.leaves, key, a, b, req, s, wit, recipientKey);
    var w' := Run(cfg, supply, more);
    assert w' == StepTransfer(cfg, w, pub, wit);
    SoundOrFlaw(cfg, w'.history);
    if Sound(cfg, w'.history) {
      StepExtends(cfg, w, SubmitTransfer(pub, wit));
      SoundEarlier(cfg, w.history, w'.history);
      SoundRun(cfg, supply, events);
      SpentBelow(cfg, w, pub, wit);
    }
  }

  /** The witness is the prover's completion of these inputs. */
  predicate Completes(p: ProverInputs, wit: TransferWitness) {
    wit == Complete(p, wit.in0.bits, wit.in0.cur, wit.in1.bits, wit.in1.cur)
  }

  lemma OutputsOwned(
    cfg: Config, leaves: seq<Fe>, key: Fe, a: DiscoveredNote, b: DiscoveredNote, req: TransferRequest, s: Supplied,
    wit: TransferWitness, recipientKey: Fe)
    requires |leaves| + 2 <= Pow(2, TREE_DEPTH) && req.recipientOwner == OwnerPubkey(cfg.hs, recipientKey)
    requires BuildTransfer(cfg.hs, key, a, b, req, s).Built?
    requires var built := BuildTransfer(cfg.hs, key, a, b, req, s);
             Completes(built.inputs, wit) && TransferSat(cfg.hs, built.pub, wit)
    ensures var paid, change := RecipientNote(req, s), ChangeNote(cfg.hs, key, a, b, req, s);
            var after := leaves + [CommitNote(cfg.hs, paid), CommitNote(cfg.hs, change)];
            && Owned(cfg.hs, recipientKey, after, DiscoveredNote(|leaves|, paid, CommitNote(cfg.hs, paid), None))
            && Owned(cfg.hs, key, after, DiscoveredNote(|leaves| + 1, change, CommitNote(cfg.hs, change), None))
  {
    Widths();
    ModSmall(|leaves|, P);
    ModSmall(|leaves| + 1, P);
    AmountsInRange(a, b, req, ChangeNote(cfg.hs, key, a, b, req, s).amount);
  }

  /** An accepted transfer spends leaves that were there before it. */
  lemma SpentBelow(cfg: Config, w: World, pub: TransferPublic, wit: TransferWitness)
    requires Inv(cfg, w) && Sound(cfg, StepTransfer(cfg, w, pub, wit).history)
    requires Transfer(cfg, w.pool, pub, TransferSat(cfg.hs, pub, wit)).1.Done?
    ensures forall i :: i in StepTransfer(cfg, w, pub, wit).history.spent ==> i < |w.pool.leaves|
  {
    var after := StepTransfer(cfg, w, pub, wit).history;
    AcceptedTransfer(cfg, w.pool, pub, wit);
    SpentInRange(cfg, w);
    SoundEarlier(cfg, RecordSpend(cfg, w.history, wit.spendingKey, wit.in0), after);
    SoundEarlier(cfg, RecordSpend(cfg, w.history, wit.spendingKey, wit.in1), after);
    WindowInclusion(cfg, w.pool, w.history, pub.root, pub.nullifier0, wit.spendingKey, wit.in0);
    WindowInclusion(cfg, w.pool, w.history, pub.root, pub.nullifier1, wit.spendingKey, wit.in1);
  }

  // ----- the client -----

  /**
   * After any run and any calls of `ingest`, on whatever events, the client's root is the pool's
   * exactly when what fits its tree is the pool's leaves in order and then nothing but zeros;
   * and when the events were the pool's, exactly when its leaves are the pool's; or the run
   * commits to zero or breaks, or the two trees' pairs collide.
   */
  lemma ClientInStep(cfg: Config, supply: nat, events: seq<Event>, calls: seq<seq<CommitmentEvent>>)
    requires supply < U128_MODULUS
    ensures var w, local := Run(cfg, supply, events), CommitmentsOf(AppendedOver(calls));
            var leaves, fit := w.pool.leaves, Fitting(local);
            var treePairs := Pairs(cfg.hs.p2, fit, TREE_DEPTH, 0) + Pairs(cfg.hs.p2, leaves, TREE_DEPTH, 0);
            var same := Root(cfg.hs.p2, local, TREE_DEPTH) == Root(cfg.hs.p2, leaves, TREE_DEPTH);
            || ExhibitsFlaw(cfg, w.history.(pairs := w.history.pairs + treePairs))
            || (&& (same <==> leaves <= fit && forall i :: |leaves| <= i < |fit| ==> fit[i] == 0)
                && (AllFromChain(calls, leaves) ==> (same <==> local == leaves)))
  {
    var w, local := Run(cfg, supply, events), CommitmentsOf(AppendedOver(calls));
    var treePairs := Pairs(cfg.hs.p2, Fitting(local), TREE_DEPTH, 0) + Pairs(cfg.hs.p2, w.pool.leaves, TREE_DEPTH, 0);
    var after := w.history.(pairs := w.history.pairs + treePairs);
    SoundOrFlaw(cfg, after);
    if Sound(cfg, after) {
      SoundEarlier(cfg, w.history, after);
      SoundOrFlaw(cfg, w.history);
      FewerPairs(cfg.hs.p2, treePairs, after.pairs);
      LeavesNonZero(cfg, supply, events);
      RootsArePrefixRoots(cfg, supply, events);
      MatchMeansInStep(cfg.hs.p2, calls, w.pool.leaves);
      SamePaddedExactly(Fitting(local), w.pool.leaves);
    }
  }
}
