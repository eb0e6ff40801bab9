/** The wallet: choosing two inputs, building a transfer, and when the circuit accepts it. */
module WalletModel {
  import opened Wrappers
  import opened Arithmetic
  import opened Limbs
  import opened Residues
  import opened Merkle
  import opened Inclusion
  import opened Circuits
  import opened AccountField

  /** A note as the SDK holds it; the amount is an unbounded integer. */
  datatype Note = Note(amount: int, owner: Fe, auditor: Fe, blinding: Fe)

  datatype DiscoveredNote = DiscoveredNote(leafIndex: nat, note: Note, commitment: Fe, auditorBytes: Option<seq<byte>>)

  /** A decrypted payload; nothing ties it to a leaf. */
  datatype Payload = Payload(leafIndex: nat, note: Note, auditorBytes: Option<seq<byte>>)

  /** `new Field(v)`: the residue of any integer. */
  function ToField(v: int): Fe {
    v % P
  }

  function OpeningOf(n: Note): Opening {
    (ToField(n.amount), n.owner, n.auditor, n.blinding)
  }

  function CommitNote(hs: Hashes, n: Note): Fe {
    Commit(hs, OpeningOf(n))
  }

  function Discovered(hs: Hashes, p: Payload): DiscoveredNote {
    DiscoveredNote(p.leafIndex, p.note, CommitNote(hs, p.note), p.auditorBytes)
  }

  /** The scanner recomputes the commitment from the decrypted note. */
  ghost predicate Scanned(hs: Hashes, n: DiscoveredNote) {
    n.commitment == CommitNote(hs, n.note)
  }

  /** `auditorPubkeyToField` takes keys of 32 bytes. */
  const KEY_LENGTH: nat := 32

  /** The decoder's one check: auditor bytes, where given, are a key that hashes to the note's auditor field. */
  predicate AuditorMatches(hs: Hashes, note: Note, auditorBytes: Option<seq<byte>>) {
    auditorBytes.Some? ==> |auditorBytes.value| == KEY_LENGTH && HashBytes(hs.p2, auditorBytes.value) == note.auditor
  }

  /** The payloads that decode, in order. */
  function Decoded(hs: Hashes, found: seq<Payload>): seq<DiscoveredNote> {
    if found == [] then []
    else
      var last := found[|found| - 1];
      Decoded(hs, found[..|found| - 1]) + if AuditorMatches(hs, last.note, last.auditorBytes) then [Discovered(hs, last)] else []
  }

  /** `sameBytes`: both present and equal. */
  predicate SameBytes(a: Option<seq<byte>>, b: Option<seq<byte>>) {
    a.Some? && b.Some? && a.value == b.value
  }

  /** Notes `i < j` may be spent together to cover `amount`. */
  predicate Eligible(notes: seq<DiscoveredNote>, spent: set<nat>, i: nat, j: nat, amount: int) {
    && i < j < |notes|
    && notes[i].leafIndex !in spent && notes[j].leafIndex !in spent
    && notes[i].note.auditor == notes[j].note.auditor
    && SameBytes(notes[i].auditorBytes, notes[j].auditorBytes)
    && notes[i].note.amount + notes[j].note.amount >= amount
  }

  predicate Before(i: nat, j: nat, k: nat, l: nat) {
    i < k || (i == k && j < l)
  }

  ghost predicate NoneEligible(notes: seq<DiscoveredNote>, spent: set<nat>, amount: int) {
    forall i: nat, j: nat :: !Eligible(notes, spent, i, j, amount)
  }

  /** `(i, j)` is the first eligible pair in scan order: what the wallet spends, known before the call. */
  ghost predicate First(notes: seq<DiscoveredNote>, spent: set<nat>, i: nat, j: nat, amount: int) {
    && Eligible(notes, spent, i, j, amount)
    && forall k: nat, l: nat :: Before(k, l, i, j) ==> !Eligible(notes, spent, k, l, amount)
  }

  /** `i` is the first unspent note of exactly this amount: what the wallet withdraws. */
  ghost predicate FirstExact(notes: seq<DiscoveredNote>, spent: set<nat>, i: nat, amount: int) {
    && i < |notes| && notes[i].note.amount == amount && notes[i].leafIndex !in spent
    && forall k :: 0 <= k < i ==> !(notes[k].note.amount == amount && notes[k].leafIndex !in spent)
  }

  class Wallet {
    const hs: Hashes
    const spendingKey: Fe
    var notes: seq<DiscoveredNote>
    var spent: set<nat>

    ghost predicate Valid()
      reads this
    {
      forall n :: n in notes ==> Scanned(hs, n) && AuditorMatches(hs, n.note, n.auditorBytes)
    }

    constructor (hs: Hashes, spendingKey: Fe)
      ensures Valid() && notes == [] && spent == {} && this.hs == hs && this.spendingKey == spendingKey
    {
      this.hs, this.spendingKey, notes, spent := hs, spendingKey, [], {};
    }

    /** `scan` on decrypted payloads: those that decode are kept, unchecked against the chain and not deduplicated. */
    method Scan(found: seq<Payload>)
      requires Valid()
      modifies this
      ensures Valid() && spent == old(spent) && notes == old(notes) + Decoded(hs, found)
    {
      for i := 0 to |found|
        invariant Valid() && spent == old(spent) && notes == old(notes) + Decoded(hs, found[..i])
      {
        assert found[..i + 1][..i] == found[..i];
        if AuditorMatches(hs, found[i].note, found[i].auditorBytes) {
          notes := notes + [Discovered(hs, found[i])];
        }
      }
      assert found[..|found|] == found;
    }

    method MarkSpent(leafIndex: nat)
      modifies this
      ensures spent == old(spent) + {leafIndex} && notes == old(notes)
    {
      spent := spent + {leafIndex};
    }

    /** `findTransferInputs`: the first eligible pair in scan order, or nothing only if there is none. */
    method FindTransferInputs(amount: int) returns (r: Option<(nat, nat)>)
      ensures r.None? ==> NoneEligible(notes, spent, amount)
      ensures r.Some? ==> First(notes, spent, r.value.0, r.value.1, amount)
    {
      for i := 0 to |notes|
        invariant forall k: nat, l: nat :: k < i ==> !Eligible(notes, spent, k, l, amount)
      {
        for j := i + 1 to |notes|
          invariant forall k: nat, l: nat :: Before(k, l, i, j) ==> !Eligible(notes, spent, k, l, amount)
        {
          var a, b := notes[i], notes[j];
          if a.leafIndex in spent || b.leafIndex in spent {
            continue;
          }
          if a.note.auditor != b.note.auditor {
            continue;
          }
          if !SameBytes(a.auditorBytes, b.auditorBytes) {
            continue;
          }
          if a.note.amount + b.note.amount >= amount {
            return Some((i, j));
          }
        }
      }
      return None;
    }

    /** `buildTransferProved`: select, then build from the selected pair, or throw. */
    method BuildTransferProved(req: TransferRequest, s: Supplied) returns (r: Built)
      ensures r.Rejected? <==> req.amount <= 0 || NoneEligible(notes, spent, req.amount)
      ensures forall i: nat, j: nat {:trigger First(notes, spent, i, j, req.amount)} ::
                First(notes, spent, i, j, req.amount) ==> r == BuildTransfer(hs, spendingKey, notes[i], notes[j], req, s)
    {
      if req.amount <= 0 {
        return Rejected;
      }
      var inputs := FindTransferInputs(req.amount);
      if inputs.None? {
        return Rejected;
      }
      var (i, j) := inputs.value;
      r := BuildTransfer(hs, spendingKey, notes[i], notes[j], req, s);
    }

    /** `buildWithdrawProved`: the first unspent note of exactly the amount, whatever leaf the given path is for. */
    method BuildWithdrawProved(req: WithdrawRequest) returns (r: Option<WithdrawPublic>)
      ensures r.None? <==> req.relayerFee > req.amount || |req.path| != TREE_DEPTH
                           || !exists i: nat :: FirstExact(notes, spent, i, req.amount) && notes[i].auditorBytes.Some?
      ensures forall i: nat {:trigger FirstExact(notes, spent, i, req.amount)} ::
                FirstExact(notes, spent, i, req.amount) && r.Some? ==> r.value == WithdrawInputsOf(hs, spendingKey, notes[i], req)
    {
      if req.relayerFee > req.amount || |req.path| != TREE_DEPTH {
        return None;
      }
      for i := 0 to |notes|
        invariant forall k :: 0 <= k < i ==> !(notes[k].note.amount == req.amount && notes[k].leafIndex !in spent)
      {
        if notes[i].note.amount == req.amount && notes[i].leafIndex !in spent {
          assert FirstExact(notes, spent, i, req.amount);
          if notes[i].auditorBytes.None? {
            return None;
          }
          return Some(WithdrawInputsOf(hs, spendingKey, notes[i], req));
        }
      }
      r := None;
    }

    /** Once a transfer is confirmed and its inputs are marked, the next selection stays off their leaves. */
    method SelectTwice(amount: int, next: int) returns (first: Option<(nat, nat)>, second: Option<(nat, nat)>)
      modifies this
      ensures notes == old(notes)
      ensures first.Some? ==> First(notes, old(spent), first.value.0, first.value.1, amount)
      ensures first.Some? ==> spent == old(spent) + {notes[first.value.0].leafIndex, notes[first.value.1].leafIndex}
      ensures first.None? ==> spent == old(spent) && NoneEligible(notes, spent, amount)
      ensures second.None? ==> NoneEligible(notes, spent, next)
      ensures second.Some? ==> First(notes, spent, second.value.0, second.value.1, next)
      ensures first.Some? && second.Some? ==>
                {notes[first.value.0].leafIndex, notes[first.value.1].leafIndex}
                !! {notes[second.value.0].leafIndex, notes[second.value.1].leafIndex}
    {
      first := FindTransferInputs(amount);
      if first.Some? {
        MarkSpent(notes[first.value.0].leafIndex);
        MarkSpent(notes[first.value.1].leafIndex);
      }
      second := FindTransferInputs(next);
    }
  }

  // ----- what a scan keeps, and what is selected -----

  /** A payload decodes to its own leaf index, note and bytes, with the commitment of the four components. */
  predicate DecodesTo(hs: Hashes, p: Payload, n: DiscoveredNote) {
    && (p.auditorBytes.None? || (|p.auditorBytes.value| == 32 && HashBytes(hs.p2, p.auditorBytes.value) == p.note.auditor))
    && n.leafIndex == p.leafIndex && n.note == p.note && n.auditorBytes == p.auditorBytes
    && n.commitment == hs.p4(p.note.amount % P, p.note.owner, p.note.auditor, p.note.blinding)
  }

  /** Exactly the payloads that decode come out of a scan. */
  lemma {:induction false} DecodedExactly(hs: Hashes, found: seq<Payload>, n: DiscoveredNote)
    ensures n in Decoded(hs, found) <==> exists i :: 0 <= i < |found| && DecodesTo(hs, found[i], n)
  {
    if found != [] {
      var init, last := found[..|found| - 1], found[|found| - 1];
      DecodedExactly(hs, init, n);
      if n in Decoded(hs, init) {
        var i :| 0 <= i < |init| && DecodesTo(hs, init[i], n);
        assert DecodesTo(hs, found[i], n);
      }
      if i :| 0 <= i < |found| && DecodesTo(hs, found[i], n) {
        assert i < |init| ==> found[i] == init[i];
      }
      if DecodesTo(hs, last, n) {
        assert Discovered(hs, last) == n;
      }
    }
  }

  /** One scan of two lists is two scans, so order and repetitions are kept. */
  lemma {:induction false} DecodedAppend(hs: Hashes, some: seq<Payload>, more: seq<Payload>)
    ensures Decoded(hs, some + more) == Decoded(hs, some) + Decoded(hs, more)
  {
    if more == [] {
      assert some + more == some;
    } else {
      var last := |more| - 1;
      assert (some + more)[..|some + more| - 1] == some + more[..last];
      DecodedAppend(hs, some, more[..last]);
    }
  }

  /** The selection is the least eligible pair, by its first position and then by its second. */
  lemma FirstIsLeast(notes: seq<DiscoveredNote>, spent: set<nat>, i: nat, j: nat, k: nat, l: nat, amount: int)
    requires First(notes, spent, i, j, amount) && Eligible(notes, spent, k, l, amount)
    ensures i < k || (i == k && j <= l)
  {
    assert !Before(k, l, i, j);
  }

  /** And a withdrawal takes the earliest note of the amount. */
  lemma FirstExactIsLeast(notes: seq<DiscoveredNote>, spent: set<nat>, i: nat, k: nat, amount: int)
    requires FirstExact(notes, spent, i, amount)
    requires k < |notes| && notes[k].note.amount == amount && notes[k].leafIndex !in spent
    ensures i <= k && notes[i].note.amount == amount && notes[i].leafIndex !in spent
  {
  }

  /**
   * When only two notes are unspent they are the selection exactly if they cover the amount under one
   * auditor field with the same auditor bytes, wherever their leaves are.
   */
  lemma OnlyPairSelected(notes: seq<DiscoveredNote>, spent: set<nat>, i: nat, j: nat, amount: int)
    requires i < j < |notes| && notes[i].leafIndex !in spent && notes[j].leafIndex !in spent
    requires forall k :: 0 <= k < |notes| && k != i && k != j ==> notes[k].leafIndex in spent
    ensures First(notes, spent, i, j, amount)
            <==> (&& notes[i].note.auditor == notes[j].note.auditor
                  && notes[i].auditorBytes.Some? && notes[i].auditorBytes == notes[j].auditorBytes
                  && amount <= notes[i].note.amount + notes[j].note.amount)
    ensures !First(notes, spent, i, j, amount) ==> NoneEligible(notes, spent, amount)
  {
  }

  // ----- building a transfer -----

  datatype TransferRequest = TransferRequest(amount: int, recipientOwner: Fe, recipientAuditor: Fe)

  /** What `buildTransferProved` draws or is given: blindings, disclosure hashes, root and paths. */
  datatype Supplied = Supplied(
    recipientBlinding: Fe, changeBlinding: Fe, viewCtHashSender: Fe, viewCtHashRecipient: Fe,
    root: Fe, path0: seq<Fe>, path1: seq<Fe>)

  datatype Built = Rejected | Built(pub: TransferPublic, inputs: ProverInputs)

  /** The private inputs handed to the prover; bits and intermediate signals are the prover's. */
  datatype ProverInputs = ProverInputs(
    in0: Opening, in0LeafIndex: Fe, in0Path: seq<Fe>,
    in1: Opening, in1LeafIndex: Fe, in1Path: seq<Fe>,
    spendingKey: Fe, out0: Opening, out1: Opening, viewCtHashSender: Fe, viewCtHashRecipient: Fe)

  /** `padPath`: exactly twenty entries, cut at the end or filled up with zeros. */
  function PadPath(path: seq<Fe>): (r: seq<Fe>)
    ensures |r| == TREE_DEPTH && (|path| == TREE_DEPTH ==> r == path)
    ensures forall i :: 0 <= i < TREE_DEPTH ==> r[i] == if i < |path| then path[i] else 0
  {
    if |path| >= TREE_DEPTH then path[..TREE_DEPTH] else path + seq(TREE_DEPTH - |path|, _ => 0)
  }

  function RecipientNote(req: TransferRequest, s: Supplied): Note {
    Note(req.amount, req.recipientOwner, req.recipientAuditor, s.recipientBlinding)
  }

  /** Change goes back to the wallet under the sender's auditor. */
  function ChangeNote(hs: Hashes, key: Fe, a: DiscoveredNote, b: DiscoveredNote, req: TransferRequest, s: Supplied): Note {
    Note(a.note.amount + b.note.amount - req.amount, OwnerPubkey(hs, key), a.note.auditor, s.changeBlinding)
  }

  /** `assertValueConserved`. */
  predicate ValueConservedCheck(recipient: int, change: int, total: int) {
    change >= 0 && recipient + change == total
  }

  /** `buildTransferProved` from the selected pair on; circuit signals carry the public auditors. */
  function BuildTransfer(hs: Hashes, key: Fe, a: DiscoveredNote, b: DiscoveredNote, req: TransferRequest, s: Supplied): Built {
    var recipient, change := RecipientNote(req, s), ChangeNote(hs, key, a, b, req, s);
    if req.amount <= 0 || a.auditorBytes.None?
       || !ValueConservedCheck(recipient.amount, change.amount, a.note.amount + b.note.amount) then Rejected
    else
      Built(
        TransferPublic(
          s.root,
          Nullifier(hs, key, a.commitment, ToField(a.leafIndex)), Nullifier(hs, key, b.commitment, ToField(b.leafIndex)),
          CommitNote(hs, recipient), CommitNote(hs, change),
          a.note.auditor, req.recipientAuditor, s.viewCtHashSender, s.viewCtHashRecipient),
        ProverInputs(
          (ToField(a.note.amount), a.note.owner, a.note.auditor, a.note.blinding), ToField(a.leafIndex), PadPath(s.path0),
          (ToField(b.note.amount), b.note.owner, a.note.auditor, b.note.blinding), ToField(b.leafIndex), PadPath(s.path1),
          key,
          (ToField(recipient.amount), recipient.owner, req.recipientAuditor, recipient.blinding),
          (ToField(change.amount), change.owner, req.recipientAuditor, change.blinding),
          s.viewCtHashSender, s.viewCtHashRecipient))
  }

  /**
   * The public signals name the disclosures and auditors they were given, and the two outputs commit to
   * what was asked for: the amount to the recipient under its blinding, the rest back to the key.
   */
  lemma BuiltSignals(hs: Hashes, key: Fe, a: DiscoveredNote, b: DiscoveredNote, req: TransferRequest, s: Supplied)
    requires BuildTransfer(hs, key, a, b, req, s).Built?
    ensures var pub := BuildTransfer(hs, key, a, b, req, s).pub;
            && pub.root == s.root && pub.auditor == a.note.auditor && pub.recipientAuditor == req.recipientAuditor
            && pub.viewCtHashSender == s.viewCtHashSender && pub.viewCtHashRecipient == s.viewCtHashRecipient
            && pub.nullifier0 == hs.p2(key, hs.p2(a.commitment, a.leafIndex % P))
            && pub.nullifier1 == hs.p2(key, hs.p2(b.commitment, b.leafIndex % P))
            && pub.commitment0 == hs.p4(req.amount % P, req.recipientOwner, req.recipientAuditor, s.recipientBlinding)
            && pub.commitment1 == hs.p4((a.note.amount + b.note.amount - req.amount) % P, hs.p2(key, 0), a.note.auditor,
                                        s.changeBlinding)
  {
  }

  function Complete(p: ProverInputs, bits0: seq<bit>, cur0: seq<Fe>, bits1: seq<bit>, cur1: seq<Fe>): TransferWitness {
    TransferWitness(
      SpentNote(p.in0, p.in0LeafIndex, bits0, p.in0Path, cur0), SpentNote(p.in1, p.in1LeafIndex, bits1, p.in1Path, cur1),
      p.spendingKey, p.out0, p.out1, p.viewCtHashSender, p.viewCtHashRecipient)
  }

  /** A proof exists: some bits and signals complete the inputs to a satisfying witness. */
  ghost predicate Provable(hs: Hashes, pub: TransferPublic, p: ProverInputs) {
    exists bits0, cur0, bits1, cur1 :: TransferSat(hs, pub, Complete(p, bits0, cur0, bits1, cur1))
  }

  // ----- one input -----

  /**
   * The note is the leaf at its index, under the wallet's key, with an amount the circuit can
   * range-check. A scan guarantees none of this: the sender wrote the note.
   */
  ghost predicate Owned(hs: Hashes, key: Fe, leaves: seq<Fe>, n: DiscoveredNote) {
    && ToField(n.leafIndex) < Pow(2, TREE_DEPTH)
    && Leaf(leaves, ToField(n.leafIndex)) == n.commitment
    && n.note.owner == OwnerPubkey(hs, key)
    && ToField(n.note.amount) < Pow(2, 128)
  }

  ghost predicate OnChain(hs: Hashes, key: Fe, leaves: seq<Fe>, n: DiscoveredNote, path: seq<Fe>) {
    && Owned(hs, key, leaves, n)
    && |path| == TREE_DEPTH && SiblingPath(hs.p2, leaves, ToField(n.leafIndex), path)
  }

  /** Some bits and signals pass ownership, nullifier and inclusion of the note along `path`. */
  ghost predicate InputProvable(hs: Hashes, root: Fe, key: Fe, n: DiscoveredNote, path: seq<Fe>) {
    exists bits, cur ::
      Spends(hs, root, Nullifier(hs, key, n.commitment, ToField(n.leafIndex)), key,
             SpentNote(OpeningOf(n.note), ToField(n.leafIndex), bits, path, cur))
  }

  lemma InputNeeds(hs: Hashes, root: Fe, key: Fe, n: DiscoveredNote, path: seq<Fe>)
    requires Scanned(hs, n) && |path| == TREE_DEPTH
    ensures InputProvable(hs, root, key, n, path)
            <==> n.note.owner == OwnerPubkey(hs, key) && Included(hs.p2, n.commitment, root, ToField(n.leafIndex), path)
  {
    var i, nullifier := ToField(n.leafIndex), Nullifier(hs, key, n.commitment, ToField(n.leafIndex));
    if n.note.owner == OwnerPubkey(hs, key) && Included(hs.p2, n.commitment, root, i, path) {
      var bits, cur :| Num2Bits(|path|, i, bits) && MerkleInclusion(hs.p2, n.commitment, root, bits, path, cur);
      assert Spends(hs, root, nullifier, key, SpentNote(OpeningOf(n.note), i, bits, path, cur));
    }
    if bits, cur :| Spends(hs, root, nullifier, key, SpentNote(OpeningOf(n.note), i, bits, path, cur)) {
      assert Num2Bits(|path|, i, bits) && MerkleInclusion(hs.p2, n.commitment, root, bits, path, cur);
    }
  }

  /** Under a tree's root an input passes exactly when its note is held and the path is its own. */
  lemma InputExactly(hs: Hashes, key: Fe, leaves: seq<Fe>, n: DiscoveredNote, path: seq<Fe>)
    requires Scanned(hs, n) && |path| == TREE_DEPTH
    requires CollisionFree(hs.p2, CheckPairs(hs.p2, n.commitment, ToField(n.leafIndex), path) + Pairs(hs.p2, leaves, TREE_DEPTH, 0))
    ensures OnChain(hs, key, leaves, n, path)
            <==> InputProvable(hs, Root(hs.p2, leaves, TREE_DEPTH), key, n, path) && ToField(n.note.amount) < Pow(2, 128)
  {
    Widths();
    InputNeeds(hs, Root(hs.p2, leaves, TREE_DEPTH), key, n, path);
    InclusionExactly(hs.p2, leaves, n.commitment, ToField(n.leafIndex), path);
  }

  ghost function NullifierPairs(hs: Hashes, key: Fe, n: DiscoveredNote): set<(Fe, Fe)> {
    {(n.commitment, ToField(n.leafIndex)), (key, hs.p2(n.commitment, ToField(n.leafIndex)))}
  }

  /** Under one key, nullifiers are equal only for one commitment at one index. */
  lemma NullifiersDiffer(hs: Hashes, key: Fe, a: DiscoveredNote, b: DiscoveredNote)
    requires CollisionFree(hs.p2, NullifierPairs(hs, key, a) + NullifierPairs(hs, key, b))
    ensures Nullifier(hs, key, a.commitment, ToField(a.leafIndex)) == Nullifier(hs, key, b.commitment, ToField(b.leafIndex))
            <==> a.commitment == b.commitment && ToField(a.leafIndex) == ToField(b.leafIndex)
  {
    var pairs := NullifierPairs(hs, key, a) + NullifierPairs(hs, key, b);
    var x, y := (a.commitment, ToField(a.leafIndex)), (b.commitment, ToField(b.leafIndex));
    if hs.p2(key, hs.p2(x.0, x.1)) == hs.p2(key, hs.p2(y.0, y.1)) {
      SameInputs(hs.p2, pairs, (key, hs.p2(x.0, x.1)), (key, hs.p2(y.0, y.1)));
      SameInputs(hs.p2, pairs, x, y);
    }
  }

  /** The hash inputs behind one input. */
  ghost function InputPairs(hs: Hashes, key: Fe, n: DiscoveredNote, path: seq<Fe>): set<(Fe, Fe)> {
    NullifierPairs(hs, key, n) + CheckPairs(hs.p2, n.commitment, ToField(n.leafIndex), path)
  }

  // ----- when a built transfer can be proved -----

  /** What the circuit asks beyond its two inputs. */
  ghost predicate Fits(hs: Hashes, key: Fe, a: DiscoveredNote, b: DiscoveredNote, req: TransferRequest, s: Supplied) {
    var change := ChangeNote(hs, key, a, b, req, s);
    && Nullifier(hs, key, a.commitment, ToField(a.leafIndex)) != Nullifier(hs, key, b.commitment, ToField(b.leafIndex))
    && ToField(a.note.amount) < Pow(2, 128) && ToField(b.note.amount) < Pow(2, 128)
    && ToField(req.amount) < Pow(2, 128) && ToField(change.amount) < Pow(2, 128)
    && CommitNote(hs, change.(auditor := req.recipientAuditor)) == CommitNote(hs, change)
  }

  /** The outputs balance the inputs as field elements, whatever the integers. */
  lemma OutputsBalance(a: int, b: int, amount: int)
    ensures FeAdd(ToField(a), ToField(b)) == FeAdd(ToField(amount), ToField(a + b - amount))
  {
    ModAdd(a, b, P);
    ModAdd(amount, a + b - amount, P);
  }

  lemma AmountsInRange(a: DiscoveredNote, b: DiscoveredNote, req: TransferRequest, change: int)
    ensures RangeCheck(128, ToField(a.note.amount)) <==> ToField(a.note.amount) < Pow(2, 128)
    ensures RangeCheck(128, ToField(b.note.amount)) <==> ToField(b.note.amount) < Pow(2, 128)
    ensures RangeCheck(128, ToField(req.amount)) <==> ToField(req.amount) < Pow(2, 128)
    ensures RangeCheck(128, ToField(change)) <==> ToField(change) < Pow(2, 128)
  {
    Widths();
    RangeCheckExact(128, ToField(a.note.amount));
    RangeCheckExact(128, ToField(b.note.amount));
    RangeCheckExact(128, ToField(req.amount));
    RangeCheckExact(128, ToField(change));
  }

  /**
   * A built transfer has a satisfying witness if and only if both inputs pass, the nullifiers
   * differ, all amounts fit 128 bits as field elements, and the change commits to the same
   * value under the recipient's auditor, where the circuit puts it, as under the sender's,
   * where the wallet does.
   */
  lemma BuiltProvable(hs: Hashes, key: Fe, a: DiscoveredNote, b: DiscoveredNote, req: TransferRequest, s: Supplied)
    requires a.note.auditor == b.note.auditor && BuildTransfer(hs, key, a, b, req, s).Built?
    ensures var built := BuildTransfer(hs, key, a, b, req, s);
            Provable(hs, built.pub, built.inputs)
            <==> (&& InputProvable(hs, s.root, key, a, PadPath(s.path0)) && InputProvable(hs, s.root, key, b, PadPath(s.path1))
                  && Fits(hs, key, a, b, req, s))
  {
    var built, change := BuildTransfer(hs, key, a, b, req, s), ChangeNote(hs, key, a, b, req, s);
    OutputsBalance(a.note.amount, b.note.amount, req.amount);
    AmountsInRange(a, b, req, change.amount);
    if bits0, cur0, bits1, cur1 :| TransferSat(hs, built.pub, Complete(built.inputs, bits0, cur0, bits1, cur1)) {
      var wit := Complete(built.inputs, bits0, cur0, bits1, cur1);
      assert wit.in0 == InputOf(a, s.path0, bits0, cur0) && wit.in1 == InputOf(b, s.path1, bits1, cur1);
    }
    if InputProvable(hs, s.root, key, a, PadPath(s.path0)) && InputProvable(hs, s.root, key, b, PadPath(s.path1))
       && Fits(hs, key, a, b, req, s) {
      InputsProvable(hs, key, a, b, req, s);
    }
  }

  function InputOf(n: DiscoveredNote, path: seq<Fe>, bits: seq<bit>, cur: seq<Fe>): SpentNote {
    SpentNote(OpeningOf(n.note), ToField(n.leafIndex), bits, PadPath(path), cur)
  }

  lemma InputsProvable(hs: Hashes, key: Fe, a: DiscoveredNote, b: DiscoveredNote, req: TransferRequest, s: Supplied)
    requires a.note.auditor == b.note.auditor && BuildTransfer(hs, key, a, b, req, s).Built?
    requires InputProvable(hs, s.root, key, a, PadPath(s.path0)) && InputProvable(hs, s.root, key, b, PadPath(s.path1))
    requires Fits(hs, key, a, b, req, s)
    ensures var built := BuildTransfer(hs, key, a, b, req, s); Provable(hs, built.pub, built.inputs)
  {
    var built, change := BuildTransfer(hs, key, a, b, req, s), ChangeNote(hs, key, a, b, req, s);
    var n0, n1 := Nullifier(hs, key, a.commitment, ToField(a.leafIndex)), Nullifier(hs, key, b.commitment, ToField(b.leafIndex));
    var bits0, cur0 :| Spends(hs, s.root, n0, key, SpentNote(OpeningOf(a.note), ToField(a.leafIndex), bits0, PadPath(s.path0), cur0));
    var bits1, cur1 :| Spends(hs, s.root, n1, key, SpentNote(OpeningOf(b.note), ToField(b.leafIndex), bits1, PadPath(s.path1), cur1));
    OutputsBalance(a.note.amount, b.note.amount, req.amount);
    AmountsInRange(a, b, req, change.amount);
    var wit := Complete(built.inputs, bits0, cur0, bits1, cur1);
    assert wit.in0 == InputOf(a, s.path0, bits0, cur0) && wit.in1 == InputOf(b, s.path1, bits1, cur1);
    assert TransferSat(hs, built.pub, wit);
  }

  /** Both outputs fit the circuit's range and go under the sender's auditor. */
  ghost predicate PaymentFits(a: DiscoveredNote, b: DiscoveredNote, req: TransferRequest) {
    && ToField(req.amount) < Pow(2, 128) && ToField(a.note.amount + b.note.amount - req.amount) < Pow(2, 128)
    && req.recipientAuditor == a.note.auditor
  }

  /** For amounts that were written as 128-bit integers these are comparisons of integers. */
  lemma PaymentFitsExactly(a: DiscoveredNote, b: DiscoveredNote, req: TransferRequest)
    requires 0 <= a.note.amount < Pow(2, 128) && 0 <= b.note.amount < Pow(2, 128)
    requires 0 < req.amount <= a.note.amount + b.note.amount
    ensures PaymentFits(a, b, req)
            <==> (&& req.amount < Pow(2, 128) && a.note.amount + b.note.amount - req.amount < Pow(2, 128)
                  && req.recipientAuditor == a.note.auditor)
  {
    Widths();
    ModSmall(req.amount, P);
    ModSmall(a.note.amount + b.note.amount - req.amount, P);
  }

  /** The hashes behind the two inputs, the tree and the change commitment do not collide. */
  ghost predicate Unbroken(
    hs: Hashes, key: Fe, leaves: seq<Fe>, a: DiscoveredNote, b: DiscoveredNote, req: TransferRequest, s: Supplied)
  {
    var change := ChangeNote(hs, key, a, b, req, s);
    && CollisionFree(hs.p2, InputPairs(hs, key, a, PadPath(s.path0)) + InputPairs(hs, key, b, PadPath(s.path1))
                            + Pairs(hs.p2, leaves, TREE_DEPTH, 0))
    && Binding(hs, {OpeningOf(change), OpeningOf(change.(auditor := req.recipientAuditor))})
  }

  /**
   * In terms a caller can check beforehand, for whatever notes a scan has found and whatever
   * paths are supplied: under the root of a tree, absent a collision among the hashes involved,
   * the condition is that both notes are held and the paths are theirs, at different leaves,
   * the outputs fit 128 bits, and the recipient's auditor is the sender's.
   */
  lemma ProvableExactly(
    hs: Hashes, key: Fe, leaves: seq<Fe>, a: DiscoveredNote, b: DiscoveredNote, req: TransferRequest, s: Supplied)
    requires Scanned(hs, a) && Scanned(hs, b) && a.note.auditor == b.note.auditor
    requires BuildTransfer(hs, key, a, b, req, s).Built? && s.root == Root(hs.p2, leaves, TREE_DEPTH)
    requires Unbroken(hs, key, leaves, a, b, req, s)
    ensures var built := BuildTransfer(hs, key, a, b, req, s);
            Provable(hs, built.pub, built.inputs)
            <==> (&& OnChain(hs, key, leaves, a, PadPath(s.path0)) && OnChain(hs, key, leaves, b, PadPath(s.path1))
                  && ToField(a.leafIndex) != ToField(b.leafIndex) && PaymentFits(a, b, req))
  {
    BuiltProvable(hs, key, a, b, req, s);
    UnbrokenInputs(hs, key, leaves, a, b, req, s);
    InputExactly(hs, key, leaves, a, PadPath(s.path0));
    InputExactly(hs, key, leaves, b, PadPath(s.path1));
    if Owned(hs, key, leaves, a) && Owned(hs, key, leaves, b) {
      FitsExactly(hs, key, a, b, req, s);
    }
  }

  /** What is left of the circuit's conditions once both notes are known to be leaves. */
  lemma FitsExactly(hs: Hashes, key: Fe, a: DiscoveredNote, b: DiscoveredNote, req: TransferRequest, s: Supplied)
    requires ToField(a.note.amount) < Pow(2, 128) && ToField(b.note.amount) < Pow(2, 128)
    requires ToField(a.leafIndex) == ToField(b.leafIndex) ==> a.commitment == b.commitment
    requires CollisionFree(hs.p2, NullifierPairs(hs, key, a) + NullifierPairs(hs, key, b))
    requires var change := ChangeNote(hs, key, a, b, req, s);
             Binding(hs, {OpeningOf(change), OpeningOf(change.(auditor := req.recipientAuditor))})
    ensures Fits(hs, key, a, b, req, s) <==> ToField(a.leafIndex) != ToField(b.leafIndex) && PaymentFits(a, b, req)
  {
    var change := ChangeNote(hs, key, a, b, req, s);
    var own, theirs := OpeningOf(change), OpeningOf(change.(auditor := req.recipientAuditor));
    NullifiersDiffer(hs, key, a, b);
    if Commit(hs, own) == Commit(hs, theirs) {
      SameOpening(hs, {own, theirs}, own, theirs);
    }
  }

  lemma UnbrokenInputs(
    hs: Hashes, key: Fe, leaves: seq<Fe>, a: DiscoveredNote, b: DiscoveredNote, req: TransferRequest, s: Supplied)
    requires Unbroken(hs, key, leaves, a, b, req, s)
    ensures CollisionFree(hs.p2, NullifierPairs(hs, key, a) + NullifierPairs(hs, key, b))
    ensures CollisionFree(hs.p2, CheckPairs(hs.p2, a.commitment, ToField(a.leafIndex), PadPath(s.path0))
                                 + Pairs(hs.p2, leaves, TREE_DEPTH, 0))
    ensures CollisionFree(hs.p2, CheckPairs(hs.p2, b.commitment, ToField(b.leafIndex), PadPath(s.path1))
                                 + Pairs(hs.p2, leaves, TREE_DEPTH, 0))
  {
    var all := InputPairs(hs, key, a, PadPath(s.path0)) + InputPairs(hs, key, b, PadPath(s.path1))
               + Pairs(hs.p2, leaves, TREE_DEPTH, 0);
    FewerPairs(hs.p2, NullifierPairs(hs, key, a) + NullifierPairs(hs, key, b), all);
    FewerPairs(hs.p2, CheckPairs(hs.p2, a.commitment, ToField(a.leafIndex), PadPath(s.path0))
                      + Pairs(hs.p2, leaves, TREE_DEPTH, 0), all);
    FewerPairs(hs.p2, CheckPairs(hs.p2, b.commitment, ToField(b.leafIndex), PadPath(s.path1))
                      + Pairs(hs.p2, leaves, TREE_DEPTH, 0), all);
  }

  /**
   * One leaf held at two positions, as after scanning its ciphertext twice, is a pair for every
   * amount up to the two entries' sum; a transfer built from it can never be proved.
   */
  lemma SameLeafUnprovable(
    hs: Hashes, key: Fe, notes: seq<DiscoveredNote>, spent: set<nat>, i: nat, j: nat, req: TransferRequest, s: Supplied)
    requires i < j < |notes| && notes[i].leafIndex == notes[j].leafIndex && notes[i].commitment == notes[j].commitment
    requires notes[i].leafIndex !in spent && notes[i].note.auditor == notes[j].note.auditor
    requires SameBytes(notes[i].auditorBytes, notes[j].auditorBytes)
    ensures Eligible(notes, spent, i, j, req.amount) <==> req.amount <= notes[i].note.amount + notes[j].note.amount
    ensures var built := BuildTransfer(hs, key, notes[i], notes[j], req, s);
            && (built.Built? <==> 0 < req.amount <= notes[i].note.amount + notes[j].note.amount)
            && (built.Built? ==> !Provable(hs, built.pub, built.inputs))
  {
  }

  /**
   * Paying a recipient who uses another auditor cannot be proved: the wallet commits the
   * change under the sender's auditor, the circuit under the recipient's.
   */
  lemma OtherAuditorUnprovable(hs: Hashes, key: Fe, a: DiscoveredNote, b: DiscoveredNote, req: TransferRequest, s: Supplied)
    requires a.note.auditor == b.note.auditor != req.recipientAuditor && BuildTransfer(hs, key, a, b, req, s).Built?
    requires var change := ChangeNote(hs, key, a, b, req, s);
             Binding(hs, {OpeningOf(change), OpeningOf(change.(auditor := req.recipientAuditor))})
    ensures var built := BuildTransfer(hs, key, a, b, req, s); !Provable(hs, built.pub, built.inputs)
  {
    var change := ChangeNote(hs, key, a, b, req, s);
    var own, theirs := OpeningOf(change), OpeningOf(change.(auditor := req.recipientAuditor));
    BuiltProvable(hs, key, a, b, req, s);
    if Commit(hs, own) == Commit(hs, theirs) {
      SameOpening(hs, {own, theirs}, own, theirs);
    }
  }

  // ----- building a withdrawal -----

  datatype WithdrawRequest = WithdrawRequest(
    amount: int, recipient: Fe, relayer: Fe, relayerFee: int, root: Fe, path: seq<Fe>, viewCtHash: Fe)

  /** The public inputs of `buildWithdrawProved` for the chosen note. */
  function WithdrawInputsOf(hs: Hashes, key: Fe, n: DiscoveredNote, req: WithdrawRequest): WithdrawPublic {
    WithdrawPublic(req.root, Nullifier(hs, key, n.commitment, ToField(n.leafIndex)), req.recipient, ToField(req.amount),
                   req.relayer, ToField(req.relayerFee), n.note.auditor, req.viewCtHash)
  }

  function WithdrawWitnessOf(key: Fe, n: DiscoveredNote, path: seq<Fe>, bits: seq<bit>, cur: seq<Fe>, viewCtHash: Fe)
    : WithdrawWitness
  {
    WithdrawWitness(SpentNote(OpeningOf(n.note), ToField(n.leafIndex), bits, path, cur), key, viewCtHash)
  }

  /** Some bits and signals complete the private inputs to a satisfying witness. */
  ghost predicate WithdrawProvable(hs: Hashes, key: Fe, n: DiscoveredNote, req: WithdrawRequest) {
    exists bits, cur ::
      WithdrawSat(hs, WithdrawInputsOf(hs, key, n, req), WithdrawWitnessOf(key, n, req.path, bits, cur, req.viewCtHash))
  }

  /**
   * The withdrawal of a scanned note can be proved if and only if the note is held, the path
   * supplied is its own, and as field elements fee <= amount < 2^64. Deposits and transfers
   * accept larger notes.
   */
  lemma WithdrawProvableExactly(hs: Hashes, key: Fe, leaves: seq<Fe>, n: DiscoveredNote, req: WithdrawRequest)
    requires Scanned(hs, n) && n.note.amount == req.amount
    requires |req.path| == TREE_DEPTH && req.root == Root(hs.p2, leaves, TREE_DEPTH)
    requires CollisionFree(hs.p2, CheckPairs(hs.p2, n.commitment, ToField(n.leafIndex), req.path)
                                  + Pairs(hs.p2, leaves, TREE_DEPTH, 0))
    ensures WithdrawProvable(hs, key, n, req)
            <==> OnChain(hs, key, leaves, n, req.path) && ToField(req.relayerFee) <= ToField(req.amount) < Pow(2, 64)
  {
    var pub := WithdrawInputsOf(hs, key, n, req);
    InputExactly(hs, key, leaves, n, req.path);
    Widths();
    U64GeqExact(pub.amount, pub.relayerFee);
    if OnChain(hs, key, leaves, n, req.path) && pub.relayerFee <= pub.amount < Pow(2, 64) {
      var bits, cur :| Spends(hs, req.root, pub.nullifier, key, SpentNote(OpeningOf(n.note), ToField(n.leafIndex), bits, req.path, cur));
      assert WithdrawSat(hs, pub, WithdrawWitnessOf(key, n, req.path, bits, cur, req.viewCtHash));
    }
    if bits, cur :| WithdrawSat(hs, pub, WithdrawWitnessOf(key, n, req.path, bits, cur, req.viewCtHash)) {
      assert Spends(hs, req.root, pub.nullifier, key, SpentNote(OpeningOf(n.note), ToField(n.leafIndex), bits, req.path, cur));
    }
  }
}
