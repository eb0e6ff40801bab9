/** The Circom constraint systems, read as conditions on public signals and a witness. */
module Circuits {
  import opened Arithmetic
  import opened Limbs
  import opened Residues
  import opened Merkle
  import opened Inclusion

  type Hash4 = (Fe, Fe, Fe, Fe) -> Fe

  /** Poseidon of two and of four inputs, left open. */
  datatype Hashes = Hashes(p2: Hash2, p4: Hash4)

  // ----- lib/commit.circom -----

  /** The opening of a commitment: amount, owner, auditor, blinding. */
  type Opening = (Fe, Fe, Fe, Fe)

  function Commit(hs: Hashes, o: Opening): Fe {
    hs.p4(o.0, o.1, o.2, o.3)
  }

  function OwnerPubkey(hs: Hashes, spendingKey: Fe): Fe {
    hs.p2(spendingKey, 0)
  }

  function Nullifier(hs: Hashes, spendingKey: Fe, commitment: Fe, leafIndex: Fe): Fe {
    hs.p2(spendingKey, hs.p2(commitment, leafIndex))
  }

  // ----- lib/range.circom -----

  ghost predicate RangeCheck(n: nat, x: Fe) {
    exists bits: seq<bit> :: Num2Bits(n, x, bits)
  }

  lemma RangeCheckExact(n: nat, x: Fe)
    requires Pow(2, n) <= P
    ensures RangeCheck(n, x) <==> x < Pow(2, n)
  {
    Num2BitsExact(n, x, LowBits(x, n));
    if RangeCheck(n, x) {
      var bits: seq<bit> :| Num2Bits(n, x, bits);
      Num2BitsExact(n, x, bits);
    }
  }

  lemma Widths()
    ensures Pow(2, 20) == 0x10_0000 < Pow(2, 64) == 0x1_0000_0000_0000_0000 < P
    ensures Pow(2, 128) == 0x1_0000_0000_0000_0000_0000_0000_0000_0000 && 2 * Pow(2, 128) < P
  {
    assert Pow(2, 4) == 16;
    PowAdd(2, 4, 4);
    PowAdd(2, 8, 8);
    PowAdd(2, 16, 4);
    PowAdd(2, 16, 16);
    PowAdd(2, 32, 32);
    PowAdd(2, 64, 64);
  }

  ghost predicate U64Geq(a: Fe, b: Fe) {
    RangeCheck(64, a) && RangeCheck(64, b) && RangeCheck(64, (a - b) % P)
  }

  /** The comparison circuit is satisfiable exactly for 64-bit inputs in order, as integers. */
  lemma U64GeqExact(a: Fe, b: Fe)
    ensures U64Geq(a, b) <==> a < Pow(2, 64) && b < Pow(2, 64) && a >= b
  {
    Widths();
    RangeCheckExact(64, a);
    RangeCheckExact(64, b);
    RangeCheckExact(64, (a - b) % P);
    if a >= b {
      ModSmall(a - b, P);
    } else {
      ModShift(a - b, a - b + P, -1, P);
      ModSmall(a - b + P, P);
    }
  }

  // ----- deposit.circom -----

  datatype DepositPublic = DepositPublic(commitment: Fe, amount: Fe, auditor: Fe, viewCtHash: Fe)
  datatype DepositWitness = DepositWitness(owner: Fe, blinding: Fe, viewCtHash: Fe)

  function DepositOpening(pub: DepositPublic, w: DepositWitness): Opening {
    (pub.amount, w.owner, pub.auditor, w.blinding)
  }

  predicate DepositSat(hs: Hashes, pub: DepositPublic, w: DepositWitness) {
    && Commit(hs, DepositOpening(pub, w)) == pub.commitment
    && pub.viewCtHash == w.viewCtHash
  }

  // ----- a spent note, as transfer.circom and withdraw.circom constrain it -----

  datatype SpentNote = SpentNote(opening: Opening, leafIndex: Fe, bits: seq<bit>, path: seq<Fe>, cur: seq<Fe>)

  /** Ownership, nullifier and inclusion of one input note. */
  predicate Spends(hs: Hashes, root: Fe, nullifier: Fe, spendingKey: Fe, note: SpentNote) {
    && OwnerPubkey(hs, spendingKey) == note.opening.1
    && Nullifier(hs, spendingKey, Commit(hs, note.opening), note.leafIndex) == nullifier
    && Num2Bits(TREE_DEPTH, note.leafIndex, note.bits)
    && MerkleInclusion(hs.p2, Commit(hs, note.opening), root, note.bits, note.path, note.cur)
  }

  // ----- transfer.circom -----

  datatype TransferPublic = TransferPublic(
    root: Fe, nullifier0: Fe, nullifier1: Fe, commitment0: Fe, commitment1: Fe,
    auditor: Fe, recipientAuditor: Fe, viewCtHashSender: Fe, viewCtHashRecipient: Fe)

  datatype TransferWitness = TransferWitness(
    in0: SpentNote, in1: SpentNote, spendingKey: Fe, out0: Opening, out1: Opening,
    viewCtHashSender: Fe, viewCtHashRecipient: Fe)

  /** `Transfer(20)`; the auditor entries of the openings are the public auditor signals. */
  ghost predicate TransferSat(hs: Hashes, pub: TransferPublic, w: TransferWitness) {
    && w.in0.opening.2 == pub.auditor && w.in1.opening.2 == pub.auditor
    && Spends(hs, pub.root, pub.nullifier0, w.spendingKey, w.in0)
    && Spends(hs, pub.root, pub.nullifier1, w.spendingKey, w.in1)
    && pub.nullifier0 != pub.nullifier1
    && w.out0.2 == pub.recipientAuditor && Commit(hs, w.out0) == pub.commitment0
    && w.out1.2 == pub.recipientAuditor && Commit(hs, w.out1) == pub.commitment1
    && RangeCheck(128, w.in0.opening.0) && RangeCheck(128, w.in1.opening.0)
    && RangeCheck(128, w.out0.0) && RangeCheck(128, w.out1.0)
    && FeAdd(w.in0.opening.0, w.in1.opening.0) == FeAdd(w.out0.0, w.out1.0)
    && pub.viewCtHashSender == w.viewCtHashSender
    && pub.viewCtHashRecipient == w.viewCtHashRecipient
  }

  /** Value is conserved over the integers: neither sum of two 128-bit amounts wraps the field. */
  lemma TransferConserves(hs: Hashes, pub: TransferPublic, w: TransferWitness)
    requires TransferSat(hs, pub, w)
    ensures w.in0.opening.0 + w.in1.opening.0 == w.out0.0 + w.out1.0
    ensures w.out0.0 < Pow(2, 128) && w.out1.0 < Pow(2, 128)
  {
    Widths();
    RangeCheckExact(128, w.in0.opening.0);
    RangeCheckExact(128, w.in1.opening.0);
    RangeCheckExact(128, w.out0.0);
    RangeCheckExact(128, w.out1.0);
    ModSmall(w.in0.opening.0 + w.in1.opening.0, P);
    ModSmall(w.out0.0 + w.out1.0, P);
  }

  /** One witness proves one set of public signals: each of them is fixed by the witness. */
  lemma TransferSignalsFixed(hs: Hashes, pub: TransferPublic, other: TransferPublic, w: TransferWitness)
    requires TransferSat(hs, pub, w) && TransferSat(hs, other, w)
    ensures pub == other
  {
  }

  // ----- withdraw.circom -----

  datatype WithdrawPublic = WithdrawPublic(
    root: Fe, nullifier: Fe, recipient: Fe, amount: Fe, relayer: Fe, relayerFee: Fe, auditor: Fe, viewCtHash: Fe)

  datatype WithdrawWitness = WithdrawWitness(note: SpentNote, spendingKey: Fe, viewCtHash: Fe)

  /** `Withdraw(20)`; the squares of recipient and relayer constrain nothing further. */
  ghost predicate WithdrawSat(hs: Hashes, pub: WithdrawPublic, w: WithdrawWitness) {
    && Spends(hs, pub.root, pub.nullifier, w.spendingKey, w.note)
    && w.note.opening.0 == pub.amount
    && w.note.opening.2 == pub.auditor
    && U64Geq(pub.amount, pub.relayerFee)
    && pub.viewCtHash == w.viewCtHash
  }

  /** A withdrawal that verifies spends the whole note, and its fee is within the amount. */
  lemma WithdrawWhole(hs: Hashes, pub: WithdrawPublic, w: WithdrawWitness)
    requires WithdrawSat(hs, pub, w)
    ensures w.note.opening.0 == pub.amount && pub.relayerFee <= pub.amount < Pow(2, 64)
    ensures w.note.leafIndex < Pow(2, TREE_DEPTH)
  {
    U64GeqExact(pub.amount, pub.relayerFee);
    Widths();
    Num2BitsExact(TREE_DEPTH, w.note.leafIndex, w.note.bits);
  }

  /** The witness fixes everything but who is paid and the fee, which only the fee bound restricts. */
  lemma WithdrawSignalsFixed(hs: Hashes, pub: WithdrawPublic, other: WithdrawPublic, w: WithdrawWitness)
    requires WithdrawSat(hs, pub, w)
    ensures WithdrawSat(hs, other, w)
            <==> (other == pub.(recipient := other.recipient, relayer := other.relayer, relayerFee := other.relayerFee)
                  && other.relayerFee <= pub.amount)
  {
    U64GeqExact(pub.amount, pub.relayerFee);
    U64GeqExact(other.amount, other.relayerFee);
  }

  /** For deposits it fixes the commitment and the disclosure, given the amount and the auditor. */
  lemma DepositSignalsFixed(hs: Hashes, pub: DepositPublic, other: DepositPublic, w: DepositWitness)
    requires DepositSat(hs, pub, w)
    ensures DepositSat(hs, other, w)
            <==> (other.commitment == hs.p4(other.amount, w.owner, other.auditor, w.blinding) && other.viewCtHash == pub.viewCtHash)
  {
  }

  // ----- the hash inputs a proof commits to -----

  /** Poseidon-2 inputs behind one spent note. */
  ghost function SpendPairs(hs: Hashes, spendingKey: Fe, note: SpentNote): set<(Fe, Fe)>
    requires |note.bits| == |note.path| && |note.cur| == |note.bits| + 1
  {
    var c := Commit(hs, note.opening);
    {(spendingKey, 0), (c, note.leafIndex), (spendingKey, hs.p2(c, note.leafIndex))}
    + PathPairs(note.bits, note.path, note.cur)
  }

  ghost predicate Opened(openings: set<Opening>, o: Opening) {
    o in openings
  }

  /** No two of the given openings commit to one value, and none commits to zero. */
  ghost predicate Binding(hs: Hashes, openings: set<Opening>) {
    && (forall a, b {:trigger Opened(openings, a), Opened(openings, b)} ::
          Opened(openings, a) && Opened(openings, b) && Commit(hs, a) == Commit(hs, b) ==> a == b)
    && forall a {:trigger Opened(openings, a)} :: Opened(openings, a) ==> Commit(hs, a) != 0
  }

  lemma SameOpening(hs: Hashes, openings: set<Opening>, a: Opening, b: Opening)
    requires Binding(hs, openings) && a in openings && b in openings && Commit(hs, a) == Commit(hs, b)
    ensures a == b && Commit(hs, a) != 0
  {
    assert Opened(openings, a) && Opened(openings, b);
  }
}
