# Shielded USDC pool: a verified model

This project models the privacy pool in three layers and proves what it is for.

* **Field arithmetic.** The contract's four-limb Montgomery code over the BN254 scalar field, its byte codecs
  and the Poseidon permutation, against plain arithmetic modulo `P`.
* **The Merkle tree, three times.** The contract's filled-subtree tree, the client's level-by-level tree and the
  circuit's inclusion check, all against one definition: `Merkle.Node`, the node of the tree padded with zeros.
  The window of recent roots and the client's event ingestion sit on top.
* **The pool as a state machine.** Deposits through `ft_transfer_call`, transfers, withdrawals, payouts as separate
  receipts that the token may execute or refuse, the recovery callback, claims, the pause switch, refunds and plain
  donations, interleaved freely. A panic leaves the state as it was. The token side follows NEP-141
  (`ft_transfer_call`, `ft_on_transfer`, `ft_resolve_transfer`).

Poseidon is an arbitrary function in the tree and pool results. Collisions exist by counting, so no result says that
some collision exists; each result is about the **hash inputs the run itself has used**. `History.pairs` holds every
pair hashed in the trees and in accepted proofs, `History.witnessed` every commitment opening, and
`Safety.ExhibitsFlaw` says that two of these collide or that one of the openings commits to zero (the value of an
unfilled leaf). A proof the verifier accepts is an event carrying a witness that satisfies the circuit.

What the model found in the code, each stated exactly below:

* A transfer to a recipient with another auditor than the sender's cannot be proved, although the documentation
  (`docs/ARCHITECTURE.md:264-266`) describes such transfers: the wallet commits the change under the sender's
  auditor, the circuit under the recipient's (`WalletModel.OtherAuditorUnprovable`, `WalletModel.ProvableExactly`).
* A note of 2^64 or more can be deposited and transferred but not withdrawn (`WalletModel.WithdrawProvableExactly`,
  `EndToEnd.LargeNoteStuck`).
* A withdrawal may name the pool itself as recipient or relayer. The token refuses a transfer to oneself, so that
  amount is owed for good (`Delivery.PoolNeverPaid`, `Exit.SelfPayoutForGood`); every other account can be paid in
  full (`Delivery.CanBePaidInFull`).
* A scan checks the auditor bytes of a decrypted note but not that it is a leaf, is the wallet's, or has a canonical
  amount. A payment
  succeeds only if the first pair the wallet picks is (`EndToEnd.Pay`, `WalletModel.ProvableExactly`).
* A withdrawal takes the first unspent note of the requested amount but the path the caller gives. With two notes of
  one amount these may differ; it can be proved exactly when both leaves have the same siblings (`EndToEnd.TakeOut`).
* `ingest` does not check who emitted an event. The root check then passes exactly when what fits the client's tree is
  the pool's leaves followed by nothing but zeros (`EndToEnd.ClientInStep`).
* A wallet that holds one unspent leaf at two positions, as after scanning its ciphertext twice, can pick it as both
  inputs, for any amount up to the two entries' sum; such a transfer cannot be proved
  (`WalletModel.SameLeafUnprovable`). Which pair the wallet picks is known before the call, and with distinct unspent
  notes it is at two leaves (`EndToEnd.Pay`).
* The client tree accepts leaves beyond the capacity, and its root silently ignores them
  (`TreeAgreement.RootIgnoresOverflow`).
* `negate_g1` maps the all-zero encoding of infinity to `(0, Q)` (`Groth16Codec.NegateTwice`).
* A byte string does not determine its length in the field: among strings with the same number of 31-byte chunks two
  share an element exactly when they differ only in trailing zeros (`AccountField.StringBound`), and a zero appended to
  a full last chunk hashes once more (`AccountField.TrailingZero`). Trailing zeros reach neither of its uses:
  account ids hold no zero byte (`AccountField.AccountBound`) and auditor keys have one length
  (`AccountField.KeyBound`).

## Files

| file | contents |
|---|---|
| `Wrappers.dfy`, `Arithmetic.dfy`, `Sums.dfy` | optional values; powers, positional values, congruences; totals over lists and maps |
| `Limbs.dfy`, `Residues.dfy`, `MontgomeryField.dfy`, `Poseidon.dfy`, `PoolHashes.dfy` | the field and the hash |
| `Merkle.dfy`, `IncrementalTree.dfy`, `ClientTree.dfy`, `Inclusion.dfy`, `TreeAgreement.dfy`, `PoolClientModel.dfy` | the trees |
| `Circuits.dfy`, `AccountField.dfy`, `Groth16Codec.dfy`, `WalletModel.dfy` | constraint systems, encodings, the wallet's builders |
| `ContractStores.dfy`, `Pool.dfy`, `ShieldedPool.dfy` | the contract object and the functions its methods refine |
| `NoteHistory.dfy`, `Ledger.dfy`, `LedgerInvariant.dfy`, `Safety.dfy` | runs, their invariant, and the theorems about them |
| `Availability.dfy`, `Delivery.dfy`, `EndToEnd.dfy`, `Exit.dfy` | when the pool accepts a spend, what it can still pay, the wallet and client objects against the running pool, and getting out |
| `Outcomes.dfy`, `HashInputs.dfy` | what accepted calls have opened and changed, and what the recorded hash inputs are |

`dafny verify dfyconfig.toml` checks the whole project.

## Model

| member | source | states |
|---|---|---|
| Safety.ConservationOrFlaw | contract/src/withdraw.rs:62-138 | after any events in any interleaving, deposits = unspent note value + payouts in flight + recovery book + delivered, the token balance adds up, and every account's promises are delivered, pending or booked; or the run contains a hash break |
| Safety.SolvencyOrFlaw | contract/src/withdraw.rs:72-87 | the token balance covers all notes, payouts, credits and refunds at once, so no payout fails for lack of funds and a rejected deposit is refunded in full |
| Safety.LeafSpentOnce | contract/src/withdraw.rs:42-62 | two successful spends of one leaf index in one run, by transfer or withdraw and under any window roots, force a hash break |
| Safety.TransferInputsDiffer | contract/src/transfer.rs:39-43 | a successful transfer spends two different leaves |
| Safety.BookNeverWraps | contract/src/withdraw.rs:106-118 | with a supply below 2^128 the unchecked addition of the recovery callback never wraps in any run |
| Safety.ShufflingKeepsOwed | contract/src/withdraw.rs:123-138 | any chain of started, refused and completed payouts and claims leaves what each account is owed unchanged |
| Safety.LeavesNonZero | contract/src/deposit.rs:88-100 | no leaf of a reachable state is the zero that pads the tree, or the run opens a commitment to zero or breaks |
| Safety.CurrentRootInWindow | contract/src/deposit.rs:99-100 | in every reachable state with a leaf the last pushed root is the current root, and acceptable |
| Availability.NullifierUsedExactly | contract/src/nullifiers.rs:17-23 | in every reachable state the owner's nullifier of a leaf is in the set exactly when that leaf was spent, so no other party's history freezes a note; or a hash break |
| Availability.StepAccounted | contract/src/withdraw.rs:42-62 | every event keeps: each nullifier in the set is that of a recorded spend |
| Availability.WithdrawAcceptedExactly | contract/src/withdraw.rs:32-62 | a withdrawal of any scanned note, built on the root after k events, is accepted after all events exactly when not paused, at most 29 tree updates since, the note a leaf of that tree under the key, the path its own, the leaf unspent now, fee <= amount < 2^64; or a hash break |
| Availability.TransferAcceptedExactly | contract/src/transfer.rs:26-70 | the same for a transfer built on the root after k events from any two scanned notes: not paused, room for two, at most 29 tree updates since, both notes held with their own paths, at different leaves unspent now, outputs of 128 bits, one auditor; or a hash break |
| EndToEnd.Pay | sdk/packages/sdk/src/wallet.ts:372-475 | from whatever a scan has found and the client's tree: refused exactly without a positive amount, a pair, or its leaves in the tree; otherwise provable exactly when both notes of the first pair are leaves under the key, at different places, outputs fit and the auditors agree, absent collisions |
| EndToEnd.PayThePool | contract/src/transfer.rs:26-70 | the same up to the pool's answer after further events have landed since the client was in step, with the root's age among the conditions |
| EndToEnd.TakeOut | sdk/packages/sdk/src/wallet.ts:497-557 | a withdrawal takes the first unspent note of the amount with the path of the caller's leaf; provable exactly when the note is held, both leaves have the same siblings, fee <= amount < 2^64, absent collisions |
| EndToEnd.TakeFromThePool | contract/src/withdraw.rs:32-62 | the same refusals, and the pool's answer after further events |
| EndToEnd.DepositAcceptedExactly | contract/src/ft.rs:17-33 | a transfer to the pool can be used for a deposit exactly with a message of the moved amount, not paused, room, and an opening of the commitment |
| EndToEnd.DepositLands | contract/src/deposit.rs:88-100 | the wallet's deposit of any 128-bit amount puts its note at the next leaf, unspent, unless paused or full; or a hash break |
| EndToEnd.PaymentLands | contract/src/transfer.rs:66-70 | an accepted payment puts the recipient's note and the change at the next two leaves, held under their owners' keys and unspent; or a hash break |
| EndToEnd.LargeNoteStuck | circom/circuits/withdraw.circom:27-32 | a run reaches a held note of 2^64 or more, which no verifying withdrawal opens |
| Delivery.CanBePaidInFull | contract/src/withdraw.rs:90-138 | from every reachable state some receipts and claims deliver exactly what was promised to any account but the pool; or a hash break |
| Delivery.PoolNeverPaid | contract/src/withdraw.rs:17-88 | in every run nothing is delivered to the pool itself and all it was promised stays owed; or a hash break |
| Exit.OwnerCanExit | contract/src/withdraw.rs:17-118 | in every reachable unpaused state four given events deliver a held unspent note below 2^64, less the fee, to any recipient but the pool; or a hash break |
| Exit.SelfPayoutForGood | contract/src/withdraw.rs:79-87 | a withdrawal to the pool itself is accepted too and its amount is owed to the pool in every continuation; or a hash break |
| Exit.SelfPayoutReached | contract/src/withdraw.rs:79-87 | a deposit into an empty pool and its withdrawal to the pool are such a run |
| EndToEnd.ClientInStep | sdk/packages/client/src/pool-client.ts:41-59 | after any run and any calls of ingest on whatever events, roots agree exactly when what fits the client's tree is the pool's leaves and then zeros; for the pool's own events, exactly when the leaves are the pool's; or a hash break |
| Safety.RootsArePrefixRoots | contract/src/transfer.rs:68-70 | in every reachable state every pushed root is the padded root of a prefix of the leaf list, with no assumption on the hash |
| Safety.WindowProofMeansLeaf | circom/circuits/lib/merkle.circom:8-20 | an inclusion witness under any window root of a reachable state proves the leaf at that index of the current tree, or yields a hash break |
| Safety.RootLifetime | contract/src/lib.rs:22-23 | with no assumption on the hash, a root current at some point is accepted exactly while at most 29 tree updates have followed, or if it was pushed again among the last 30 |
| Safety.RootsNeverRepeat | contract/src/deposit.rs:99-100 | any two roots pushed in a run differ; or a hash break |
| Safety.RootLifetimeExactly | contract/src/lib.rs:22-23 | so a root is accepted exactly while at most 29 tree updates have followed; or a hash break |
| Pool.CallBound | contract/src/withdraw.rs:47-56 | two withdrawals with zero-free ids of equal chunk counts have the same public inputs exactly if they are the same call, absent fold collisions |
| Safety.StepPushes | contract/src/transfer.rs:68-70 | one step pushes at most one root, also when it inserts two leaves |
| Safety.RunGrows | contract/src/merkle.rs:61-81 | over any run leaves and pushed roots only grow at the end |
| Safety.SoundOrFlaw | circom/circuits/lib/commit.circom:5-23 | the hypothesis of the run lemmas is exactly the absence of a break among the run's own hash inputs |
| LedgerInvariant.StepKeeps | contract/src/withdraw.rs:17-138 | every event keeps the ledger invariant |
| LedgerInvariant.TransferNotesKeep | contract/src/transfer.rs:39-70 | an accepted transfer makes two first spends and appends outputs of the same total value |
| LedgerInvariant.WithdrawKeeps | contract/src/withdraw.rs:39-87 | a withdrawal turns one note's value into payouts of that value |
| LedgerInvariant.PayoutsOwe | contract/src/withdraw.rs:79-87 | recipient and relayer payouts add up to the withdrawn amount, in total and per account |
| LedgerInvariant.PayoutsShare | contract/src/withdraw.rs:79-87 | every account is scheduled exactly its share: the recipient the amount less the fee, the relayer the fee, in one payout or, with a fee, two |
| LedgerInvariant.WithdrawPromises | contract/src/withdraw.rs:79-87 | an accepted withdrawal raises what is promised and owed to each account by exactly that share |
| LedgerInvariant.TransferEffect | contract/src/transfer.rs:66-79 | an accepted transfer changes only nullifiers, leaves and roots and schedules nothing |
| LedgerInvariant.ReceiveEffect | contract/src/deposit.rs:88-100 | an accepted deposit changes only leaves and roots and schedules nothing |
| Delivery.OthersPayNothing | contract/src/withdraw.rs:79-138 | no event but withdrawals, claims and receipts creates or moves a payout |
| Outcomes.WithdrawOpens | circom/circuits/withdraw.circom:17-30 | an accepted withdrawal opens a leaf recorded with exactly the withdrawn amount, the named auditor and the spender's public key, by that leaf's nullifier; or a hash break |
| Outcomes.TransferOpens | circom/circuits/transfer.circom:31-55 | both inputs of an accepted transfer are leaves recorded under the named auditor and the spender's key, spent by their own nullifiers; or a hash break |
| Outcomes.TransferAdds | contract/src/transfer.rs:66-70 | both leaves it appends commit to openings under the named recipient auditor, and exactly its two nullifiers are added |
| Outcomes.DepositOpens | circom/circuits/deposit.circom:10-13 | an accepted deposit appends the commitment of the message, which opens to the moved amount and the named auditor |
| Outcomes.PauseIsLastAsked | contract/src/lib.rs:73-79 | after any run the flag is what the owner last asked for, and off before that |
| Outcomes.PausedStandsStill | contract/src/withdraw.rs:32 | while paused no leaf, root, nullifier or promise is added |
| HashInputs.PairsAreUsed | contract/src/merkle.rs:61-81 | every recorded hash pair was hashed in the tree of a prefix of the leaves or for a spend of the run, so a break found among them is a real one |
| HashInputs.OpeningsAreUsed | circom/circuits/lib/commit.circom:5-11 | every recorded opening is that of a leaf or was shown by a spend of the run |
| Pool.DepositVerdict | contract/src/ft.rs:17-33 | the first failing check in source order names the panic, room among 2^20 leaves last; then exactly one leaf and one root are added |
| Pool.TransferVerdict | contract/src/transfer.rs:26-70 | the same for transfers: room for two of 2^20 last; exactly two nullifiers, two leaves in order and one root |
| Pool.WithdrawVerdict | contract/src/withdraw.rs:32-62 | the same for withdrawals; exactly one nullifier |
| Pool.ClaimVerdict | contract/src/withdraw.rs:123-138 | an absent and an empty entry panic; any other leaves the book and is sent to its owner, other entries stay |
| Pool.CompleteVerdict | contract/src/withdraw.rs:106-118 | below the width exactly a failed payout is booked, for its recipient alone |
| LedgerInvariant.AcceptedCall | contract/src/ft.rs:29-32 | an accepted deposit commits to exactly the amount the token moved |
| LedgerInvariant.CompleteFailed | contract/src/withdraw.rs:111-117 | a failed payout moves to the recovery book in full |
| LedgerInvariant.ClaimKeeps | contract/src/withdraw.rs:123-138 | a claim moves the whole entry back into flight |
| NoteHistory.SpendIsFirst | contract/src/withdraw.rs:39-43 | an accepted spend with an unused nullifier opens an occupied, never spent leaf |
| NoteHistory.SecondSpendRepeats | circom/circuits/lib/commit.circom:12-23 | spending a spent leaf again reproduces the first nullifier |
| NoteHistory.WindowInclusion | circom/circuits/lib/merkle.circom:8-20 | inclusion under a window root means equality with the current leaf |
| NoteHistory.AppendKeepsNotes | contract/src/deposit.rs:99-100 | appending keeps every leaf opened and every pushed root a prefix root |
| ShieldedPool.Contract.constructor | contract/src/lib.rs:50-69 | the empty pool |
| ShieldedPool.Contract.FtOnTransfer | contract/src/ft.rs:17-33 | predecessor, message and amount checks, then the deposit; refines `Pool.OnTransfer` |
| ShieldedPool.Contract.TransferNotes | contract/src/transfer.rs:26-70 | the whole new state and the panic taken; refines `Pool.Transfer` |
| ShieldedPool.Contract.WithdrawNote | contract/src/withdraw.rs:32-87 | nullifier spent and payouts scheduled; refines `Pool.Withdraw` |
| ShieldedPool.Contract.OnFtTransferComplete | contract/src/withdraw.rs:106-118 | credits a failed payout, addition modulo 2^128; refines `Pool.TransferComplete` |
| ShieldedPool.Contract.ClaimBy | contract/src/withdraw.rs:123-138 | empties the caller's entry and sends it, paused or not; refines `Pool.Claim` |
| ShieldedPool.Contract.SetPausedBy | contract/src/lib.rs:73-79 | only the owner switches the pause |
| ContractStores.RootsWindow.Push | contract/src/roots.rs:27-37 | the ring holds exactly the last `capacity` pushes |
| ContractStores.RootsWindow.Contains | contract/src/roots.rs:39-42 | accepts exactly the last `capacity` pushed roots |
| ContractStores.RecentLifetime | contract/src/roots.rs:27-42 | a pushed root survives exactly `capacity - 1` further pushes |
| ContractStores.NullifierSet.Insert | contract/src/nullifiers.rs:21-23 | reports a new nullifier exactly when the element was absent |
| ContractStores.NullifierSet.Contains | contract/src/nullifiers.rs:17-19 | membership by canonical bytes is membership of the element |
| IncrementalTree.IncrementalMerkleTree.constructor | contract/src/merkle.rs:24-42 | the empty tree has the root of a zero tree |
| IncrementalTree.IncrementalMerkleTree.Insert | contract/src/merkle.rs:61-81 | a full tree panics, otherwise the stored root is the padded root of the list with the leaf appended |
| IncrementalTree.IncrementalMerkleTree.RootElement | contract/src/merkle.rs:52-54 | the stored bytes decode to the padded root of all leaves |
| IncrementalTree.FilledAfterAppend | contract/src/merkle.rs:4-12 | where bit `l` of the count is set, slot `l` is the last complete height-`l` subtree, before and after an insert |
| Merkle.RootBindsLeaves | sdk/packages/client/src/pool-client.ts:54-59 | within the capacity, roots agree exactly for lists equal up to trailing zeros, or two hashed pairs collide |
| Merkle.SmallRoots | contract/src/merkle.rs:61-81 | the roots of one, two and three leaves spelled out: earlier leaves on the left, zeros where there are none |
| ClientTree.MerkleTree.NextLevel | sdk/packages/client/src/merkle-tree.ts:46-54 | one level up of the padded tree |
| ClientTree.MerkleTree.RootElement | sdk/packages/client/src/merkle-tree.ts:24-29 | the padded depth-20 root, for a list of any length |
| ClientTree.MerkleTree.PathFor | sdk/packages/client/src/merkle-tree.ts:31-44 | the sibling path of a present leaf, an error beyond the list |
| TreeAgreement.RootsAgree | contract/src/merkle.rs:52-81 | on the same leaves client and contract report one root |
| TreeAgreement.PathIsAccepted | circom/circuits/lib/merkle.circom:13-19 | the client's path with the low 20 bits of the index satisfies the inclusion template under that root |
| TreeAgreement.RootIgnoresOverflow | sdk/packages/client/src/merkle-tree.ts:15-29 | leaves past the capacity do not enter the client's root |
| PoolClientModel.PoolClient.Ingest | sdk/packages/client/src/pool-client.ts:41-52 | appends the first event of each leaf index, in arrival order; what was appended stays distinct, and from the chain if the events were |
| PoolClientModel.PoolClient.RootMatches | sdk/packages/client/src/pool-client.ts:54-59 | passes exactly when the padded root of the local leaves is the chain's: the fitting leaves are the chain's up to trailing zeros, and for a zero-free chain the events came from, equal, absent collisions |
| PoolClientModel.AppendsStayDistinct | sdk/packages/client/src/pool-client.ts:43-48 | over any history of calls no leaf index is appended twice and every appended event comes from a call |
| PoolClientModel.UnseenCovers | sdk/packages/client/src/pool-client.ts:43-48 | nothing is lost: every index of the list is known after ingesting it |
| PoolClientModel.UnseenSnoc | sdk/packages/client/src/pool-client.ts:43-48 | one more event is appended at the end exactly if its index is new |
| PoolClientModel.FirstWins | sdk/packages/client/src/pool-client.ts:43-48 | the first event of an unseen index is appended |
| PoolClientModel.OnlyFirstWins | sdk/packages/client/src/pool-client.ts:43-48 | and no other |
| PoolClientModel.CallsJoin | sdk/packages/client/src/pool-client.ts:41-52 | how events are cut into calls makes no difference |
| PoolClientModel.ClientCatchesUp | sdk/packages/client/src/pool-client.ts:41-52 | told of every leaf at least once, first arrivals in order, a client holds exactly the chain's leaves |
| PoolClientModel.MatchMeansInStep | sdk/packages/client/src/pool-client.ts:41-59 | for any history of calls on any events, roots agree exactly when the fitting leaves are the chain's up to trailing zeros; on the chain's own events exactly when complete and in order; absent collisions |
| PoolClientModel.IngestThenCheck | sdk/packages/client/src/pool-client.ts:41-59 | the client object put through any such history passes the check in exactly these cases |
| Inclusion.Num2BitsExact | circom/circuits/lib/range.circom:5 | below the modulus a decomposition exists exactly for inputs under 2^n and is unique |
| Inclusion.SwitcherOrders | circom/circuits/lib/merkle.circom:5-7 | the switcher's field expressions swap on a set bit |
| Inclusion.InclusionBinds | circom/circuits/lib/merkle.circom:8-20 | soundness: a satisfied template under a tree root proves the leaf at the written index, along its own siblings |
| Inclusion.InclusionExactly | circom/circuits/lib/merkle.circom:8-20 | under a tree root the check can be passed exactly by a leaf at its index along its siblings, absent collisions |
| Inclusion.SiblingsIncluded | circom/circuits/lib/merkle.circom:8-20 | completeness: every leaf's sibling path satisfies the template |
| Circuits.RangeCheckExact | circom/circuits/lib/range.circom:5 | satisfiable exactly below 2^n |
| Circuits.U64GeqExact | circom/circuits/lib/range.circom:9-14 | satisfiable exactly for 64-bit inputs with a >= b as integers |
| Circuits.TransferConserves | circom/circuits/transfer.circom:50-55 | inputs and outputs have equal sums over the integers |
| Circuits.WithdrawWhole | circom/circuits/withdraw.circom:20-32 | a withdrawal spends the whole note, fee <= amount < 2^64, index below 2^20 |
| Circuits.TransferSignalsFixed | circom/circuits/transfer.circom:31-57 | one witness satisfies the circuit for one set of public signals only |
| Circuits.WithdrawSignalsFixed | circom/circuits/withdraw.circom:17-36 | a witness fixes every public signal but recipient, relayer and fee, which only the fee bound restricts |
| Circuits.DepositSignalsFixed | circom/circuits/deposit.circom:10-13 | a witness fixes the commitment and the disclosure, given amount and auditor |
| Circuits.SameOpening | circom/circuits/lib/commit.circom:5-11 | openings of one commitment agree and it is not zero, absent a break |
| AccountField.HashBytesToField | contract/src/deposit.rs:36-49 | the loop computes the fold of the 31-byte chunks |
| AccountField.StringBound | contract/src/deposit.rs:36-49 | any two strings with equally many chunks share an element exactly when they differ only in trailing zeros, absent fold collisions |
| AccountField.KeyBound | sdk/packages/core/src/note.ts:19-22 | strings of one length share an element only when equal, absent fold collisions |
| AccountField.AccountBound | contract/src/withdraw.rs:47-56 | zero-free ids with the same number of chunks share a field element only if equal, absent fold collisions |
| AccountField.StringsMeet | contract/src/deposit.rs:36-49 | strings of any lengths share an element exactly when the first chunks of the longer fold to the first chunk of the shorter and the rest agrees when padded, absent fold collisions |
| AccountField.TrailingZero | sdk/packages/core/src/hash_bytes.ts:17-29 | an appended zero changes nothing while the last chunk has room or the string is empty, and otherwise hashes the element with zero |
| AccountField.OneChunk | contract/src/deposit.rs:36-49 | up to 31 bytes stand for their little-endian value |
| AccountField.TwoChunks | contract/src/deposit.rs:36-49 | up to 62 bytes, a 32-byte key among them, for the hash of the first 31 bytes and the rest |
| AccountField.ThreeChunks | contract/src/deposit.rs:36-49 | up to 93 bytes, the longest account ids among them, for the hash of that and the third chunk |
| WalletModel.Wallet.FindTransferInputs | sdk/packages/sdk/src/wallet.ts:576-590 | the first eligible pair in scan order, none only if there is none |
| WalletModel.FirstIsLeast | sdk/packages/sdk/src/wallet.ts:576-590 | the selection is the least eligible pair, by first and then by second position |
| WalletModel.OnlyPairSelected | sdk/packages/sdk/src/wallet.ts:576-590 | two notes that alone are unspent are selected exactly if auditor field and bytes agree and they cover the amount |
| WalletModel.Wallet.BuildTransferProved | sdk/packages/sdk/src/wallet.ts:372-475 | refuses exactly without a positive amount and a pair, otherwise builds from the first eligible pair |
| WalletModel.Wallet.SelectTwice | sdk/packages/sdk/src/wallet.ts:154-156 | after the first pair is marked spent the next selection is off its leaves |
| WalletModel.SameLeafUnprovable | sdk/packages/sdk/src/wallet.ts:142-146 | one unspent leaf held at two positions is a pair exactly for amounts up to their sum, and a transfer built from it is unprovable, with no assumption on the hash |
| WalletModel.Wallet.Scan | sdk/packages/core/src/scanner.ts:27-97 | keeps, in order and with the recomputed commitment, exactly the payloads whose auditor bytes, if any, are a key hashing to the note's auditor; nothing is checked against the chain |
| WalletModel.DecodedExactly | sdk/packages/core/src/scanner.ts:27-97 | a note comes out of a scan exactly if some payload, with no bytes or with 32 that hash to its auditor, has its index, note and bytes, under the commitment of the four components |
| WalletModel.DecodedAppend | sdk/packages/core/src/scanner.ts:27-50 | order and repetitions are kept |
| WalletModel.Wallet.BuildWithdrawProved | sdk/packages/sdk/src/wallet.ts:497-557 | refused exactly for a fee above the amount, a path not of 20, or without an exact unspent note with auditor bytes; otherwise built from the first |
| WalletModel.FirstExactIsLeast | sdk/packages/sdk/src/wallet.ts:507-509 | the note taken is the earliest unspent one of the amount |
| WalletModel.BuiltSignals | sdk/packages/sdk/src/wallet.ts:391-472 | the public signals carry the given root, auditors and disclosures, each note's nullifier, and commitments of the amount to the recipient and of the rest to the key, each under its own blinding |
| WalletModel.BuiltProvable | sdk/packages/sdk/src/wallet.ts:434-472 | a built transfer has a satisfying witness exactly when both inputs pass, nullifiers differ, amounts fit 128 bits as field elements and the change commits alike under both auditors |
| WalletModel.InputExactly | circom/circuits/transfer.circom:31-49 | one input passes exactly when its note is a leaf under the key along its own path, absent collisions |
| WalletModel.ProvableExactly | sdk/packages/sdk/src/wallet.ts:398-472 | the same in checkable terms, for any scanned notes and supplied paths: both notes held with their own paths, different leaves, outputs below 2^128, one auditor, absent collisions |
| WalletModel.OtherAuditorUnprovable | circom/circuits/transfer.circom:47-48 | a recipient under another auditor cannot be paid |
| WalletModel.WithdrawProvableExactly | sdk/packages/sdk/src/wallet.ts:530-557 | the withdrawal of a scanned note is provable exactly when the note is held, the path is its own and fee <= amount < 2^64, absent collisions |
| WalletModel.NullifiersDiffer | circom/circuits/lib/commit.circom:18-23 | under one key, equal nullifiers mean equal commitment and index |
| Limbs.AddRaw | contract/src/poseidon.rs:149-158 | sum modulo 2^256 and its carry |
| Limbs.SubRaw | contract/src/poseidon.rs:160-170 | difference modulo 2^256 |
| Limbs.Geq | contract/src/poseidon.rs:172-179 | limb comparison is numeric comparison |
| Limbs.AddCarry | contract/src/poseidon.rs:214-221 | adds the carry's weight and never leaves the nine limbs |
| Limbs.MulAddRow | contract/src/poseidon.rs:184-205 | one row of either loop adds `x * y` at its offset; every sum fits `u128` |
| Limbs.Quotient | contract/src/poseidon.rs:207-211 | after reduction limb 8 is zero and the quotient is below 2P, so one subtraction suffices |
| Limbs.MontgomeryMulRaw | contract/src/poseidon.rs:181-212 | for reduced inputs the result is reduced and times 2^256 congruent to the product |
| Limbs.NegInvCancels | contract/src/poseidon_constants.rs:4-6 | the multiplier chosen clears the lowest limb |
| Limbs.MontR2Value | contract/src/poseidon_constants.rs:4-6 | `MONT_R2` is 2^512 modulo P |
| MontgomeryField.LimbsCanonical | contract/src/poseidon.rs:11-12 | limb equality is equality of elements |
| MontgomeryField.Add | contract/src/poseidon.rs:71-79 | addition of residues, result reduced |
| MontgomeryField.Mul | contract/src/poseidon.rs:81-83 | multiplication of residues, result reduced |
| MontgomeryField.Pow5 | contract/src/poseidon.rs:89-92 | fifth power of the residue |
| MontgomeryField.FromRaw | contract/src/poseidon.rs:60-65 | any 256-bit number enters as its residue |
| MontgomeryField.ToRaw | contract/src/poseidon.rs:67-69 | the canonical limbs of the element |
| MontgomeryField.FromU128 | contract/src/poseidon.rs:19-21 | a 128-bit amount enters unchanged |
| MontgomeryField.FromBytesBe | contract/src/poseidon.rs:31-37 | any byte string is its big-endian value modulo P |
| MontgomeryField.FromBytesLe | contract/src/poseidon.rs:23-29 | any byte string is its little-endian value modulo P |
| MontgomeryField.ToBytes | contract/src/poseidon.rs:39-46 | the canonical 32-byte form of the element |
| MontgomeryField.WireRoundTripLimbs | contract/src/poseidon.rs:31-46 | serialise then parse gives the same limbs |
| Residues.WireRoundTrip | sdk/packages/core/src/field.ts:29-45 | decode after encode is the identity |
| Residues.WireAliases | contract/src/nullifiers.rs:17-23 | byte strings are one key exactly when congruent, so n and n + P are one nullifier |
| Poseidon.Mix | contract/src/poseidon.rs:137-147 | the matrix layer of the reference |
| Poseidon.RoundLanes | contract/src/poseidon.rs:124-130 | the constants and S-box layers of the reference |
| Poseidon.PoseidonHash | contract/src/poseidon.rs:111-135 | for every width and all reduced constants, the reference hash of the residues |
| Poseidon.DecodedInPlace | contract/src/poseidon_constants.rs:8-9 | every stored constant and matrix entry stands, in its place, for the residue whose product with 2^256 it holds |
| Poseidon.HashSelects | contract/src/poseidon.rs:111-135 | for a matrix that routes lane j to lane 0 the hash is input j - 1 after its rounds: constant at round * width + j each round, fifth power in the first and last four |
| Poseidon.HashOfCapacity | contract/src/poseidon.rs:118-134 | for the identity matrix the hash is the capacity lane, from zero, through the S-box in every round; zero if the constants are |
| Poseidon.MixColumn | contract/src/poseidon.rs:137-147 | the matrix layer maps the unit vector along j to column j |
| Poseidon.DotLinear | contract/src/poseidon.rs:137-147 | and is linear, so its columns decide it |
| PoolHashes.Poseidon2 | contract/src/poseidon.rs:103-105 | the limb code computes the two-input hash the pool results are about |
| PoolHashes.Poseidon4 | contract/src/poseidon.rs:107-109 | the same for the commitment hash |
| Groth16Codec.DecToLe | sdk/packages/sdk/src/groth16-adapter.ts:52-63 | 32 little-endian bytes of the value, or an error exactly outside [0, 2^256) |
| Groth16Codec.EncodeVk | sdk/packages/sdk/src/groth16-adapter.ts:103-119 | alpha at 0, beta at 64, gamma at 192, delta at 320 and input point i at 448 + 64 i; an error exactly for out-of-range coordinates |
| Groth16Codec.ParseVk | contract/src/groth16.rs:87-114 | succeeds exactly on lengths 448 + 64k and inverts the layout |
| Groth16Codec.VkRoundTrip | contract/src/groth16.rs:87-114 | parsing an encoded key recovers every coordinate |
| Groth16Codec.KeyLengthFixesInputs | contract/src/groth16.rs:147-153 | a key accepts n inputs exactly at 448 + 64(n+1) bytes |
| Groth16Codec.EncodeProof | sdk/packages/sdk/src/groth16-adapter.ts:129-135 | A at 0, B at 64 and C at 192 of 256 bytes; an error exactly for out-of-range coordinates |
| Groth16Codec.ProofRoundTrip | contract/src/groth16.rs:70-81 | parsing an encoded proof recovers every coordinate |
| Groth16Codec.NegateG1 | contract/src/groth16.rs:119-143 | x unchanged, y becomes Q - y modulo 2^256 |
| Groth16Codec.NegateTwice | contract/src/groth16.rs:119-143 | twice is the identity; the sum is Q exactly for y <= Q; infinity is not kept |

## Left out

- Groth16 soundness, pairing and multi-exponentiation host functions: an accepted proof is modelled as a satisfying witness.
- Bit constraints `b * (b - 1) = 0`: read as `b` in {0, 1}, which uses that P is prime; primality is not proved. `IsEqual` is read as equality.
- circomlib (`Num2Bits`, `Switcher`, `Poseidon`) is not part of the repository; its templates are modelled from their documented meaning.
- Poseidon round constants and matrices: arbitrary reduced tables; their literal values are not modelled.
- keccak256, X25519, ChaCha20 and HKDF: view-ciphertext hashes are arbitrary field elements, decrypted payloads are given.
- Hex and JSON text, proof and ciphertext size limits, storage deposits, gas and events: they only add panics or output. Inputs of the pool are already parsed field elements; self-call receipts and callbacks are assumed to run.
- The direct `deposit()` entry point, mock verifiers and feature gates: absent from deployable builds.
- Panics inside `transfer` after its first write: the two capacity panics are decided before the writes, which is what the rollback amounts to.
- Token internals beyond the pool's balance: accounts other than the pool's are the rest of the supply, and a refused transfer may have any cause.
- PathFor: does not model negative leaf indices, which no chain event carries.
- Pay: does not model client trees of 2^32 leaves or more, which an array of the client's language cannot hold.
- Wallet balance, synchronous builders with placeholder proofs, relayer, auditor indexer, deployment and ceremony scripts: single-branch plumbing or I/O.
- The Noir circuits: reference only, the Circom circuits are the deployed ones.
