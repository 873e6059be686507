# Verified models of nekop2p

Dafny models of the stateful core of nekop2p, and proofs of what that core is for. Code that
works on fields, maps and buffers is modelled by classes and loops, each proved against a
function of the old state; the properties are lemmas about these functions and about whole
runs. `dafny verify dfyconfig.toml` checks everything.

- **Double ratchet** (`RatchetState`, `RatchetChain`, `RatchetProtocol`, `RatchetRuns`,
  `RatchetFifo`, `RatchetApart`, `RatchetLost`, `RatchetSecrecy`, `RatchetForged`): the session
  object with its root, sending and receiving chains and stored keys, two peers exchanging
  messages in any interleaving, what an eavesdropper or a leaked session reveals, and what
  forged messages do. The algorithm is the Double Ratchet of Signal, sections 2.6, 3.4 and 3.5
  of its specification. Keys are terms, so that key derivation and sealing are injective and
  agreement is symmetric.
- **Credit tree and notes** (`ByteOrder`, `Merkle`, `CreditNotes`): the sorted commitment
  list with its cached Merkle root, proofs of membership, the persisted copy, and spending
  notes for value.
- **Genesis tree and slashing** (`Topology`, `Slashing`, `SlashingRuns`): communities by
  invitation, lowest common ancestors and distances, trust edges, and slashing a community
  along its inviters.
- **Onion packets** (`Onion`): nested layers, the padded wire format and the relay step.
- **Settlement pool** (`Inkwell`, `Scheduler`, `CrossDomain`): splitting a loan, its
  repayment plan, the payment schedule and the cross-domain transfer router.
- **Recourse** (`Recourse`, `Liability`): recovering a default in steps, as provisions with
  appeals and as deductions from accounts.
- **Regions** (`Region`, `RegionNet`): balances, locks, fees and blocks of region nodes, and
  two nodes running together.
- **Quorums** (`Quorum`, `Threshold`): vote tallies and threshold signatures.
- `Sums` adds up finite maps and bags in any order; `Common` holds what several components share.

Integers are unbounded except where the width matters: 32-bit message numbers, 16-bit layer
lengths and 64-bit amounts wrap as in the program. Time, block heights, randomness, hashes,
encryption and signature checks are parameters or terms; maps are visited in an arbitrary
order. Locks and goroutines are not modelled: each operation is one step.

## Where the program differs from its description

The models follow the program. Where it does not do what its comments or its design say, a
lemma gives the exact condition.

- A message of an older ratchet chain that arrives after one of a newer chain makes the
  receiver turn its root ratchet backwards, unless it is too far ahead
  (`RatchetRuns.StepKeepsExactly`); the receiver then decrypts nothing any more, and the other
  peer nothing the receiver sends from then on (`RatchetLost.LostForGood`, and
  `RatchetLost.OlderChainArises` for an example). Everything else decrypts exactly when it
  should (`RatchetRuns.DecryptsExactly`).
- What the responder sends before it first receives is sealed under keys from the all-zero
  chain key, which anyone can derive (`RatchetSecrecy.WireKeepsSecretsExactly`); as long as a
  peer receives on such a chain an outsider can forge messages
  (`RatchetForged.AuthenticExactly`). A session keeps the chain key of the last message it
  sent, so that a leak exposes that message (`RatchetSecrecy.SentExposedExactly`). The other
  promises of forward secrecy and recovery hold (`RatchetSecrecy.ReceivedSafe`,
  `RatchetSecrecy.HealedAfter`).
- The state advances before a message is checked: a forged message within reach, or under a
  new key, ends the agreement of the peers (`RatchetForged.ForgedKeepsExactly`,
  `RatchetForged.SlippedHearsExactly`); any other leaves it intact
  (`RatchetForged.GenuineStillDecrypts`).
- Message numbers wrap after 2^32 messages on one chain (`RatchetChain.HeaderRangeIsTheLimit`,
  `RatchetChain.CounterWraps`).
- Different commitment lists can share a root, exactly if they fill up to the same list
  (`Merkle.SameRootExactly`): never without repetitions (`Merkle.RootInjective`) nor at equal
  length (`Merkle.SameRootExtends`), but when one repeats its last commitment
  (`Merkle.OddTailCollides`). `Restore` does not remove repetitions, and the store key is only
  a 16-byte prefix (`CreditNotes.AddMirrorsExactly`).
- A spend that fails late rolls back the change note but not the notes already spent
  (`CreditNotes.LateFailureFreeExactly`), and input values are added modulo 2^64
  (`CreditNotes.SpendConservesExactly`).
- Slashing charges inviters by their depth below the root, not by their distance above the
  slashed community (`Slashing.ChargedAsPromisedExactly`). Trust edges that are frozen, or
  proposed with both stakes, are not severed and can become active afterwards
  (`SlashingRuns.CutOffExactly`), and a blacklisted community can have new ones
  (`SlashingRuns.ProposalReturns`, `SlashingRuns.SlashedAndTrusted`).
- A split can contain empty fragments when the amount does not exceed their number
  (`Inkwell.NoEmptyExactly`).
- Rates multiplied in floating point leave exactly those debts unrecovered that are rounded
  down, all above 2^53 (`Recourse.RecoveredInBinary64`); settled provisions can be reopened by
  an appeal (`Recourse.ReopenedExactly`); the last deduction is credited to the wrong node
  (`Recourse.CreditedExactly`).
- In the ledger form every provision is charged in full (`Liability.RunChargesInFull`) unless
  a second default under the same name replaces it (`Liability.RunBalancesExactly`,
  `Liability.ReplacedHappens`). The epoch only advances in a copy of the keeper, so the name
  stays the same for a defaulter, and from the first epoch on the deductions are made in every
  block (`Liability.OncePerEpochExactly`).
- A local transaction to an unknown recipient destroys the amount
  (`Region.LocalConservesInRange`, `Region.UnknownRecipientLoses`), and so does settling a cross-region one
  (`Region.SettleEffect`).
- Adding a validator twice counts its power twice, which is safe but puts the quorum out of
  reach once the replaced power is half the real one (`Quorum.ReachableBesideReplaced`,
  `Quorum.AddedTwice`). Negative power is accepted and lets two hashes win
  (`Quorum.UniqueWinnerExactly`, `Quorum.TwoWinners`). Precommits are counted for any hash, and
  the current proposal is committed even if they are for another one
  (`Quorum.ForProposalExactly`, `Quorum.CommitsAnother`).

## Model

| member | source | states |
|---|---|---|
| `RatchetState.State.Encrypt` | nekop2p/ratchet/ratchet.go:176-237 | encrypting changes the whole session as `Transmit` says, ratchet step, counter and header included, and yields its message or error |
| `RatchetState.State.SkipMessageKeys` | nekop2p/ratchet/ratchet.go:372-390 | the loop stores exactly the keys of the skipped numbers and refuses without any change beyond the limit |
| `RatchetState.State.DhRatchetStep` | nekop2p/ratchet/ratchet.go:320-354 | two root steps or none: on an invalid point the session is unchanged |
| `RatchetState.State.Decrypt` | nekop2p/ratchet/ratchet.go:240-318 | decrypting changes the session as `Receive` says in every branch: stored key, turn, skip, stale number, failed opening; a refused message behind the counter of the current chain changes nothing |
| `RatchetState.State.SetMaxSkip` | nekop2p/ratchet/ratchet.go:90-94 | only the limit changes |
| `RatchetRuns.HandshakeAgrees` | nekop2p/ratchet/ratchet.go:106-169 | initiator and responder given each other's public keys start from the same root key |
| `RatchetChain.AdvanceInjective` | nekop2p/ratchet/ratchet.go:419-432 | the symmetric chain never joins another one |
| `RatchetChain.ReceiveTracked` | nekop2p/ratchet/ratchet.go:240-318 | on a tracked chain a message, of any number, decrypts iff it is new and at most MaxSkip ahead; otherwise nothing changes; the stored keys stay exactly those of the undelivered numbers below RecvMsgNum |
| `RatchetChain.AnyOrderOnce` | nekop2p/ratchet/ratchet.go:240-390 | messages of one chain delivered in any order, with repeats, and with gaps at most MaxSkip when each arrives: every first arrival decrypts to its text, every repeat is refused without changing the session |
| `RatchetChain.TurnTracks` | nekop2p/ratchet/ratchet.go:320-354 | turning the root ratchet starts tracking the peer's new chain from number 0 |
| `RatchetChain.HeaderRangeIsTheLimit` | nekop2p/ratchet/ratchet.go:176-237 | after 2^32 messages on one chain the number wraps and the next message is refused as stale |
| `RatchetChain.CounterWraps` | nekop2p/ratchet/ratchet.go:302-318 | number 2^32 - 1 still decrypts, but the counter of the receiver starts over with it |
| `RatchetProtocol.SendsOnWire` | nekop2p/ratchet/ratchet.go:176-237 | what goes on the wire is the message the shared history says: key, header and text |
| `RatchetProtocol.SendKeeps` | nekop2p/ratchet/ratchet.go:176-237 | sending keeps the agreement of both peers with the shared history |
| `RatchetProtocol.CurrentKeeps` | nekop2p/ratchet/ratchet.go:240-318 | receiving on the current chain keeps the agreement, decrypted or not |
| `RatchetProtocol.NextKeeps` | nekop2p/ratchet/ratchet.go:262-354 | receiving the first message of the next chain keeps the agreement, decrypted or not |
| `RatchetProtocol.NewerIsNext` | nekop2p/ratchet/ratchet.go:262-318 | the peers' ratchet counts are at most one apart: a newer message always opens the next chain |
| `RatchetRuns.StartInStep` | nekop2p/ratchet/ratchet.go:106-169 | freshly initialised peers agree |
| `RatchetRuns.StepKeepsExactly` | nekop2p/ratchet/ratchet.go:176-354 | a step of either peer keeps the global agreement of root, sending and receiving chains iff it does not take up a message of an older chain |
| `RatchetRuns.After` | nekop2p/ratchet/ratchet.go:176-354 | hence the agreement holds after every run without such a step |
| `RatchetRuns.DecryptsExactly` | nekop2p/ratchet/ratchet.go:240-318 | a delivered message decrypts iff it is of the current or next chain, new and within MaxSkip, and then to the text that was encrypted |
| `RatchetRuns.OlderChainLoses` | nekop2p/ratchet/ratchet.go:262-318 | a message of an older chain never decrypts; refused for its number it changes nothing, and otherwise it puts the session on a branch of root keys of its own |
| `RatchetRuns.OlderStep` | nekop2p/ratchet/ratchet.go:240-318 | so it leaves both peers as they were, or ends their agreement |
| `RatchetApart.Deaf` | nekop2p/ratchet/ratchet.go:240-390 | a session on a branch of root keys decrypts nothing sealed off that branch, forged messages included, and never leaves it |
| `RatchetApart.Speaks` | nekop2p/ratchet/ratchet.go:176-237 | what it sends is sealed on that branch |
| `RatchetApart.BranchesOff` | nekop2p/ratchet/ratchet.go:262-354 | taking up a message under another remote key, not sealed on the branch this starts: refused for its number without change, or refused with the session on that branch |
| `RatchetApart.BranchesApart` | nekop2p/ratchet/ratchet.go:320-354 | two peers of consecutive ratchet counts that both leave the conversation end on branches that never meet |
| `RatchetLost.HeardExactly` | nekop2p/ratchet/ratchet.go:240-354 | after the loss a delivery decrypts iff its receiver is still in the conversation, and the message was sent before the loss and is decryptable there |
| `RatchetLost.LostStepKeeps` | nekop2p/ratchet/ratchet.go:176-354 | nothing repairs the loss: no delivery to either peer of anything the other sent before or since, and nothing either sends; the other peer is lost too once it takes up what the first one sends |
| `RatchetLost.LostForGood` | nekop2p/ratchet/ratchet.go:262-354 | after one message of an older chain within MaxSkip, in every run of both peers that follows, the receiver decrypts nothing, nobody decrypts what a lost peer sent, and the other peer decrypts only what was sent before and only while it is in the conversation |
| `RatchetLost.NeverTwiceWhenLost` | nekop2p/ratchet/ratchet.go:240-318 | a message that decrypted once is refused also in every run after a loss |
| `RatchetLost.OlderChainArises` | nekop2p/ratchet/ratchet.go:176-354 | a run of five steps after which such a message is in flight |
| `RatchetRuns.RunKeepsHistory` | nekop2p/ratchet/ratchet.go:176-354 | over every run that takes up no message of an older chain, sent texts and delivered marks are never forgotten |
| `RatchetRuns.DecryptedIsMarked` | nekop2p/ratchet/ratchet.go:240-318 | a message that decrypts is marked as delivered |
| `RatchetRuns.RefusedOnceDelivered` | nekop2p/ratchet/ratchet.go:240-318 | a delivered message is refused |
| `RatchetRuns.NeverTwice` | nekop2p/ratchet/ratchet.go:240-318 | a message that decrypted once is refused after every further such run |
| `RatchetRuns.FirstGapExactly` | nekop2p/ratchet/ratchet.go:84-169 | between freshly introduced peers the first message to arrive decrypts iff its number is at most 1000 |
| `RatchetFifo.StartInOrder` | nekop2p/ratchet/ratchet.go:106-169 | initially nothing was sent, received or in flight |
| `RatchetFifo.OldestDecrypts` | nekop2p/ratchet/ratchet.go:240-318 | the oldest message in flight always decrypts to its text, whatever MaxSkip is |
| `RatchetFifo.FifoDeliver` | nekop2p/ratchet/ratchet.go:240-318 | a first-in-first-out delivery hands over the next text and keeps sent = received + in flight for both directions |
| `RatchetFifo.FifoStep` | nekop2p/ratchet/ratchet.go:176-318 | the same for every step of a first-in-first-out run |
| `RatchetFifo.FifoRunAgrees` | nekop2p/ratchet/ratchet.go:176-318 | over every first-in-first-out run the texts decrypted are the texts encrypted, in order, up to those in flight |
| `RatchetSecrecy.WireKeepsSecretsExactly` | nekop2p/ratchet/ratchet.go:4-9 | no message key can be derived from the wire alone, but for those of the first chain of the responder, which starts from the all-zero key |
| `RatchetSecrecy.RunGuarded` | nekop2p/ratchet/ratchet.go:176-318 | over every run a session keeps, besides its current keys, exactly the chain key its last message came from, and the key of no delivered message |
| `RatchetSecrecy.LeakExposesExactly` | nekop2p/ratchet/ratchet.go:4-9 | if a session leaks during a run, exactly the exposed messages can be read, earlier and later ones: not before the position of a chain key held, stored, or on the next chain of the other peer |
| `RatchetSecrecy.SentExposedExactly` | nekop2p/ratchet/ratchet.go:5-6 | forward secrecy of what a peer sent: exposed is exactly its last message, unless that is the very first one of the initiator |
| `RatchetSecrecy.ReceivedSafe` | nekop2p/ratchet/ratchet.go:5-6 | forward secrecy of what it received: no decrypted message is exposed, past the first chain of the responder |
| `RatchetSecrecy.HealedAfter` | nekop2p/ratchet/ratchet.go:7-8 | two ratchet turns later nothing is exposed any more |
| `RatchetForged.ForgedKeepsExactly` | nekop2p/ratchet/ratchet.go:240-318 | a refused message nobody in the conversation sent keeps the two peers in step iff it is behind the counter or too far ahead, or names a point without a key agreement |
| `RatchetForged.GenuineStillDecrypts` | nekop2p/ratchet/ratchet.go:262-318 | after any number of such forgeries a genuine message that could be decrypted before decrypts to its text |
| `RatchetForged.SlippedHearsExactly` | nekop2p/ratchet/ratchet.go:292-318 | after a forgery of number n within reach, of the genuine messages on the chain exactly the undelivered ones before n still decrypt |
| `RatchetForged.AuthenticExactly` | nekop2p/ratchet/ratchet.go:9 | an outsider can seal a message that a peer accepts iff the chain the peer receives on is one of the first two, which start from the all-zero key |
| `RatchetForged.TamperedRefused` | nekop2p/ratchet/ratchet.go:9 | a message under another header than it was sealed with is refused |
| `RatchetForged.RefusedBecause` | nekop2p/ratchet/ratchet.go:240-318 | which error a refused message gets, by its number, its point and the stored keys |
| `RatchetForged.LowOrderSkips` | nekop2p/ratchet/ratchet.go:248-262 | before a point without a key agreement is refused, the keys up to the count it names are stored |
| `ByteOrder.Search` | nekop2p/store/merkle.go:44-47 | the binary search finds the position that splits the sorted list at the commitment |
| `ByteOrder.FoundAtSplit` | nekop2p/store/merkle.go:44-52 | the commitment is present iff it stands at that position |
| `ByteOrder.SortedUnique` | nekop2p/store/merkle.go:296-308 | a sorted list is determined by its contents |
| `ByteOrder.Sort` | nekop2p/store/merkle.go:300-304 | sorting gives the sorted list with the same contents |
| `Merkle.NextLevel` | nekop2p/store/merkle.go:264-276 | one level up is built from pairs, the odd last digest paired with itself |
| `Merkle.ComputeMerkleRoot` | nekop2p/store/merkle.go:252-279 | the level-by-level loop computes the recursive root |
| `Merkle.ClimbTo` | nekop2p/store/merkle.go:139-172 | the loop collects one sibling per level and ends at the root |
| `Merkle.VerifyProof` | nekop2p/store/merkle.go:188-221 | the loop over the siblings accepts exactly what `Accepts` says, negative indices and missing proofs included |
| `Merkle.SiblingsRebuildTop` | nekop2p/store/merkle.go:118-221 | folding a leaf with the siblings of its position gives the root, for every number of leaves |
| `Merkle.FoldNegative` | nekop2p/store/merkle.go:195-215 | a negative index stands for its absolute value, as division truncates |
| `Merkle.EqualRootsEqualSets` | nekop2p/store/merkle.go:252-279 | equal roots mean equal sets of commitments, despite the duplicated odd nodes |
| `Merkle.TopIsBuild` | nekop2p/store/merkle.go:252-279 | built level by level from the leaves or by halves from the root, it is the same tree |
| `Merkle.RootLeaves` | nekop2p/store/merkle.go:252-279 | the leaves below the root are the commitments filled up to a power of two, where a part that fits in half its width stands twice |
| `Merkle.SameRootExactly` | nekop2p/store/merkle.go:252-279 | two lists share a root iff they fill up to the same list |
| `Merkle.SameRootExtends` | nekop2p/store/merkle.go:252-279 | lists that share a root extend one another within one height; of equal length they are the same |
| `Merkle.RootInjective` | nekop2p/store/merkle.go:252-279 | without repetitions, roots are equal iff the commitment lists are |
| `Merkle.OddTailCollides` | nekop2p/store/merkle.go:264-276 | with repetitions they need not be: an odd list and the one with its last commitment repeated share a root |
| `Merkle.AcceptedIsMember` | nekop2p/store/merkle.go:188-221 | an accepted proof, of any length, is of a commitment in the tree |
| `Merkle.AcceptedAtIndex` | nekop2p/store/merkle.go:188-221 | an accepted proof has one sibling per level and its index, if in range, is where the commitment stands |
| `Merkle.ProvableExactly` | nekop2p/store/merkle.go:118-221 | a commitment has an accepted proof iff it is in the tree |
| `Merkle.CreditMerkleTree.AddCommitment` | nekop2p/store/merkle.go:40-60 | adds exactly one occurrence if there was none; the list stays sorted and without duplicates |
| `Merkle.CreditMerkleTree.RemoveCommitment` | nekop2p/store/merkle.go:63-78 | removes exactly one occurrence and reports whether there was one |
| `Merkle.CreditMerkleTree.Root` | nekop2p/store/merkle.go:83-104 | the cached root equals a fresh computation |
| `Merkle.CreditMerkleTree.Restore` | nekop2p/store/merkle.go:296-308 | restores exactly the given contents, in order |
| `Merkle.CreditMerkleTree.GenerateProof` | nekop2p/store/merkle.go:118-184 | succeeds exactly for members, with the current root and a proof that is accepted |
| `Merkle.SameContentsSameRoot` | nekop2p/store/merkle.go:83-104 | equal contents give equal roots whatever the history |
| `CreditNotes.AddMirrorsExactly` | nekop2p/x/darkchain/keeper/keeper.go:74-80 | after adding a commitment store and tree still hold the same set iff no other commitment shares its 16-byte prefix |
| `CreditNotes.PrefixShared` | nekop2p/x/darkchain/keeper/keeper.go:74-80 | the storage key of a commitment is its first 16 bytes |
| `CreditNotes.RemoveMirrors` | nekop2p/x/darkchain/keeper/keeper.go:83-91 | taking out a commitment whose prefix nothing else has keeps store and tree the same set |
| `CreditNotes.RestoreRebuilds` | nekop2p/x/darkchain/keeper/keeper.go:50-61 | reloading the persisted commitments in any order reproduces list and root |
| `CreditNotes.SpendableExactly` | nekop2p/x/darkchain/keeper/credit_utxo.go:165-200 | the spending loop succeeds iff all notes are in the tree with fresh nullifiers and differ pairwise |
| `CreditNotes.SpendingTakesTotal` | nekop2p/x/darkchain/keeper/credit_utxo.go:165-200 | spending notes lowers the unspent value by their total |
| `CreditNotes.ChangeAddsExcess` | nekop2p/x/darkchain/keeper/credit_utxo.go:153-163 | the change adds back what was spent above the amount required |
| `CreditNotes.SpendConservesExactly` | nekop2p/x/darkchain/keeper/credit_utxo.go:130-203 | spending distinct notes with new change lowers the unspent value by exactly the amount required iff the input values do not wrap at 2^64 |
| `CreditNotes.Keeper.SuccessConserves` | nekop2p/x/darkchain/keeper/credit_utxo.go:130-203 | whenever the request succeeds with new change, the same holds of the tree it leaves |
| `CreditNotes.WrappedSpendHappens` | nekop2p/x/darkchain/keeper/credit_utxo.go:140-151 | two notes whose values wrap to 1 pay 1 and lose the rest |
| `CreditNotes.NewChangeIgnored` | nekop2p/x/darkchain/keeper/credit_utxo.go:153-200 | new change neither helps nor hinders the spending, and leaves no trace when rolled back |
| `CreditNotes.PrefixSpendable` | nekop2p/x/darkchain/keeper/credit_utxo.go:165-200 | the notes spent before a failure were spendable together |
| `CreditNotes.LateFailureCosts` | nekop2p/x/darkchain/keeper/credit_utxo.go:165-200 | a late failure loses exactly the value of the notes already spent |
| `CreditNotes.LateFailureFreeExactly` | nekop2p/x/darkchain/keeper/credit_utxo.go:165-200 | with positive notes a failed spend costs nothing iff already the first note is unknown or its nullifier spent |
| `CreditNotes.LateFailureHappens` | nekop2p/x/darkchain/keeper/credit_utxo.go:165-200 | a request whose second note is unknown fails and costs the first |
| `CreditNotes.Keeper.FailureCosts` | nekop2p/x/darkchain/keeper/credit_utxo.go:165-200 | a request that fails late with new change costs the notes before the first unspendable one; with positive notes nothing iff that is the first |
| `CreditNotes.Keeper.AddCreditCommitment` | nekop2p/x/darkchain/keeper/keeper.go:74-80 | tree and store gain exactly the commitment |
| `CreditNotes.Keeper.SpendCreditCommitment` | nekop2p/x/darkchain/keeper/keeper.go:83-91 | succeeds iff the commitment is in the tree, and removes it from tree and store |
| `CreditNotes.Keeper.MarkNullifier` | nekop2p/x/darkchain/keeper/keeper.go:380-390 | true exactly the first time |
| `CreditNotes.NullifiersShared` | nekop2p/x/darkchain/keeper/credit_utxo.go:180-185 | two spends share a nullifier iff they are of one serial number by one secret |
| `CreditNotes.Keeper.CreateCreditNote` | nekop2p/x/darkchain/keeper/credit_utxo.go:56-81 | a note of positive value is committed to and added; zero is refused |
| `CreditNotes.Keeper.RollbackChangeNotes` | nekop2p/x/darkchain/keeper/credit_utxo.go:308-317 | rolling back any list takes exactly it out of the tree, and keeps store and tree the same set if nothing else has its prefixes |
| `CreditNotes.Keeper.SumInputs` | nekop2p/x/darkchain/keeper/credit_utxo.go:140-148 | the 64-bit total of the inputs, all commitments verified |
| `CreditNotes.Keeper.MakeChange` | nekop2p/x/darkchain/keeper/credit_utxo.go:153-163 | exactly the one change note for the excess, if any, goes into the tree |
| `CreditNotes.Keeper.SpendOne` | nekop2p/x/darkchain/keeper/credit_utxo.go:165-200 | one note leaves the tree and marks its nullifier, or nothing changes |
| `CreditNotes.Keeper.SpendEach` | nekop2p/x/darkchain/keeper/credit_utxo.go:165-200 | exactly the spendable prefix of the notes is spent, one fresh nullifier each |
| `CreditNotes.Keeper.SpendCreditNotes` | nekop2p/x/darkchain/keeper/credit_utxo.go:130-203 | the whole new state and result for every serial drawn: on success, on refusal and on a late failure; the change, if any, is one note for the first owner, worth the excess, with the serial drawn; with new change the unspent value falls on success by exactly the amount required iff the inputs do not wrap, and on a late failure by the notes before the first unspendable one |
| `Topology.AboveComparable` | nekop2p/x/vrg/topology.go:48-89 | two communities above the same one are above one another |
| `Topology.MeetIsLowest` | nekop2p/x/vrg/topology.go:104-129 | the meeting point is a common ancestor, and every common ancestor is above it |
| `Topology.DistZero` | nekop2p/x/vrg/topology.go:133-150 | distances are not negative, and zero iff equal |
| `Topology.DistSymmetric` | nekop2p/x/vrg/topology.go:133-150 | distance is symmetric |
| `Topology.DistTriangle` | nekop2p/x/vrg/topology.go:133-150 | the triangle inequality |
| `Topology.WalkAtLeastDist` | nekop2p/x/vrg/topology.go:133-150 | no walk along invitations is shorter than the distance |
| `Topology.ShortestWalkExists` | nekop2p/x/vrg/topology.go:133-150 | a walk of exactly that length exists |
| `Topology.PathIsAbove` | nekop2p/x/vrg/topology.go:262-281 | position i of the ancestor chain is the ancestor at depth i |
| `Topology.GrowthKeepsTree` | nekop2p/x/vrg/topology.go:62-89 | adding a community keeps the tree: parents present, one level up |
| `Topology.GrowthKeepsChildren` | nekop2p/x/vrg/topology.go:62-89 | adding a community keeps every child listed once under its parent |
| `Topology.MeetStable` | nekop2p/x/vrg/topology.go:62-150 | later communities never change where earlier ones meet or how far apart they are |
| `Topology.SubtreeExact` | nekop2p/x/vrg/topology.go:250-259 | the recursive listing holds exactly the communities below, each once |
| `Topology.GenesisTree.constructor` | nekop2p/x/vrg/topology.go:48-59 | a tree of the root alone |
| `Topology.GenesisTree.AddCommunity` | nekop2p/x/vrg/topology.go:62-89 | refused iff the parent is missing or the community exists; otherwise exactly one child is added |
| `Topology.GenesisTree.LCA` | nekop2p/x/vrg/topology.go:104-129 | three climbing loops that never leave the tree, terminate, and return the common ancestor of maximal depth |
| `Topology.GenesisTree.Distance` | nekop2p/x/vrg/topology.go:133-150 | the distance, for known communities |
| `Topology.GenesisTree.AncestorChain` | nekop2p/x/vrg/topology.go:262-281 | the chain from the root down to the community |
| `Topology.GenesisTree.ReverseInPlace` | nekop2p/x/vrg/topology.go:276-279 | the swapping loop reverses the chain |
| `Topology.GenesisTree.CollectSubtree` | nekop2p/x/vrg/topology.go:250-259 | the recursion appends the listing of the subtree |
| `Topology.GenesisTree.SubtreeCommunities` | nekop2p/x/vrg/topology.go:241-248 | exactly the communities below the given one, each once |
| `Slashing.TrustEdgeManager.ProposeEdge` | nekop2p/x/vrg/namespace.go:193-230 | refused iff an active edge joins the parties; the party index stays complete even when edge names clash |
| `Slashing.TrustEdgeManager.ActivateEdge` | nekop2p/x/vrg/namespace.go:233-253 | only a proposed edge with both stakes becomes active |
| `Slashing.TrustEdgeManager.FreezeEdge` | nekop2p/x/vrg/namespace.go:256-272 | only an active edge is frozen |
| `Slashing.TrustEdgeManager.ThawEdge` | nekop2p/x/vrg/namespace.go:275-289 | only a frozen edge becomes active again |
| `Slashing.TrustEdgeManager.SeverEdge` | nekop2p/x/vrg/namespace.go:293-321 | allowed for active and frozen edges of the violator, which loses its stake; the other side keeps its own |
| `Slashing.SeveringDone` | nekop2p/x/vrg/slashing.go:195-212 | severing the indexed edges severs exactly the active edges of the community, by completeness of the index |
| `Slashing.BondChangesTotal` | nekop2p/x/vrg/slashing.go:188-190 | setting one bond changes the total by the difference |
| `Slashing.ChargeStep` | nekop2p/x/vrg/slashing.go:278-286 | charging one ancestor keeps the tree and lowers the total by what was charged |
| `Slashing.ChargedAt` | nekop2p/x/vrg/slashing.go:264-286 | each position of the chain is charged once, at its position |
| `Slashing.SlashedBonds` | nekop2p/x/vrg/slashing.go:188-309 | every bond after slashing: the charge goes by depth below the root, not by distance above the community |
| `Slashing.ChargedByDepth` | nekop2p/x/vrg/slashing.go:264-286 | 30, 15 and 5 percent at depth 1, 2 and 3 below the root, nothing deeper |
| `Slashing.ChargedAsPromisedExactly` | nekop2p/x/vrg/slashing.go:8-16 | the charges are the documented 30/15/5 percent by distance iff the community is at most two invitations below the root |
| `Slashing.SlashConserves` | nekop2p/x/vrg/slashing.go:246-248 | bonds plus the reported total stay the same |
| `Slashing.SlashingManager.SeverListed` | nekop2p/x/vrg/slashing.go:195-212 | after the loop no listed edge of the community is active |
| `Slashing.SlashingManager.SlashAncestry` | nekop2p/x/vrg/slashing.go:255-309 | bonds along the chain fall by the returned total, nobody below zero |
| `Slashing.SlashingManager.SlashCommunity` | nekop2p/x/vrg/slashing.go:162-251 | refused iff blacklisted or unknown; otherwise the total drop is returned and added up, every active edge of the community is severed, at the cost of its own stake only, nothing else changes, and the record lists exactly the severed edges |
| `SlashingRuns.CutOffExactly` | nekop2p/x/vrg/slashing.go:195-212 | after slashing no run without a new proposal makes an edge of the community active iff none of its edges was frozen or proposed with both stakes |
| `SlashingRuns.ProposalReturns` | nekop2p/x/vrg/namespace.go:193-253 | a new proposal always can: neither proposing nor activating consults the blacklist |
| `SlashingRuns.SlashedAndTrusted` | nekop2p/x/vrg/slashing.go:162-251 | slash, propose, activate: a blacklisted community with an active edge |
| `Onion.Build` | nekop2p/onion/onion.go:105-153 | 3 to 5 hops: every layer is the encryption for its hop of the next address and next layer |
| `Onion.TaggedParts` | nekop2p/onion/onion.go:110-137 | tag, address, port and rest can be read back from a layer |
| `Onion.Serialize` | nekop2p/onion/onion.go:236-273 | the buffer holds circuit, length-prefixed layers and padding, and is a positive multiple of 512 bytes |
| `Onion.ParseOnion` | nekop2p/onion/onion.go:278-312 | the loop parses exactly as the recursive parser, all errors included |
| `Onion.ParsedFramable` | nekop2p/onion/onion.go:278-312 | only non-empty layers below 64 KiB, and at most five, are ever parsed |
| `Onion.ParseExactly` | nekop2p/onion/onion.go:278-312 | a packet is parsed iff its bytes after the circuit are one to five frames and then no further frame |
| `Onion.PaddingStops` | nekop2p/onion/onion.go:260-270 | no frame starts in the padding, whatever the random bytes |
| `Onion.ParsesFrames` | nekop2p/onion/onion.go:278-312 | the parser stops exactly at the padding |
| `Onion.RoundTripExactly` | nekop2p/onion/onion.go:236-312 | parsing undoes serialising iff there are 1 to 5 layers of 1 to 65535 bytes |
| `Onion.BuiltRoundTripsExactly` | nekop2p/onion/onion.go:105-312 | a built packet survives the wire iff 79 bytes per hop plus the message stay below 65536 |
| `Onion.HopUnwraps` | nekop2p/onion/onion.go:191-228 | unwrapping at hop i gives the next address and layer, at the last hop target and message |
| `Onion.UnwrapsExactly` | nekop2p/onion/onion.go:191-228 | a layer is understood iff what it decrypts to is the tag 0 or 1, an address and the rest |
| `Onion.DeliversExactly` | nekop2p/node/node.go:786-819 | a node delivers iff it can read the outermost layer and its tag is 1 |
| `Onion.ForwardsExactly` | nekop2p/node/node.go:786-819 | and forwards iff the tag is 0 and another layer follows: the rest of the packet, freshly padded, to the address in the layer |
| `Onion.HopHandles` | nekop2p/node/node.go:786-819 | a relay forwards, freshly padded, exactly the packet for the next hop |
| `Onion.DeliversAlongPath` | nekop2p/node/node.go:786-819 | along any path the packet visits the hops in order and delivers the message to its target |
| `Inkwell.SharesFit` | nekop2p/inkwell/inkwell.go:289-295 | rounding down never hands out more than the total, even when the 64-bit products wrap |
| `Inkwell.ShareExactly` | nekop2p/inkwell/inkwell.go:289-295 | without wrap-around a share is the exact proportion, rounded down |
| `Inkwell.LargestTies` | nekop2p/inkwell/inkwell.go:307-312 | the lender is the last fragment if it is the largest, and otherwise the first of the largest |
| `Inkwell.ProportionalTotal` | nekop2p/inkwell/inkwell.go:289-300 | the remainder added to the last fragment makes the sum exact |
| `Inkwell.SomeAtLeastTwo` | nekop2p/inkwell/inkwell.go:304-313 | with more units than fragments the largest fragment has at least two |
| `Inkwell.Rng.Below` | nekop2p/inkwell/inkwell.go:341-359 | one draw per call, below the bound |
| `Inkwell.DrawWeights` | nekop2p/inkwell/inkwell.go:281-287 | weights from 1 to 1000 and their sum |
| `Inkwell.Allocate` | nekop2p/inkwell/inkwell.go:289-300 | the loop computes the proportional split |
| `Inkwell.BorrowFor` | nekop2p/inkwell/inkwell.go:304-317 | the borrow step takes a unit from the largest other fragment and empties none |
| `Inkwell.FillEmpty` | nekop2p/inkwell/inkwell.go:302-318 | nothing is lost; with enough units empty fragments get one unit and the others lend some but keep one |
| `Inkwell.SplitAmount` | nekop2p/inkwell/inkwell.go:267-320 | fragments sum to the total for all weights; with more units than fragments every one is positive; they are a function of the amount, the number and the draws, so that both parties get the same |
| `Inkwell.NoEmptyExactly` | nekop2p/inkwell/inkwell.go:267-320 | no fragment is empty iff the total exceeds the count, or equals it and all shares but the last are exactly one |
| `Inkwell.EmptyFragmentsHappen` | nekop2p/inkwell/inkwell.go:289-300 | two units over three equal weights leave two fragments empty |
| `Inkwell.GeneratePlan` | nekop2p/inkwell/inkwell.go:183-209 | the loop computes the plan |
| `Inkwell.DueInOrderExactly` | nekop2p/inkwell/inkwell.go:183-209 | due times strictly increase, for any jitter, iff the window has a nanosecond per fragment |
| `Inkwell.DueInWindow` | nekop2p/inkwell/inkwell.go:183-209 | every due time lies inside the window |
| `Inkwell.GenerateParams` | nekop2p/inkwell/inkwell.go:139-180 | 3 to 7 fragments adding up to the total, due in order inside a window of 1 to 90 days that starts a day later, all determined by amount, seed and time |
| `Scheduler.DueNeverEarlier` | nekop2p/inkwell/inkwell.go:183-209 | due times never run backwards |
| `Scheduler.PaidAndUnpaid` | nekop2p/inkwell/scheduler.go:96-105 | paid and unpaid fragments make up the whole amount |
| `Scheduler.UnpaidAfter` | nekop2p/inkwell/scheduler.go:26-30 | recording an index lowers the remainder by that fragment if it is new and exists, else by nothing |
| `Scheduler.SettledExactly` | nekop2p/inkwell/scheduler.go:96-105 | with positive fragments nothing remains iff every index was recorded |
| `Scheduler.Scheduler.RecordPayment` | nekop2p/inkwell/scheduler.go:26-30 | one more index for this loan, other loans untouched |
| `Scheduler.Scheduler.BuildPaidSet` | nekop2p/inkwell/scheduler.go:115-124 | the set of recorded indices |
| `Scheduler.Scheduler.GetNextDue` | nekop2p/inkwell/scheduler.go:48-93 | the unpaid fragment of lowest index whatever the clock reads; all paid iff every index is recorded |
| `Scheduler.Scheduler.RemainingAmount` | nekop2p/inkwell/scheduler.go:96-105 | the unpaid total; with the paid fragments it makes up the amount |
| `CrossDomain.CrossDomainRouter.LockAndTransfer` | nekop2p/inkwell/cross_domain.go:155-221 | accepted iff namespaces differ, the amount is positive and the transfer is new; the net amount is split exactly |
| `CrossDomain.CrossDomainRouter.AssignFerry` | nekop2p/inkwell/cross_domain.go:225-249 | only from the pool to transit |
| `CrossDomain.CrossDomainRouter.ReleaseOnTarget` | nekop2p/inkwell/cross_domain.go:258-289 | only from transit to the right community; pays the net amount and books the fee |
| `CrossDomain.CrossDomainRouter.RefundOnSource` | nekop2p/inkwell/cross_domain.go:293-314 | only while not released or refunded |
| `CrossDomain.CrossDomainRouter.MarkFailed` | nekop2p/inkwell/cross_domain.go:317-332 | only while not released or refunded; the balance stays |
| `CrossDomain.BooksUpdate` | nekop2p/inkwell/cross_domain.go:155-332 | pool balance and collected fees follow the transfers held and released |
| `CrossDomain.FileNew` | nekop2p/inkwell/cross_domain.go:206-207 | both indexes list every transfer exactly once |
| `CrossDomain.RunFlows` | nekop2p/inkwell/cross_domain.go:155-332 | over every run, what operations moved is what the transfers record |
| `CrossDomain.Conserved` | nekop2p/inkwell/cross_domain.go:155-332 | over every run: locked = pool + paid out + fees + refunded |
| `CrossDomain.NoUnderflow` | nekop2p/inkwell/cross_domain.go:258-314 | the balance covers every transfer still held |
| `CrossDomain.SettledForGood` | nekop2p/inkwell/cross_domain.go:258-332 | a released or refunded transfer never changes or pays again |
| `Recourse.InitiatedScheduled` | nekop2p/x/brightchain/keeper/recourse.go:185-233 | a new provision is on schedule with at least one unit taken |
| `Recourse.NextScheduled` | nekop2p/x/brightchain/keeper/recourse.go:238-412 | every operation keeps the cumulative recovery on schedule and takes what the remainder falls by |
| `Recourse.TakenOnlyWhenActive` | nekop2p/x/brightchain/keeper/recourse.go:248-268 | nothing is taken in the appeal window, outside an active status, twice in an epoch or from an exempt node |
| `Recourse.EpochExactly` | nekop2p/x/brightchain/keeper/recourse.go:248-330 | what an epoch does: nothing unless due; exempts, or takes exactly what is due by then; passes to the next guarantor and completes with the last |
| `Recourse.AppealSuspends` | nekop2p/x/brightchain/keeper/recourse.go:249-251 | while an appeal waits nothing is taken |
| `Recourse.UpheldStops` | nekop2p/x/brightchain/keeper/recourse.go:400-402 | after an appeal is upheld nothing is taken in any run that does not reject it later, and the provision stays cancelled |
| `Recourse.RejectedResumes` | nekop2p/x/brightchain/keeper/recourse.go:403-405 | after an appeal is rejected the next due epoch takes exactly what is due by then |
| `Recourse.RunScheduled` | nekop2p/x/brightchain/keeper/recourse.go:185-412 | over every run: debt = remainder + first deduction + later ones, and these follow the schedule exactly |
| `Recourse.RecoveredExactly` | nekop2p/x/brightchain/keeper/recourse.go:276-300 | two epochs after the default nothing remains iff the last rate covers the debt |
| `Recourse.PercentSchedule` | nekop2p/x/brightchain/keeper/recourse.go:44-53 | with exact percentages: 30, 70 and from the second epoch on all of the debt |
| `Recourse.RecoveredInBinary64` | nekop2p/x/brightchain/keeper/recourse.go:284-286 | with the rates multiplied in binary64 a debt is recovered iff its conversion does not round it down or the first deduction took it all: every debt up to 2^53 is, and 2^53+1 stays one short |
| `Recourse.CreditedExactly` | nekop2p/x/brightchain/keeper/recourse.go:305-333 | a deduction is credited in the history of the node charged iff the rate reached does not cover the debt, or no guarantor is left, or the next node is the same |
| `Recourse.WrongNodeCredited` | nekop2p/x/brightchain/keeper/recourse.go:305-333 | a deduction of 70 charged to guarantor 7 and credited to guarantor 8 |
| `Recourse.ReopenedExactly` | nekop2p/x/brightchain/keeper/recourse.go:359-412 | a settled provision is reopened only by an appeal, even one already resolved |
| `Recourse.CompletedReopened` | nekop2p/x/brightchain/keeper/recourse.go:359-412 | a completed provision made active by an appeal and its rejection |
| `Recourse.ProvisionedAdds` | nekop2p/x/brightchain/keeper/recourse.go:439-442 | the histories add up to the amounts credited |
| `Recourse.RecourseManager.InitiateProvision` | nekop2p/x/brightchain/keeper/recourse.go:185-233 | the new provision replaces any of the same name; remainder plus first deduction is the debt |
| `Recourse.RecourseManager.ProcessOne` | nekop2p/x/brightchain/keeper/recourse.go:247-334 | the body of the loop computes amount and new state |
| `Recourse.RecourseManager.ProcessEpochProvision` | nekop2p/x/brightchain/keeper/recourse.go:238-342 | every provision makes its step whatever the order, one action for each amount taken, reporting target and remainder, and the history of each node grows by exactly what the actions credit to it |
| `Recourse.RecourseManager.PruneOldProvisions` | nekop2p/x/brightchain/keeper/recourse.go:506-523 | only settled provisions are dropped, down to one hundred |
| `Recourse.RecourseManager.SubmitAppeal` | nekop2p/x/brightchain/keeper/recourse.go:359-384 | accepted once, inside the window, whatever the status, which becomes appealed |
| `Recourse.RecourseManager.ResolveAppeal` | nekop2p/x/brightchain/keeper/recourse.go:387-412 | accepted for every submitted appeal: cancelled if upheld, active again if not |
| `Recourse.RecourseManager.RecordCleanEpoch` | nekop2p/x/brightchain/keeper/recourse.go:419-429 | one more clean epoch for that node only |
| `Liability.DeductedEffect` | nekop2p/x/brightchain/keeper/keeper_v2.go:685-712 | credit falls by the amount or to zero; only then trust weight falls, never below 1 |
| `Liability.WeightLost` | nekop2p/x/brightchain/keeper/keeper_v2.go:695-709 | the weight lost is ten percent for every unit of weight the shortfall amounts to, at most all but one |
| `Liability.TakesTenth` | nekop2p/x/brightchain/keeper/keeper_v2.go:641-647 | an epoch takes a tenth of the remainder, rounded down but at least one unit |
| `Liability.ChargedWhom` | nekop2p/x/brightchain/keeper/keeper_v2.go:649-656 | the defaulter is charged while more than 30 percent remain, then the guarantor reached |
| `Liability.ProcessProgress` | nekop2p/x/brightchain/keeper/keeper_v2.go:635-675 | an epoch removes a provision or strictly lowers remainder plus guarantors left |
| `Liability.SettlesInTime` | nekop2p/x/brightchain/keeper/keeper_v2.go:632-683 | whatever accounts come and go, every provision ends in time, and taken + lost or remaining = what was owed; the keeper loses nothing (NothingLost) |
| `Liability.NothingLost` | nekop2p/x/brightchain/keeper/keeper_v2.go:589-591 | with an account of the defaulter, which the keeper demands and never removes, a provision that ends was charged in full |
| `Liability.AbsentDefaulterWrittenOff` | nekop2p/x/brightchain/keeper/keeper_v2.go:648-670 | hypothetical: were the account of the defaulter gone while over 30 percent remain, every guarantor would be passed over uncharged and the rest written off |
| `Liability.RecoveredWhenPresent` | nekop2p/x/brightchain/keeper/keeper_v2.go:632-683 | with the defaulter's account present everything is recovered, whatever guarantors come and go |
| `Liability.RecoveredExactly` | nekop2p/x/brightchain/keeper/keeper_v2.go:632-683 | while the accounts stay the same everything is recovered iff there is someone to charge: for the keeper always, as the defaulter has an account |
| `Liability.ActBalances` | nekop2p/x/brightchain/keeper/keeper_v2.go:587-683 | joining, defaults and epochs keep an account for every defaulter, and no debt is lost but what a replaced provision still owed |
| `Liability.RunBalancesExactly` | nekop2p/x/brightchain/keeper/keeper_v2.go:587-683 | over every run charged + still owed = all debts iff no provision that still owes something loses its name to a new one |
| `Liability.RunChargesInFull` | nekop2p/x/brightchain/keeper/keeper_v2.go:632-683 | over every run that leaves its name alone, taken + remaining is what a provision owed, and after more epochs than its measure it is charged in full |
| `Liability.ReplacedHappens` | nekop2p/x/brightchain/keeper/keeper_v2.go:603-614 | two defaults under one name: 70 units are never charged |
| `Liability.OncePerEpochExactly` | nekop2p/x/brightchain/keeper/keeper_v2.go:725-734 | provisions are processed once per epoch iff no more than one epoch has passed: afterwards in every block |
| `Liability.ChainExactly` | nekop2p/x/brightchain/keeper/keeper_v2.go:593-599 | the guarantors are the inviters on bonds not forfeited |
| `Liability.ChainInOrder` | nekop2p/x/brightchain/keeper/keeper_v2.go:593-599 | one guarantor for each such bond, in the order of the bonds |
| `Liability.Keeper.ApplyProvisionDeduction` | nekop2p/x/brightchain/keeper/keeper_v2.go:685-712 | exactly the target account changes; an unknown one is refused |
| `Liability.Keeper.ProcessRecursiveLiability` | nekop2p/x/brightchain/keeper/keeper_v2.go:587-628 | a known defaulter is charged 30 percent and owes the rest; a provision of the same name is replaced |
| `Liability.Keeper.BeginBlocker` | nekop2p/x/brightchain/keeper/keeper_v2.go:720-734 | provisions are processed in every block from the first epoch on, as only a copy of the keeper advances |
| `Liability.Keeper.ProcessOne` | nekop2p/x/brightchain/keeper/keeper_v2.go:635-675 | the body of the loop: new provision, and the accounts after the deduction |
| `Liability.Keeper.ProcessEpochProvisions` | nekop2p/x/brightchain/keeper/keeper_v2.go:632-683 | every provision makes its step and is charged once, whatever the order; exactly the settled ones are removed and reported, and these were charged in full |
| `Region.LocalConservesExactly` | nekop2p/region/protocol.go:61-86 | a local transaction conserves wealth iff the charge is not covered, or the lock has room for it and either the recipient is a member whose credit and fee wrap as often as the charge, or the charge is zero |
| `Region.LocalConservesInRange` | nekop2p/region/protocol.go:61-86 | where nothing overflows: iff it is not covered, or the recipient is a member, or the charge is zero |
| `Region.UnknownRecipientLoses` | nekop2p/region/protocol.go:70-85 | 1000 units to someone unknown are lost with their fee |
| `Region.LocalConserves` | nekop2p/region/protocol.go:61-86 | without overflow, paying a member loses and creates nothing and leaves locks as they were |
| `Region.LocalMoves` | nekop2p/region/protocol.go:61-86 | without overflow the payer loses amount and fee, the recipient gains the amount, the node the fee, and nobody else changes |
| `Region.SettleMoves` | nekop2p/region/protocol.go:230-250 | the lock is released, the recipient credited, and the fee shared between the nodes with the odd unit to the receiver |
| `Region.SettleEffect` | nekop2p/region/protocol.go:230-256 | settling conserves the money of both nodes unless the recipient is unknown; it fails iff the lock does not cover the charge |
| `Region.SettleHereEffect` | nekop2p/region/protocol.go:230-250 | the same for settling within one node |
| `Region.SettleHereMoves` | nekop2p/region/protocol.go:230-250 | and who pays and receives there |
| `Region.LinkOne` | nekop2p/region/node.go:381-394 | an appended block keeps the chain hash-linked |
| `Region.RegionNode.LockBalance` | nekop2p/region/node.go:147-160 | moves the amount from balance to lock, or refuses |
| `Region.RegionNode.UnlockBalance` | nekop2p/region/node.go:163-175 | releases the amount from the lock, or refuses |
| `Region.RegionNode.CreditBalance` | nekop2p/region/node.go:178-187 | credits a member, or refuses |
| `Region.RegionNode.AddMember` | nekop2p/region/node.go:124-133 | a member with nothing locked |
| `Region.RegionNode.WriteBlock` | nekop2p/region/node.go:380-394 | one more linked block |
| `Region.RegionNode.ExecuteLocalTx` | nekop2p/region/protocol.go:61-116 | the node changes as `LocalNode` says in all four outcomes: money, number, and a block only for a completed transaction |
| `Region.RegionNode.InitiateCrossRegion` | nekop2p/region/protocol.go:162-205 | locks amount and fee, and returns and queues the transaction asked for under a new number |
| `Region.RegionNode.ProcessTx` | nekop2p/region/node.go:373-395 | a queued transaction is recorded under a second number |
| `Region.RegionNode.FinalizeCrossRegion` | nekop2p/region/protocol.go:230-256 | both nodes change as `SettleCross` says, one node settling with itself as `SettleHere`; the transaction is confirmed with its cross reference or marked failed |
| `RegionNet.StartInOrder` | nekop2p/region/node.go:108-133 | two nodes with nothing locked and no blocks are in order |
| `RegionNet.LocalKeeps` | nekop2p/region/protocol.go:61-116 | local transactions keep money, locks and chains in order |
| `RegionNet.InitiateKeeps` | nekop2p/region/protocol.go:162-205 | so does starting a cross-region transaction |
| `RegionNet.RecordKeeps` | nekop2p/region/node.go:373-395 | recording a queued transaction moves no money and keeps the chain linked |
| `RegionNet.FinalizeAcross` | nekop2p/region/protocol.go:230-256 | settling between the two nodes keeps money, locks and chains in order |
| `RegionNet.FinalizeWithin` | nekop2p/region/protocol.go:230-256 | so does settling within one node |
| `RegionNet.FinalizeSucceeds` | nekop2p/region/protocol.go:230-256 | settling a transaction in flight never fails |
| `RegionNet.RunConserves` | nekop2p/region/protocol.go:61-256 | over every interleaving the money of both nodes is constant, each lock is the sum of amount and fee over the transactions in flight, and both chains stay hash-linked |
| `RegionNet.SettledAll` | nekop2p/region/protocol.go:230-256 | with nothing in flight nothing is locked |
| `RegionNet.StartAndSettleMoves` | nekop2p/region/protocol.go:162-250 | starting and settling moves the amount from sender to recipient, and the fee from the sender to both nodes |
| `RegionNet.StartAndSettle` | nekop2p/region/protocol.go:162-250 | the transaction starting returns, given to settlement, pays its recipient |
| `Quorum.UnionAndOverlap` | nekop2p/consensus/pbft.go:510-548 | power of two groups = power of their union + power of their overlap |
| `Quorum.GroupWithin` | nekop2p/consensus/pbft.go:614-616 | no group has more power than all validators |
| `Quorum.QuorumsOverlap` | nekop2p/consensus/pbft.go:130-133 | two quorums share more than a third of the total power |
| `Quorum.ReachableExactly` | nekop2p/consensus/pbft.go:105-133 | the quorum can be reached iff the counted total is below one and a half times the real power |
| `Quorum.ReachableBesideReplaced` | nekop2p/consensus/pbft.go:105-133 | power counted twice puts it out of reach iff it is at least half the real power |
| `Quorum.AddedTwice` | nekop2p/consensus/pbft.go:105-110 | a set of one validator added twice, in which no group reaches the quorum |
| `Quorum.OneWinner` | nekop2p/consensus/pbft.go:510-578 | at most one hash reaches the quorum |
| `Quorum.UniqueWinnerExactly` | nekop2p/consensus/pbft.go:105-110 | a lower bound on the power of the validators makes the winner unique iff it is not negative |
| `Quorum.TwoWinners` | nekop2p/consensus/pbft.go:105-110 | for every negative bound, three validators with which two hashes reach the quorum |
| `Quorum.ForProposalExactly` | nekop2p/consensus/pbft.go:550-578 | a tally that reached the quorum reached it for the current proposal iff for no other hash |
| `Quorum.CommitsAnother` | nekop2p/consensus/pbft.go:550-578 | a proposal is committed on precommits that are all for another hash |
| `Quorum.ValidatorSet.AddValidator` | nekop2p/consensus/pbft.go:105-110 | the counted total is the real power plus what was replaced: it never falls behind while powers are not negative, and a known key counts again |
| `Quorum.ValidatorSet.RemoveValidator` | nekop2p/consensus/pbft.go:113-120 | removes the validator and its power, and keeps the total ahead of the real power |
| `Quorum.ValidatorSet.Quorum` | nekop2p/consensus/pbft.go:130-133 | the least number that exceeds two thirds of the counted total |
| `Quorum.ValidatorSet.TallyPrevotes` | nekop2p/consensus/pbft.go:510-531 | without negative power the winner is the hash that reaches the quorum, in whatever order votes are counted |
| `Quorum.ValidatorSet.TallyPrecommits` | nekop2p/consensus/pbft.go:550-563 | without negative power: whether some hash, whichever it is, reaches the quorum |
| `Quorum.ValidatorSet.TryCommit` | nekop2p/consensus/pbft.go:550-578 | the current proposal is committed iff some hash reached the quorum |
| `Threshold.Needed` | nekop2p/crypto/threshold_sign.go:26-32 | the threshold is two thirds of the members, rounded up, and at least one |
| `Threshold.SignersNext` | nekop2p/crypto/threshold_sign.go:109-128 | one more entry adds its member iff it is genuine |
| `Threshold.AcceptedExactly` | nekop2p/crypto/threshold_sign.go:102-131 | accepted are exactly the signatures behind which a group of the required size stands, each with its registered key and a valid signature |
| `Threshold.VerifyThresholdSignature` | nekop2p/crypto/threshold_sign.go:102-131 | accepted iff the members with a genuine entry, each counted once, reach the threshold; a wrong threshold is an error |
| `Threshold.AcceptedShareAThird` | nekop2p/crypto/threshold_sign.go:26-131 | two accepted signatures share at least a third of the members |
| `Threshold.EveryoneSuffices` | nekop2p/crypto/threshold_sign.go:26-131 | all members together always reach the threshold |

## Left out

- RatchetChain.AnyOrderOnce: for chains of at most 2^32 - 1 messages; number 2^32 - 1 still decrypts but makes the receiver's counter start over (`RatchetChain.CounterWraps`).
- RatchetLost.LostForGood: the keys drawn are new; only messages really sent are delivered.
- RatchetSecrecy.LeakExposesExactly: the eavesdropper only listens, and one session leaks once.
- CreditNotes.Keeper.SpendCreditNotes: value is conserved when the change is neither in the tree nor among the notes; collisions of random serials are the only other case.
- CreditNotes.RestoreRebuilds: the commitments in the tree differ in their 16-byte prefixes, without which the store cannot hold them all.
- Recourse.NextScheduled: the rates are taken in increasing order with the first at most the debt; debts so large that a converted rate overflows 64 bits are not covered.
- RegionNet.RunConserves: fee rates stay the same between starting and settling a transaction, amount plus fee fits in 64 bits, and recipients were verified; nothing ever releases the lock of a transaction that is not settled.
- Region.RegionNode.FinalizeCrossRegion: returns the transaction with its new status instead of updating one shared with the recorded block, where only the name enters the hash; a transaction can be finalised again, which the runs of `RegionNet` exclude.
- Scheduler.Scheduler.GetNextDue: the lowest unpaid index is promised for windows that do not end before they start, as every generated one.
- Quorum.ValidatorSet.AddValidator: the 64-bit width of the total is not modelled.
- Inkwell.SplitAmount: the sum of the weights stays below 2^64, as it does for any list that fits in memory.
- Real cryptography, header and note byte formats, and the persistence layer with its errors.
- Circuits, path selection and replies of the onion layer; relay selection for fragments.
- Adaptive picking of a random due fragment (`GetNextFragment`) and `IsFullyPaid`, which counts repeated payments.
- Security coefficients, tree statistics, appeals against the blacklist and slashing cooldowns.
- Total stake, statistics and timestamps of trust edges; namespace routing and the second bond manager of that file.
- Snapshots, failover, monthly settlement and batches of region nodes; `FinalizeLocalTx`, which renames recorded transactions.
- Agreement across consensus rounds, locking, timeouts and the engine loop; only the counting is modelled.
- Community identifiers, avatars and state roots; sorting the member keys.
- Interest, salaries, trust-weight cascades and genesis handling of the ledger.
- Games, parties, leaderboards, exams, rate limits and the mempool: single-branch code that would only add easy members.
