# A model of an optimistic-rollup node

The node keeps account balances in a sparse Merkle tree, turns transactions into transitions, posts them in
blocks, and lets a validator replay every block and answer a wrong one with a fraud proof. This project models
those layers in Dafny and proves what each promises the next. `dafny verify dfyconfig.toml` checks all of it.

From the bottom up:

* **Store** (`Namespaces`, `MemoryDb`): one key-value store shared by namespaced tables, with deferred batches.
* **Trees** (`PathBits`, `MerkleTree`, `TrieStore`, `SparseMerkleTree`, `Proofs`, `TreeRuns`, `DeepSubtree`):
  nodes kept under their hash. The loops of the source are methods proved equal to recursive functions of the
  store, failures included; theorems about runs are lemmas about those functions. An update only adds entries,
  so every root ever handed out stays a map of its own.
* **Records** (`Abi`, `Accounts`, `Transitions`, `Blocks`, `Wire`): the argument lists written out, with integers cut
  to 256 bits where the encoder cuts them; `Wire` says position by position, without the encoder, which bytes result.
* **State machine** (`Ledger`, `LedgerTheorems`, `Effects`, `StateSpec`, `StateSteps`, `StateFacts`, `StateMachine`):
  the class over store and trie stands for a plain account list in which account i has slot i. Its methods are proved
  to compute exactly the functions of `Ledger`, about which conservation and nonce discipline are proved. `Effects`
  says, in balances and nonces alone, which transactions are accepted and what each does to every address; these laws
  leave one ledger only.
* **Aggregator and validator** (`BlockTree`, `Sealing`, `Aggregator`, `Validation`, `Validator`, `Verdicts`, `Replay`,
  `ReplayExact`, `FraudProofs`, `FraudCoherence`, `Silence`, `Inputs`): both programs as classes, each tied to a pure
  step function, and the simulation between them.

**Main results**, each for every run or every input:

* honest replay and its exact condition: `HonestReplay`, `HonestEvents`, `ReplayAgreesIff`, `NothingMatchesAfterwards`;
* when a wrong root is reported, skipped, or crashes the validator: `WrongRootReportedIff`, `SkippedIff`, `CrashedIff`;
* what a transition is taken to say, and the verdict on it: `ReconstructedIs`, `JudgedIff`;
* what a silent validator guarantees about any list, and what it does not check: `QuietIsOneRun`, `MatchedEmittedIff`;
* the fraud proofs of a replay, and when there is none: `FirstReportIsCoherent`, `EveryReportEnds`, `ReportAfter`;
* blocks lose, reorder and renumber nothing: `SealingLosesNothing`, `RunLosesNothing`, `BlockTreeSeparates`;
* store, trie and account list agree after every step: `CreateStep`, `ReplaceStep`, `RecordIsLeaf`, `StateRootBinds`;
* who is accepted, who pays and who is paid: `AcceptedIff`, `RefusedIff`, `LedgerDecided`, `BalanceOverRun`;
* conservation and nonce discipline for all amounts: `Conservation`, `NonceCounts`, `NoReplay`;
* every root is a map, for ever: `EveryRootIsAMap`, `AnswersPersist`, `PartialTreeSimulates`;
* proofs are complete, bind, and survive compaction: `ProvedVerifies`, `ProofsBind`, `ProvedCompactVerifies`;
* encodings byte for byte, and back: `TransitionBytes`, `DecodesIff`, `BlockBytes`, `TransitionRoundTripIff`.

**The hash** is any function from byte strings to 32 bytes. Nothing assumes it injective. A theorem about stored
trees asks that no two of the strings actually hashed so far collide (`CollisionFree` of a finite recorded set); a
theorem about proofs concludes with an explicit collision as its other case. The methods of the state machine, the
aggregator and the validator state their results under `Sound()`: no recorded collision, and at most 2^159
accounts, the number of leaves. Their `Valid()` does not depend on it.

**Errors.** `Result` carries the source's errors; `Panic` stands for a Go run-time panic, which nothing in the source
recovers from. A run of the aggregator or the validator ends at the first panic, with `crashed` set; what the state
machine had written by then stays written.

**Where the code and the natural claim part**, the code is kept and the exact condition is proved:

* A self-transfer writes the recipient's copy last, so it adds its amount, spends no nonce and can be repeated
  (`ConservedIffNoSelfTransfers`, `SelfTransferRepeats`); its first entry does not fold (`SelfTransferEntryFails`).
* A balance that leaves 256 bits is stored modulo 2^256. `Conservation` counts what is cut off, which is nothing
  exactly when no balance overflows; `FullBalanceOverflows` is an input.
* A rejected transaction may have created its target (`RejectionEffect`). The validator ends with the aggregator's
  accounts if and only if that never happens and no self-transfer creates its own account (`ReplayAgreesIff`); after
  the first such account nothing the aggregator posts is matched again (`NothingMatchesAfterwards`).
* A wrong posted root is reported if and only if the transition can be rebuilt and its replay does not crash
  (`WrongRootReportedIff`, `SkippedIff`, `CrashedIff`); `AnyRootUnreported` is an input on which any root passes.
* The sender's length check of a transfer lets an index equal to the length through, and the access behind it panics:
  `PanicsIff` says on which transactions, `SecondTokenPanics` is one; `CrashedIff` says which transitions do the
  same to a validator, `SecondTokenCrashes` is one.
* A matched transition need not be one an aggregator could post (`MatchedEmittedIff`): the slot of a created account and
  the choice of kind are not checked (`CreatedSlotUnchecked`, `KindUnchecked`).
* A proof for a report right after a mismatched transition has slots that do not fold to the root its predecessor
  posted (`ReportAfter`).
* The mask of a compact proof is written with one bit order and read with another (`CompactionInvertibleIff`,
  `CompactionLosesEntryZero`); proofs read from a tree never set a bit, so they survive (`ProvedCompactRoundTrip`).
* `CreateAndTransfer` and transitions of blocks of more than 256 cannot be proved fraudulent
  (`FirstReportIsCoherent`; `FraudTransferCrashes` is a run). The predecessor of block 0 is looked up under the key of
  block 1, because a big integer's bytes drop its sign: it is missing if and only if no block 1 is stored
  (`FirstOfBlockZero`, `BlockZeroAfterBlockOne`, `FirstRootUnproved`).
* A state machine over the store of an earlier run starts from the empty tree (`RestartForgets`).
* `VerifyProof` and `AddBranches` always hash the key. For trees with plain keys, such as the state trie, proofs are
  stated through `Folds` along the key's own path.

## Model

| member | source | states |
|---|---|---|
| `Namespaces.NamespacesNeverOverlap` | db/utils.go:3-22 | A stored key determines its namespace and its key, so the trie, the records, the registry and the blocks never overwrite each other in the one store. |
| `Namespaces.TableSet` | db/utils.go:17-22 | A namespaced write changes exactly one entry of one table and leaves every other namespace as it was. |
| `MemoryDb.DB.Set` | db/memorydb/db.go:36-46 | A write replaces exactly the entry under the prepended key. |
| `MemoryDb.DB.Get` | db/memorydb/db.go:59-68 | A read returns the entry under the prepended key and whether there is one. |
| `MemoryDb.Bulk.Flush` | db/memorydb/bulk.go:42-68 | The queued operations take effect in order, once; a discarded or already flushed batch is refused and changes nothing. |
| `MemoryDb.Bulk.Set` | db/memorydb/bulk.go:19-29 | Queues the write at the end of the batch; nothing reaches the store yet. |
| `MemoryDb.Transaction.Commit` | db/memorydb/transaction.go:48-74 | All queued writes reach the store in order, or none does: a discarded or committed group is refused and changes nothing. |
| `MemoryDb.LastWriteWins` | db/memorydb/bulk.go:52-65 | After a flush a key holds what the last queued operation on it left there. |
| `PathBits.IsLeftReadsBits` | smt/utils.go:14-19 | The shifts of isLeft at depths 0 to height - 2 read the key's low height - 1 bits, most significant first, for keys of any length. |
| `PathBits.KeySelectsLeaf` | smt/utils.go:14-19 | The leaf a key selects is the key as an integer modulo 2^(height-1). |
| `PathBits.PaddingKeepsPath` | smt/smt.go:277-300 | Left-padding a key with zeros changes no answer of isLeft. |
| `PathBits.SameLeafIffCongruent` | smt/utils.go:14-19 | Two keys take the same path exactly when they are congruent modulo 2^(height-1). |
| `PathBits.SetBit` | smt/utils.go:21-25 | Sets one bit of the mask in place: afterwards exactly that bit and the earlier ones test true with hasBit. |
| `PathBits.CountSetBits` | smt/utils.go:27-35 | Counts the positions at which hasBit answers true. |
| `SparseMerkleTrees.DefaultNodes` | smt/defaultnodes.go:13-35 | Entry i of the table is the root of the empty tree with 255 - i levels. |
| `SparseMerkleTrees.SparseMerkleTree.constructor` | smt/smt.go:30-71 | Without the init marker the default nodes are stored in one batch and the root is that of the empty tree or the given one; with the marker the store is left alone. |
| `SparseMerkleTrees.SparseMerkleTree.GetForRoot` | smt/smt.go:113-144 | Walking the stored nodes from any root gives the answer of the recursive lookup, with its errors. |
| `SparseMerkleTrees.SparseMerkleTree.SideNodesForRoot` | smt/smt.go:201-234 | The loop collects the sibling list of the recursive walk, root first, with its errors. |
| `SparseMerkleTrees.SparseMerkleTree.UpdateWithSideNodes` | smt/smt.go:169-199 | Returns the fold of the value along the path, and the store gains exactly the strings hashed on the way, each under its hash. |
| `SparseMerkleTrees.SparseMerkleTree.UpdateForRoot` | smt/smt.go:155-167 | An update from any root: result, store and recorded strings are those of the recursive definition, and a failed update changes nothing. |
| `SparseMerkleTrees.SparseMerkleTree.Update` | smt/smt.go:146-153 | As UpdateForRoot from the current root, which moves to the new root only on success. |
| `SparseMerkleTrees.SparseMerkleTree.ProveForRoot` | smt/smt.go:243-255 | The proof is the sibling list reversed, leaf's sibling first. |
| `SparseMerkleTrees.SparseMerkleTree.GetPath` | smt/smt.go:277-300 | Hashed or zero-padded key; an unhashed key over 32 bytes is an error. |
| `SparseMerkleTrees.ReverseProof` | smt/proofs.go:111-117 | Exchanging entries from the middle outwards reverses the slice in place. |
| `MerkleTree.PutTreeOf` | smt/smt.go:146-199 | Replacing one leaf of the Merkle tree of a map is updating one entry of the map. |
| `MerkleTree.GetPut` | smt/smt.go:107-199 | After an update the updated path holds the new value and every other path its old one. |
| `MerkleTree.FoldIsPut` | smt/smt.go:169-199 | Folding a path's siblings around any value gives the root of the tree holding that value there. |
| `MerkleTree.Binding` | smt/proofs.go:26-57 | Two openings of one root along one path are equal, or some level of the two foldings is an explicit hash collision; the level is returned. |
| `MerkleTree.RootsBind` | smt/smt.go:169-199 | Trees of one height with equal roots are equal, or two of their nodes are an explicit hash collision; both strings are returned. |
| `TreeRuns.UpdateTracks` | smt/smt.go:155-199 | An update of a present path makes the stored tree the mathematical tree with that leaf replaced, and every tracked path stays present in the store. |
| `TreeRuns.EveryRootIsAMap` | smt/smt.go:30-71 | After any run of updates, each from any earlier root, every root handed out is the Merkle root of its own map; every lookup answers that map's entry and every sibling list proves it, present or absent. |
| `TreeRuns.AnswersPersist` | smt/smt.go:155-199 | A root's lookups and sibling lists are the same right after it was made and after any further updates from any roots. |
| `TrieStore.AnyAnswerPersists` | db/memorydb/bulk.go:42-68 | A successful read or proof from any hash whatever is repeated after any update from any root, because flushed writes only add entries. |
| `TrieStore.WritesOnlyAdd` | smt/smt.go:169-199 | Without a collision no flushed node replaces an entry of the store. |
| `TrieStore.LookupIff` | smt/smt.go:113-144 | From any hash in any store, a lookup answers a value exactly when a chain of stored nodes, each holding the next hash as the half the path takes, ends in it. |
| `TrieStore.SidesAlong` | smt/smt.go:201-234 | Along such a chain the i-th sibling is the half of the i-th node that the path does not take. |
| `TrieStore.SidesFailAlike` | smt/smt.go:201-234 | A sibling list fails exactly when the lookup of the same path does, and with the same error. |
| `TreeRuns.ProofComplete` | smt/smt.go:201-255 | For every present path the stored value and siblings are the tree's, and the siblings fold the value to the root. |
| `TreeRuns.ProvedVerifies` | smt/proofs.go:26-57 | With hashed keys every proof handed out is accepted for the value the tree returns. |
| `Proofs.VerifyProof` | smt/proofs.go:26-57 | Accepts exactly the proofs of full length that fold the value along the hashed key's path to the root. |
| `Proofs.ProofsBind` | smt/proofs.go:26-57 | Two accepted proofs for one path and root have the same value and, cut or padded to 32 bytes, the same entries, or exhibit a collision. |
| `Proofs.CompactProof` | smt/proofs.go:69-87 | Mask and kept entries are those of the recursive definition; a wrong length is an error. |
| `Proofs.DecompactProof` | smt/proofs.go:89-109 | Size checks, default nodes and kept entries are those of the recursive definition; running out of entries is a panic. |
| `Proofs.VerifyCompactProof` | smt/proofs.go:60-67 | Accepts exactly the compact proofs that decompact to a folding proof. |
| `Proofs.ProveCompactForRoot` | smt/smt.go:268-275 | The compact proof is the compacted proof of the same key and root. |
| `Proofs.CompactedIs` | smt/proofs.go:69-87 | Bit i of the mask is set exactly when entry i, cut or padded to 32 bytes, is the default of its height; entry i stands behind the mask, after the entries kept before it. |
| `Proofs.DecompactedIs` | smt/proofs.go:98-108 | Entry j of an expanded proof is the next unread entry behind the mask where isLeft holds at depth j, and the default of its height elsewhere. |
| `Proofs.DecompactsIff` | smt/proofs.go:89-109 | A compact proof expands exactly when it has the size its mask calls for and isLeft asks for no more entries than follow the mask; a wrong size is the size error, and asking for more panics. |
| `Proofs.CompactionInvertibleIff` | smt/proofs.go:69-109 | A compacted proof of n entries decompacts to itself exactly when each entry j is default if and only if entry 8*(31 - b/8) + b mod 8, with b = n - 1 - j, exists and is default: setBit counts the mask's bits from the first byte, isLeft from the last. |
| `Proofs.FullHeightInvertibleIff` | smt/utils.go:14-25 | For a full-height proof the condition is read byte by byte: of every eight entries the eighth is not default and the first seven are default symmetrically about the middle one. |
| `PathBits.BitOfNumber` | smt/utils.go:7-19 | Bit b of the big-endian number isLeft shifts is the bit hasBit finds at position 8*(length - 1 - b/8) + b mod 8. |
| `Proofs.CompactionLosesEntryZero` | smt/proofs.go:69-109 | One default entry at position 0 of a full-height proof is enough for the round trip to fail. |
| `Proofs.CompactionKeepsZeroAndSix` | smt/proofs.go:69-109 | Defaults at exactly positions 0 and 6 of a full-height proof survive it. |
| `TreeRuns.ProvedCompactRoundTrip` | smt/smt.go:258-275 | Compacting a proof read from a tree sets no bit, so decompacting returns it unchanged, given no collision and no 64-byte leaf. |
| `TreeRuns.ProvedCompactVerifies` | smt/proofs.go:60-109 | With hashed keys every compact proof handed out is accepted for the value the tree returns, under the same conditions. |
| `DeepSubtree.DeepSparseMerkleSubTree.AddBranches` | smt/deepsubtree.go:26-35 | Reverses the caller's proof in place; writes the nodes of one branch, returns the fold of the first height - 1 reversed entries and moves the root only when asked; a proof with fewer entries panics and leaves the tree as it was. |
| `TreeRuns.PartialTreeSimulates` | smt/deepsubtree.go:9-35 | A subtree holding only the branches of some hashed keys, at least one added with updateRoot, goes through any updates of those keys with the full tree's roots, values and siblings, and keeps every node on their paths, as long as no strings of the full tree collide. |
| `TreeRuns.UpdatesTrack` | smt/deepsubtree.go:9-35 | Both trees keep storing one and the same mathematical tree, and the partial one only ever writes strings the full one writes too. |
| `Abi.UnpackPack` | types/account_info.go:41-62 | Unpacking packed arguments returns them with every integer modulo 2^256. |
| `Accounts.AccountRoundTrip` | types/account_info.go:41-62 | A stored account record reads back with every number modulo 2^256, hence unchanged when all are in range. |
| `Accounts.AccountBytesInjective` | types/account_info.go:41-52 | Records with equal bytes have equal addresses and equal stored numbers. |
| `Accounts.EmptyLeafIsNoAccount` | types/account_info.go:54-62 | The default leaf does not decode as an account. |
| `Wire.AccountBytes` | types/account_info.go:41-52 | Byte strings equal a record's stored bytes exactly when they hold the address after twelve zeros, three offsets, and behind them the three arrays, each as a length word and one word for every number. |
| `Transitions.TransitionRoundTripIff` | types/transitions.go:322-337 | Decoding an encoded transition of any of the five kinds returns it exactly when its type field, cut to 64 bits, names its own layout. |
| `Transitions.TransitionSize` | types/transitions.go:62-75 | An encoding is its head words plus the padded signature. |
| `Wire.TransitionBytes` | types/transitions.go:62-75 | Byte strings equal a transition's encoding exactly when each field stands in its own word, addresses after twelve zeros, and the signature lies behind its length word and is filled up with zeros to the end. |
| `Wire.DecodesIff` | types/transitions.go:322-337 | Any bytes decode to a given transition exactly when the low 64 bits of the first word name its kind, each field is read from its own word, and the signature from where the last head word points; padding is not looked at. |
| `Blocks.Serialize` | types/rollup_block.go:56-71 | The loop encodes every transition in order and packs them with the block number. |
| `Blocks.DeserializeRollupBlockFromFields` | types/rollup_block.go:40-54 | Decodes every transition in order; the first that fails decides the error. |
| `Blocks.DecodePanicsIff` | types/transitions.go:322-324 | Decoding panics exactly when the first transition that does not decode is shorter than its 32-byte type word. |
| `Blocks.BlockRoundTrip` | types/rollup_block.go:27-85 | Decoding an encoded block returns its number and all its transitions. |
| `Wire.BlockBytes` | types/rollup_block.go:73-85 | Byte strings equal an encoded block exactly when they hold number, list offset and list length, and for every item the offset word that leads to it, its length, its bytes and zeros up to a whole word, with nothing behind. |
| `Wire.BlockNumberRead` | types/rollup_block.go:27-38 | Whatever stored bytes decode, the block's number is the low 64 bits of the first word. |
| `Blocks.ReceivedRoundTrip` | types/rollup_block.go:27-85 | Whatever raw transitions decode, the decoded block can be encoded, stored and decoded again to itself. |
| `StateMachines.StateMachine.constructor` | statemachine/state_machine.go:30-42 | The root is that of the empty tree; over a store without state the machine stands for the empty account list, and over one that carries the init marker nothing is written. |
| `StateFacts.RestartForgets` | statemachine/state_machine.go:30-42 | Over the store of an earlier run every account record is still answered but no slot has a snapshot any more; store, trie and list agree again if and only if there were no accounts. |
| `StateMachines.StateMachine.GetTokenIndex` | statemachine/state_machine.go:420-434 | Answers the registered index of a token, or that it is not mapped. |
| `StateMachines.StateMachine.GetAccountInfo` | statemachine/state_machine.go:377-398 | Answers the account of the list with that address, or that there is none. |
| `StateMachines.StateMachine.CreateAccount` | statemachine/state_machine.go:315-375 | Appends an all-zero account under the next slot key: three records in one transaction, then the leaf. |
| `StateMachines.StateMachine.SetAccountInfo` | statemachine/state_machine.go:400-418 | Replaces record and leaf of the address's slot together; an unknown address changes nothing. |
| `StateMachines.StateMachine.ApplyDeposit` | statemachine/state_machine.go:107-159 | Accounts and result are those of the pure deposit, with its creation, its errors and their order. |
| `StateMachines.StateMachine.ApplyWithdraw` | statemachine/state_machine.go:161-215 | Accounts and result are those of the pure withdrawal; when it is accepted, what it takes and what a refusal says is Effects.AcceptedIff, BalanceStep and RefusedIff. |
| `StateMachines.StateMachine.ApplyTransfer` | statemachine/state_machine.go:217-313 | Accounts and result are those of the pure transfer: recipient created before any check, sender written first, recipient last; who is accepted, pays and is paid is Effects.AcceptedIff, TransferPays and BalanceStep. |
| `StateMachines.StateMachine.ApplyTransaction` | statemachine/state_machine.go:44-105 | Returns the new state root and one entry per written account, each with its slot and its proof against the final root; a proof that cannot be read yields neither an update nor an error. |
| `StateMachines.StateMachine.GetStateSnapshot` | statemachine/state_machine.go:436-456 | Answers account, root and proof of a slot; an unused slot does not decode, and a slot past the last leaf reads the leaf it shares. |
| `StateMachines.MaybeExpandAccountInfo` | statemachine/state_machine.go:462-478 | Three arrays of one length end at the larger of that length and the token's index plus one; each keeps what it held and is zero from there on. |
| `StateSteps.CreateStep` | statemachine/state_machine.go:315-375 | Creating an account keeps the agreement of store, trie and account list and leaves the other tables alone. |
| `StateSteps.ReplaceStep` | statemachine/state_machine.go:400-418 | Replacing an account keeps the agreement of store, trie and account list and leaves the other tables alone. |
| `StateFacts.RecordIsLeaf` | statemachine/state_machine.go:315-418 | For every key whatever: it has a record exactly when it is the bytes of a slot number 0 to n - 1; its trie leaf is then that record, and a key that selects no account's leaf reads the default value. |
| `StateFacts.AddressesAndKeys` | statemachine/state_machine.go:350-361 | Addresses and slot keys are in bijection, and address i of the list has key i. |
| `StateFacts.StateRootBinds` | statemachine/state_machine.go:458-460 | Account lists with equal state roots are equal, or two strings hashed into their trees are an explicit collision. |
| `StateSpec.EntriesCertifyThemselves` | statemachine/state_machine.go:68-104 | Every returned entry's record folds with its proof at its slot to the returned root, except the sender's entry of a self-transfer. |
| `StateFacts.SelfTransferEntryFails` | statemachine/state_machine.go:294-312 | The sender's entry of an accepted self-transfer does not fold to the returned root, or exhibits a collision. |
| `Ledger.ApplyKeepsWellFormed` | statemachine/state_machine.go:44-313 | Every transaction keeps addresses distinct, the three arrays of an account equally long, and stored numbers within 256 bits. |
| `Ledger.RejectionEffect` | statemachine/state_machine.go:107-313 | A rejected transaction leaves every account as it was and appends one all-zero account exactly when its mapped token meets a missing target. |
| `Effects.AcceptedIff` | statemachine/state_machine.go:107-292 | A transaction is accepted exactly when its token is mapped, its amount is not negative and, to withdraw or transfer, its payer is listed with the token, has at least the amount, and names the next nonce; a self-transfer also opens its account, with nothing in it. |
| `Effects.RefusedIff` | statemachine/state_machine.go:107-264 | A transaction that is not accepted is refused with the error of the first check it fails, in the order of the source, the length check of a transfer and its panic included. |
| `Effects.BalanceStep` | statemachine/state_machine.go:107-313 | After any transaction every address holds, of every token, what it held plus what came in minus what went out, modulo 2^256; nothing goes out that was not there, and its arrays grow only to reach the token it is paid in. |
| `Effects.TransferPays` | statemachine/state_machine.go:270-301 | An accepted transfer to another address takes the amount from the sender's balance, adds it to the recipient's modulo 2^256, and touches no other address or token. |
| `Effects.LedgerDecided` | statemachine/state_machine.go:44-313 | Of all well-formed ledgers, the one a transaction leads to is the only one in which listed addresses stay in place, a missing target joins last, and every balance, array length and nonce is as the laws say. |
| `Effects.BalanceOverRun` | statemachine/state_machine.go:107-313 | Over every run each address holds, of every token, what came in to it minus what went out, modulo 2^256, and exactly that while what came in stays below 2^256. |
| `LedgerTheorems.Conservation` | statemachine/state_machine.go:107-313 | Over every run and for all amounts, a token's total plus 2^256 for each multiple cut off in storing is accepted deposits plus self-transferred amounts minus accepted withdrawals; nothing was cut off exactly when no balance ever left the uint256 range. |
| `LedgerTheorems.ConservationModulo` | statemachine/state_machine.go:107-313 | Modulo 2^256 the total is always deposits plus self-transfers minus withdrawals. |
| `LedgerTheorems.ConservedBelowLimit` | statemachine/state_machine.go:107-313 | While deposits and self-transfers stay below 2^256 the equation holds between integers and no balance overflows. |
| `LedgerTheorems.FullBalanceOverflows` | types/account_info.go:41-52 | One input: a deposit of 2^256 - 1 and one of 1 leave a total of 0. |
| `LedgerTheorems.ConservedIffNoSelfTransfers` | statemachine/state_machine.go:294-301 | The total is deposits minus withdrawals exactly when no positive amount was self-transferred. |
| `LedgerTheorems.NonceCounts` | statemachine/state_machine.go:186-264 | Over every run a stored nonce is the number of accepted spends of it, modulo 2^256; self-transfers spend none. |
| `LedgerTheorems.NoReplay` | statemachine/state_machine.go:186-264 | An accepted spend carries the number of earlier ones, so no nonce of one account and token is accepted twice. |
| `LedgerTheorems.SelfTransferRepeats` | statemachine/state_machine.go:273-301 | An accepted self-transfer is accepted again and adds its amount each time. |
| `LedgerTheorems.PanicsIff` | statemachine/state_machine.go:107-313 | A transaction panics exactly when it is a transfer of a mapped token, not of a negative amount, whose sender exists and has as many balances as the token's index; deposits and withdrawals never do. |
| `LedgerTheorems.TransferPanicsIff` | statemachine/state_machine.go:250-264 | A transfer panics exactly when, after its recipient was created, the sender is found, the amount is not negative and the token's index equals the number of the sender's balances; whether it does is settled before the creation. |
| `LedgerTheorems.SecondTokenPanics` | statemachine/state_machine.go:250-264 | One input: after a first deposit of the first of two tokens, any transfer of the second by that account panics. |
| `BlockTrees.NewRollupBlockInfo` | types/rollup_block_info.go:20-44 | Builds the tree of a block over a store of its own, one update per transition; no transition, or more than 256, is a panic. |
| `BlockTrees.RollupBlockInfo.GetIncludedTransition` | types/rollup_block_info.go:50-72 | Returns the encoded transition with block number, index and siblings, with the errors of the proof. |
| `BlockTrees.RoomForAll` | types/rollup_block_info.go:20-44 | A tree as high as it has transitions has room for all of them. |
| `BlockTrees.BlockTreeSeparates` | types/rollup_block_info.go:20-72 | With 1 to 256 transitions each keeps a leaf of its own, and what is handed out for i folds exactly transition i at index i to the final root, and carries the block's own number below 2^63 and that number less 2^64 from there on. |
| `Aggregators.Aggregator.ApplyTransaction` | aggregator/aggregator.go:223-248 | Accounts, pending block, sealed blocks and result are those of the pure step; a failed proposal is reported although the transaction stays applied, and a panic ends the process. |
| `Aggregators.Aggregator.AddToPendingBlock` | aggregator/aggregator.go:250-360 | Appends the one transition of the transaction's kind, with slots, token index and root, a transfer's root blanked by fraudTransfer. |
| `Aggregators.Aggregator.ProcessTransactions` | aggregator/aggregator.go:216-221 | Draining a queue through the loop is the pure run over it: errors do not stop it, a panic does. |
| `Sealing.AcceptedIsEmitted` | aggregator/aggregator.go:250-360 | A transaction leaves a transition exactly when it is accepted; the Invalid token branches are never reached. |
| `Sealing.CallerLearns` | aggregator/aggregator.go:223-248 | A refusal is passed on; a failed proposal is reported, exactly when an accepted transaction fills the block and proposing fails, while the transaction stays applied and its transition pending; otherwise the caller learns of no error. |
| `Sealing.SealingLosesNothing` | aggregator/aggregator.go:237-243 | Whatever proposals fail, sealed blocks and pending block are consecutive spans of the transitions, numbered 0, 1, 2, ..., and a sealed block holds the threshold plus its failed proposals. |
| `Sealing.RunLosesNothing` | aggregator/aggregator.go:223-360 | Over every run, sealed blocks followed by the pending one are exactly the accepted transitions, in order, of the submissions handled before the process ended. |
| `Sealing.HandledStops` | aggregator/aggregator.go:216-221 | The handled submissions are a prefix of the queue that ends with the first that panics, or the whole queue when none does. |
| `Sealing.AggregatorRunSeals` | aggregator/aggregator.go:216-248 | Over every run the accounts are those of the plain ledger run over the handled submissions, the blocks those of sealing their accepted transitions, and the process has crashed exactly when the last one handled panics. |
| `Validators.Validator.GetInputStateSnapshots` | validator/validator.go:147-198 | Snapshots of the slots a transition names, in order, with a nil for an account to be created. |
| `Validators.Validator.GetTransactionFromTransitionAndSnapshots` | validator/validator.go:200-305 | The transaction named by transition, snapshots and token table, or Invalid token. |
| `Validators.Validator.ValidateTransition` | validator/validator.go:110-145 | Replays the rebuilt transaction: skipped when it cannot be rebuilt, reported when rejected or when the roots differ, else silent. |
| `Validators.Validator.GenerateContractFraudProof` | validator/validator.go:307-373 | Slots, reported transition and predecessor, failing in the source's order; slot i is input i with its own account and siblings. |
| `Validators.Validator.ValidateBlock` | validator/validator.go:74-108 | Stores the block, replays its transitions in order and collects the proofs; a proof that cannot be assembled ends the block. |
| `Validators.Validator.WatchRollupBlockCommitted` | validator/validator.go:52-72 | The event loop is the pure validation of the blocks that arrived; an event that does not decode ends it, and a panic while decoding or replaying crashes the process. |
| `Validation.SlotsInOrder` | validator/validator.go:307-325 | Input i becomes slot i, with its index, account and siblings; a missing snapshot among the inputs, and nothing else, panics. |
| `Validation.BlockReplays` | validator/validator.go:74-108 | A block is replayed up to its end, or up to and including the transition that crashed the process or whose report could not be assembled; the accounts are those of replaying exactly that part, reported or not. |
| `Validation.SubmittedInOrder` | validator/validator.go:80-107 | Validating more blocks only adds to the end of what was submitted. |
| `Validation.ReceivedIff` | validator/validator.go:52-72 | An event is received as a block exactly when its number modulo 2^64 and every transition, decoded in order, are the block's. |
| `Validation.ArrivedIs` | validator/validator.go:52-72 | The blocks that arrive are the decoded events, in order, up to the first that does not decode. |
| `Validation.ReceivedPanicsIff` | validator/validator.go:60-67 | Receiving an event panics exactly when its first bad transition is shorter than the type word. |
| `Replay.StepRebuilds` | validator/validator.go:200-305 | From an accepted transaction's transition and equal accounts the validator rebuilds exactly that transaction. |
| `Replay.HonestReplay` | validator/validator.go:110-305 | Over every run that publishes each account it creates, the validator rebuilds every accepted transaction in order and ends with the aggregator's accounts; it reports nothing, or with fraudTransfer exactly the blanked transfers. |
| `ReplayExactness.ReplayAgreesIff` | aggregator/aggregator.go:216-360 | The validator ends with the aggregator's accounts if and only if no rejected or panicking transaction and no self-transfer created its target. |
| `ReplayExactness.NothingMatchesAfterwards` | validator/validator.go:110-145 | Once an honest aggregator has created an account without publishing it, none of its later transitions is matched, or two strings hashed into the two state trees are an explicit collision. |
| `ReplayExactness.SelfCreationSkipped` | validator/validator.go:170-180 | The transition of a self-transfer that creates its account is skipped: its sender's slot is still empty. |
| `ReplayExactness.AnyRootUnreported` | validator/validator.go:110-145 | The real input on which a wrong root goes unreported: the transition of a self-transfer of nothing by a new address may post any root. |
| `Verdicts.ReconstructedIs` | validator/validator.go:147-305 | A transition is rebuilt to a transaction exactly when its token is known and the slots it names hold accounts, and the transaction has its amount, signature and nonce, that token, and the addresses of exactly those slots in the roles the kind gives them. |
| `Verdicts.JudgedIff` | validator/validator.go:110-145 | For the rebuilt transaction: rejected, crashed, matched and mismatched are decided by whether it is acceptable, whether it panics, and whether the posted root is the root of the accounts after it. |
| `Verdicts.SkippedIff` | validator/validator.go:110-119 | A transition is skipped exactly when its token index is unknown, or a slot it names has more than 256 bits or holds no account modulo 2^159; then nothing changes. |
| `Verdicts.CrashedIff` | statemachine/state_machine.go:250-264 | Replaying a transition crashes exactly when it is a transfer that can be rebuilt, not of a negative amount, whose sender's slot has as many balances as the token's index. |
| `Verdicts.WrongRootReportedIff` | validator/validator.go:110-145 | A transition whose posted root is not the replay's is reported exactly when it can be rebuilt and does not crash the replay. |
| `Silence.ReplayIsRun` | validator/validator.go:110-145 | Whatever a list of transitions says, replaying it is one run of the ledger: of the transactions that can be rebuilt, in order. |
| `Silence.VerdictOfRun` | validator/validator.go:110-145 | A transition is skipped exactly when it adds nothing to that run, and matched exactly when the transaction it adds is accepted there and its root is the run's root so far. |
| `Silence.QuietIsOneRun` | validator/validator.go:74-145 | If nothing of a list is reported or crashes, every root posted by a transition that was not skipped is a root of one ledger run of accepted transactions. |
| `Silence.SilentIffQuiet` | validator/validator.go:74-108 | A validator gets to the end of every block and submits nothing exactly when no transition of the list is reported and none crashes it. |
| `Silence.EmittedIsStraight` | aggregator/aggregator.go:250-360 | The transition of an accepted transaction, written out over the accounts before it: an existing account's own slot, the next slot for a created one, and of a transfer the root of the accounts after it or, with fraudTransfer, 32 zeros. |
| `Silence.MatchedEmittedIff` | validator/validator.go:110-305 | A matched transition is one an honest aggregator with the same accounts could have posted exactly when its type word and token index are the proper ones, its slots are below the number of accounts, the slot of a created account is the next one, and only a missing account is said to be created. |
| `Silence.CreatedSlotUnchecked` | validator/validator.go:147-298 | The input: a created account's slot number is never looked at, so with any other it is matched all the same and no aggregator could have posted it. |
| `Silence.KindUnchecked` | validator/validator.go:206-244 | A creating deposit into an account that exists is judged as the plain deposit is. |
| `FraudProofs.BlocksDelivered` | validator/validator.go:52-67 | From the events announcing an aggregator's sealed blocks the watcher decodes exactly those blocks, and encoding them again gives the announced bytes. |
| `FraudProofs.HonestEvents` | validator/validator.go:52-145 | Watching the events of an honest aggregator's blocks submits nothing, crashes nowhere and ends with the aggregator's accounts at its last sealing. |
| `FraudProofs.HonestBlocks` | validator/validator.go:74-145 | An honest aggregator's sealed blocks, validated in order over any block table, raise no fraud proof and rebuild its accounts after the first m submissions, when exactly these blocks were sealed and nothing was pending. |
| `FraudCoherence.SlotsOfInputs` | validator/validator.go:307-325 | The i-th slot named becomes the i-th slot of the proof, with that index; it opens the validator's own state and folds to its root and to no other; the nil snapshot of a CreateAndTransfer is dereferenced. |
| `FraudCoherence.FirstReportIsCoherent` | validator/validator.go:74-373 | For the first reported transition of any list of blocks over any block table: a CreateAndTransfer, or a block of more than 256 transitions, ends in a panic; past the first of its block the transition is submitted paired with its immediate predecessor, both folding to the block's root, with one slot for each slot named, in the order named, which opens the state whose root a matched predecessor posted; at the first of its block the stored table decides. |
| `FraudCoherence.EveryReportEnds` | validator/validator.go:74-373 | Every report, not only the first, ends by the same case analysis, over the accounts the validator stands on, its slots in the order named. |
| `FraudCoherence.SlotsFoldIff` | validator/validator.go:307-325 | The slots of a submitted proof fold to the root its predecessor posted if and only if that root is the one the validator stands on. |
| `FraudCoherence.ReportAfter` | validator/validator.go:120-142 | Inside a block, the slots fold to the predecessor's posted root right after a matched transition and never right after a mismatched one. |
| `FraudCoherence.FirstOfBlockIsPaired` | validator/validator.go:340-361 | With consecutive block numbers, modulo 2^64, the first transition of a block is paired with the last one of the block before. |
| `FraudCoherence.FirstOfBlockZero` | validator/validator.go:340-349 | A report of the first transition of block 0 ends in Non-existent block if and only if nothing is stored under the key of block 1. |
| `FraudCoherence.BlockZeroAfterBlockOne` | validator/validator.go:340-349 | With block 1 stored before it, the predecessor submitted for block 0 is block 1's last transition. |
| `FraudCoherence.ConsecutiveKeys` | validator/validator.go:80-342 | Blocks numbered n and n + 1 never share a key, though a key drops the sign, and each block looks up the key of the one before. |
| `FraudCoherence.ReceivedIsReadable` | validator/validator.go:60-67 | Every block the validator decodes from an event can be stored and read back, whatever type words it carries. |
| `Inputs.FraudulentCreationPanics` | validator/validator.go:307-325 | With fraudTransfer on, every accepted transfer that creates its recipient is a mismatched CreateAndTransfer whose report panics, unless the true root is all zeros. |
| `Inputs.FraudTransferCrashes` | aggregator/aggregator.go:315-345 | One run: a deposit and a transfer to a new address, in a block of two by an aggregator with fraudTransfer, crash the validator and no proof is submitted. |
| `Inputs.FirstRootUnproved` | validator/validator.go:340-349 | One block: a wrong root in the first transition of block 0 is found and ends in Non-existent block, with nothing submitted. |
| `Inputs.SecondTokenCrashes` | statemachine/state_machine.go:250-264 | One transition: after a deposit of the first of two tokens, a posted transfer of the second from that slot crashes the validator. |

## Left out

- StateMachines.StateMachine.constructor: `Valid()`, on which the other methods rest, is promised for a store without state only; of a machine reopened over an old one the model says what it starts from, not how it goes on. The token registry is complete and does not change during a run, and token indices stay below 2^63 - 1, past which a Go slice cannot be allocated.
- SparseMerkleTrees.SparseMerkleTree.GetForRoot: a stored node shorter than 32 bytes is a panic; in Go a slice with spare capacity could be cut beyond its length instead. Nodes the tree writes are 64 bytes long.
- FraudProofs.HonestBlocks: proposals succeed or fail as the run says; a block counts as sealed when proposing it returned no error, which also happens when another node is the proposer.
- FraudProofs.BlocksDelivered: amounts fit 256 bits and signatures are shorter than 2^63 bytes, as the contract events and Go slices guarantee; the chain carries a block's number and bytes from the proposal to the event unchanged.
- The memo table of default nodes, keyed by hasher object, is recomputed instead of kept.
- Aliasing of Go slices: the balance and nonce arrays of an account are values here; each is decoded afresh from its record before it is changed.
- Signatures are carried as opaque bytes; the source does not check them.
- Keccak, and the encoder's reflection over Go types: packing is written out for the argument lists in use, and it does not fail.
- Badger storage, storage failures, mutexes and iterators: store operations succeed, and the core does not iterate.
- Block submission, committee signatures, transaction generation, the relayer and fraud-proof submission: Ethereum contract calls; the contracts themselves are not part of this model.
- Goroutines and channels: transactions and events are consumed one at a time by a single loop.
