/** What the first fraud proof of a replay contains, and when none can be assembled. */
module FraudCoherence {
  import opened ByteStrings
  import opened Errors
  import Namespaces
  import opened PathBits
  import opened MerkleTree
  import opened TrieStore
  import opened SparseMerkleTrees
  import opened Proofs
  import opened Abi
  import opened Accounts
  import opened Ledger
  import opened StateSpec
  import opened Transitions
  import opened Blocks
  import opened BlockTrees
  import opened Validation
  import opened Verdicts
  import opened Replay
  import opened FraudProofs

  // ---------------------------------------------------------------- storage slots

  ghost predicate SlotFolds(h: Hasher, s: IncludedStorageSlot, root: bytes) {
    Folds(h, SlotPath(s.slotIndex), SerializeAccount(s.value), s.siblings, root)
  }

  /** The slot opens the validator's state: it holds one of its accounts and folds to its root and to no other. */
  ghost predicate Opens(h: Hasher, accounts: seq<AccountInfo>, s: IncludedStorageSlot) {
    && s.slotIndex % ACCOUNT_LIMIT < |accounts| && s.value == accounts[s.slotIndex % ACCOUNT_LIMIT]
    && forall root :: SlotFolds(h, s, root) <==> root == StateRoot(h, accounts)
  }

  lemma SnapshotOpens(h: Hasher, accounts: seq<AccountInfo>, slot: nat)
    requires Snapshot(h, accounts, slot).Ok?
    ensures var s := Snapshot(h, accounts, slot).value;
            Opens(h, accounts, IncludedStorageSlot(s.slotIndex, s.accountInfo, s.inclusionProof))
  {
    hide StateRoot, SlotProof, SlotPath, SerializeAccount;
    SlotProofFolds(h, accounts, slot);
  }

  /** One slot for each slot the transition names, in its order, each opening the state. */
  ghost predicate OpensAll(h: Hasher, accounts: seq<AccountInfo>, t: Transition, slots: seq<IncludedStorageSlot>) {
    && |slots| == |NamedSlots(t)|
    && forall i :: 0 <= i < |slots| ==>
         slots[i].slotIndex == Magnitude(NamedSlots(t)[i]) && Opens(h, accounts, slots[i])
  }

  lemma SnapshotSlot(h: Hasher, accounts: seq<AccountInfo>, slot: nat)
    requires Snapshot(h, accounts, slot).Ok?
    ensures Snapshot(h, accounts, slot).value.slotIndex == slot
  {
    hide StateRoot, SlotProof;
  }

  /**
   Inputs become storage slots one by one, in the order in which the transition names its slots, except that a missing
   snapshot is dereferenced.
   */
  lemma SlotsOfInputs(h: Hasher, accounts: seq<AccountInfo>, t: Transition)
    requires InputSnapshots(h, accounts, t).Ok?
    ensures var inputs := InputSnapshots(h, accounts, t).value;
            if t.CreateAndTransferTransition? then StorageSlots(inputs) == Err(Panic)
            else StorageSlots(inputs).Ok? && OpensAll(h, accounts, t, StorageSlots(inputs).value)
  {
    hide Snapshot, Opens, StorageSlots;
    var inputs := InputSnapshots(h, accounts, t).value;
    SlotsInOrder(inputs);
    match t
    case CreateAndDepositTransition(_, _, _, _, _, _, _) =>
    case DepositTransition(_, _, slot, _, _, _) => SlotOpens(h, accounts, slot);
    case WithdrawTransition(_, _, slot, _, _, _, _) => SlotOpens(h, accounts, slot);
    case CreateAndTransferTransition(_, _, from, _, _, _, _, _, _) => assert inputs[1] in inputs;
    case TransferTransition(_, _, from, to, _, _, _, _) =>
      SlotOpens(h, accounts, from);
      SlotOpens(h, accounts, to);
  }

  lemma SlotOpens(h: Hasher, accounts: seq<AccountInfo>, slot: int)
    requires Snapshot(h, accounts, Magnitude(slot)).Ok?
    ensures var s := Snapshot(h, accounts, Magnitude(slot)).value;
            && s.slotIndex == Magnitude(slot)
            && Opens(h, accounts, IncludedStorageSlot(s.slotIndex, s.accountInfo, s.inclusionProof))
  {
    hide Snapshot, Opens;
    SnapshotOpens(h, accounts, Magnitude(slot));
    SnapshotSlot(h, accounts, Magnitude(slot));
  }

  // ---------------------------------------------------------------- the block a predecessor is looked up in

  /**
   The block can be written to the store and read back; the type fields need to name their layouts modulo 2^64 only.
   */
  ghost predicate Readable(block: RollupBlock) {
    && block.blockNumber < UINT64_LIMIT && (forall t :: t in block.transitions ==> Proper(t))
    && |EncodeBlock(block.blockNumber, Encoded(block.transitions))| < UINT_LIMIT
  }

  ghost predicate TreeFits(h: Hasher, block: RollupBlock) {
    1 <= |block.transitions| <= HASH_BITS && CollisionFree(h, BlockStrings(h, block))
  }

  /** Every block the validator receives is readable, honest or not. */
  lemma ReceivedIsReadable(event: RollupBlockCommitted)
    requires SliceBounded(event.transitions) && Received(event).Ok?
    ensures Readable(Received(event).value)
  {
    hide Proper, EncodeBlock, Encoded, DecodeBlock;
    ReceivedRoundTrip(event.blockNumber % UINT64_LIMIT, event.transitions);
  }

  lemma KeyOf(n: nat)
    requires n < UINT64_LIMIT
    ensures BlockKey(n) == ToBytes(if n < MAX_LENGTH then n else UINT64_LIMIT - n)
  {
    hide ToBytes;
    SmallNumber(n, UINT64_LIMIT);
  }

  lemma SmallNumber(n: nat, m: nat)
    requires n < m
    ensures n % m == n
  {
  }

  /** Numbers n and 2^64 - n share a key; consecutive numbers never do, and each finds the one before it. */
  lemma ConsecutiveKeys(n: nat)
    requires n < UINT64_LIMIT
    ensures var next := (n + 1) % UINT64_LIMIT;
            PreviousNumber(next) == n && BlockKey(next) != BlockKey(n)
  {
    hide ToBytes, BlockKey;
    var next := (n + 1) % UINT64_LIMIT;
    NextNumber(n);
    KeyOf(n);
    KeyOf(next);
    var a, b := if n < MAX_LENGTH then n else UINT64_LIMIT - n, if next < MAX_LENGTH then next else UINT64_LIMIT - next;
    if ToBytes(a) == ToBytes(b) {
      ToBytesInjective(a, b);
    }
  }

  lemma NextNumber(n: nat)
    requires n < UINT64_LIMIT
    ensures (n + 1) % UINT64_LIMIT == (if n == UINT64_LIMIT - 1 then 0 else n + 1)
    ensures PreviousNumber((n + 1) % UINT64_LIMIT) == n
  {
  }

  /** The key looked up before block 0 is that of block 1. */
  lemma KeyBeforeZero()
    ensures BlockKey(PreviousNumber(0)) == BlockKey(1) != BlockKey(0)
  {
    hide ToBytes;
    FromToBytes(1);
    FromToBytes(0);
  }

  /** The table when the last block of a list is being validated. */
  ghost function TableFor(stored: imap<bytes, bytes>, blocks: seq<RollupBlock>): imap<bytes, bytes>
    requires blocks != []
  {
    StoredWith(StoredAfter(stored, blocks[..|blocks| - 1]), blocks[|blocks| - 1])
  }

  /** The entry the predecessor of a block's first transition is looked up under. */
  function LookedUp(block: RollupBlock): bytes
    requires block.blockNumber < UINT64_LIMIT
  {
    BlockKey(PreviousNumber(block.blockNumber))
  }

  /** When the last two numbers are consecutive, modulo 2^64, the block looked up is the one before in the list. */
  lemma PreviousStored(stored: imap<bytes, bytes>, blocks: seq<RollupBlock>)
    requires |blocks| >= 2 && NumbersFit(blocks) && Readable(blocks[|blocks| - 2])
    requires blocks[|blocks| - 1].blockNumber == (blocks[|blocks| - 2].blockNumber + 1) % UINT64_LIMIT
    ensures blocks[|blocks| - 1].blockNumber < UINT64_LIMIT
    ensures var key := LookedUp(blocks[|blocks| - 1]);
            key in TableFor(stored, blocks) && DecodeBlock(TableFor(stored, blocks)[key]) == Ok(blocks[|blocks| - 2])
  {
    hide EncodeBlock, Encoded, DecodeBlock, BlockKey, Proper, PreviousNumber;
    var init, previous := blocks[..|blocks| - 1], blocks[|blocks| - 2];
    assert init[|init| - 1] == previous;
    ConsecutiveKeys(previous.blockNumber);
    BlockRoundTrip(previous);
  }

  /** Before block 0 there is nothing exactly when no block has been stored under the key of block 1. */
  lemma NothingBeforeBlockZeroIff(stored: imap<bytes, bytes>, blocks: seq<RollupBlock>)
    requires blocks != [] && blocks[|blocks| - 1].blockNumber == 0
    ensures LookedUp(blocks[|blocks| - 1]) in TableFor(stored, blocks) <==>
            BlockKey(1) in StoredAfter(stored, blocks[..|blocks| - 1])
  {
    hide EncodeBlock, Encoded, BlockKey, PreviousNumber;
    KeyBeforeZero();
  }

  // ---------------------------------------------------------------- the first report

  /** All transitions before position j of the last block. */
  function Before(blocks: seq<RollupBlock>, j: nat): seq<Transition>
    requires blocks != [] && j < |blocks[|blocks| - 1].transitions|
  {
    Flat(blocks[..|blocks| - 1]) + blocks[|blocks| - 1].transitions[..j]
  }

  /** One proof is submitted: transition j of block, after transition p of prior, over the slots j names, in order. */
  ghost predicate Submits(h: Hasher, out: BlockOutcome, block: RollupBlock, j: nat, prior: RollupBlock, p: nat,
          accounts: seq<AccountInfo>)
    requires j < |block.transitions| && p < |prior.transitions|
  {
    && out.stopped.None? && |out.submitted| == 1
    && FoldsToBlock(h, block, j, out.submitted[0].invalid) && FoldsToBlock(h, prior, p, out.submitted[0].preState)
    && OpensAll(h, accounts, block.transitions[j], out.submitted[0].slots)
  }

  ghost predicate StopsWith(out: BlockOutcome, error: Error) {
    out.submitted == [] && out.stopped == Some(error)
  }

  /** What comes of the first report of a replay, case by case over the kind, the block's size and the block table. */
  ghost predicate ReportEnds(h: Hasher, table: imap<bytes, bytes>, block: RollupBlock, j: nat,
          accounts: seq<AccountInfo>, out: BlockOutcome)
    requires block.blockNumber < UINT64_LIMIT && j < |block.transitions|
  {
    if block.transitions[j].CreateAndTransferTransition? || |block.transitions| > HASH_BITS then StopsWith(out, Panic)
    else if j > 0 then Submits(h, out, block, j, block, j - 1, accounts)
    else if LookedUp(block) !in table then StopsWith(out, NonExistentBlock)
    else
      match DecodeBlock(table[LookedUp(block)])
      case Err(e) => StopsWith(out, e)
      case Ok(prior) =>
        if prior.transitions == [] || |prior.transitions| > HASH_BITS then StopsWith(out, Panic)
        else
          && (CollisionFree(h, BlockStrings(h, prior)) ==>
                Submits(h, out, block, j, prior, |prior.transitions| - 1, accounts))
          && !StopsWith(out, NonExistentBlock)
  }

  // ---------------------------------------------------------------- a stored block never reads as a missing one

  lemma StoredNeverMissing(data: bytes)
    ensures DecodeBlock(data) != Err(NonExistentBlock)
  {
    hide UnpackFrom, DecodeAll;
    UnpackFails([UintTy, BytesSliceTy], data, 0);
    if Unpack([UintTy, BytesSliceTy], data).Ok? {
      var vs := Unpack([UintTy, BytesSliceTy], data).value;
      assert TypeOf(vs[1]).BytesSliceTy?;
      DecodeFails(vs[1].items);
    }
  }

  lemma {:induction false} SidesNeverMissing(ns: Option<bytes>, store: Namespaces.Store, path: Path, node: bytes)
    ensures SidesBelow(ns, store, path, node) != Err(NonExistentBlock)
    decreases |path|
  {
    if path != [] && |node| >= 32 {
      var k := Namespaces.PrependNamespace(ns, if path[0] then node[32..] else node[..32]);
      if k in store {
        SidesNeverMissing(ns, store, path[1..], store[k]);
      }
    }
  }

  lemma NodesNeverMissing(h: Hasher, cfg: TreeConfig, store: Namespaces.Store, key: bytes, value: bytes, root: bytes)
    requires cfg.height >= 1
    ensures UpdateResult(h, cfg, store, key, value, root) != Err(NonExistentBlock)
    ensures ProofOf(h, cfg, store, key, root) != Err(NonExistentBlock)
  {
    hide SidesBelow, IsLeft, FoldPreimages;
    var path := KeyPath(h, cfg, key);
    var k := Namespaces.PrependNamespace(cfg.namespace, root);
    if path.Ok? && k in store {
      SidesNeverMissing(cfg.namespace, store, path.value, store[k]);
    }
  }

  lemma {:induction false} TreeNeverMissing(h: Hasher, encoded: seq<bytes>, k: nat)
    requires 1 <= |encoded| <= HASH_BITS && k <= |encoded|
    ensures BlockTreeUpTo(h, encoded, k) != Err(NonExistentBlock)
  {
    hide UpdateResult, Updated, InitialState;
    if k > 0 {
      TreeNeverMissing(h, encoded, k - 1);
      var st := BlockTreeUpTo(h, encoded, k - 1);
      if st.Ok? {
        NodesNeverMissing(h, BlockConfig(|encoded|), st.value.store, ToBytes(k - 1), encoded[k - 1], st.value.root);
      }
    }
  }

  lemma IncludedNeverMissing(h: Hasher, block: RollupBlock, i: nat)
    ensures Included(h, block, i) != Err(NonExistentBlock)
  {
    hide BlockTreeUpTo, ProofOf, Encoded;
    var encoded := Encoded(block.transitions);
    if 1 <= |encoded| <= HASH_BITS {
      TreeNeverMissing(h, encoded, |encoded|);
      var st := BlockTree(h, encoded);
      if st.Ok? {
        NodesNeverMissing(h, BlockConfig(|encoded|), st.value.store, ToBytes(i), [], st.value.root);
      }
    }
  }

  // ---------------------------------------------------------------- assembling the proof

  lemma TooLarge(h: Hasher, block: RollupBlock, i: nat)
    requires block.transitions == [] || |block.transitions| > HASH_BITS
    ensures Included(h, block, i) == Err(Panic)
  {
    hide BlockTreeUpTo;
  }

  /** The two included transitions a proof needs, or the error that stops it. */
  lemma PairFound(h: Hasher, table: imap<bytes, bytes>, block: RollupBlock, j: nat)
    requires block.blockNumber < UINT64_LIMIT && j < |block.transitions| <= HASH_BITS
    requires CollisionFree(h, BlockStrings(h, block))
    ensures Included(h, block, j).Ok? && FoldsToBlock(h, block, j, Included(h, block, j).value)
    ensures var preState := Predecessor(h, table, block, TransitionPosition(block.blockNumber, j));
            && (j > 0 ==> preState.Ok? && FoldsToBlock(h, block, j - 1, preState.value))
            && (j == 0 && LookedUp(block) !in table ==> preState == Err(NonExistentBlock))
            && (j == 0 && LookedUp(block) in table ==>
                  var prior := DecodeBlock(table[LookedUp(block)]);
                  && (prior.Err? ==> preState == Err(prior.error))
                  && (prior.Ok? && (prior.value.transitions == [] || |prior.value.transitions| > HASH_BITS) ==>
                        preState == Err(Panic))
                  && preState != Err(NonExistentBlock)
                  && (prior.Ok? && TreeFits(h, prior.value) ==>
                        preState.Ok? && FoldsToBlock(h, prior.value, |prior.value.transitions| - 1, preState.value)))
  {
    hide FoldsToBlock, Included, BlockStrings, CollisionFree, DecodeBlock, BlockKey, PreviousNumber;
    BlockTreeSeparates(h, block, j);
    if j > 0 {
      BlockTreeSeparates(h, block, j - 1);
    } else if LookedUp(block) in table {
      StoredNeverMissing(table[LookedUp(block)]);
      if DecodeBlock(table[LookedUp(block)]).Ok? {
        var prior := DecodeBlock(table[LookedUp(block)]).value;
        if prior.transitions != [] {
          IncludedNeverMissing(h, prior, |prior.transitions| - 1);
        }
        if TreeFits(h, prior) {
          BlockTreeSeparates(h, prior, |prior.transitions| - 1);
        } else if |prior.transitions| > HASH_BITS {
          TooLarge(h, prior, |prior.transitions| - 1);
        }
      }
    }
  }

  /** Assembling the proof, from inputs whose slots open the accounts. */
  lemma ProofEnds(h: Hasher, reg: Registry, table: imap<bytes, bytes>, block: RollupBlock, j: nat,
          accounts: seq<AccountInfo>)
    requires block.blockNumber < UINT64_LIMIT && j < |block.transitions|
    requires CollisionFree(h, BlockStrings(h, block))
    requires Reported(Judge(h, reg, accounts, block.transitions[j]).verdict)
    ensures ReportEnds(h, table, block, j, accounts,
            ValidateNext(h, reg, table, block, j, BlockOutcome(accounts, [], None)))
  {
    hide FoldsToBlock, Included, BlockStrings, CollisionFree, DecodeBlock, LookedUp, Opens, StorageSlots, Predecessor,
      InputSnapshots, Rebuilt, Apply, StateRoot;
    SlotsOfInputs(h, accounts, block.transitions[j]);
    if |block.transitions| > HASH_BITS {
      TooLarge(h, block, j);
    } else {
      PairFound(h, table, block, j);
    }
  }

  /** A matched predecessor posted the root the validator stands on. */
  lemma MatchedRoot(h: Hasher, reg: Registry, ts: seq<Transition>)
    requires ts != [] && VerdictAt(h, reg, ts, |ts| - 1).Matched?
    ensures StateRoot(h, Replayed(h, reg, ts)) == ts[|ts| - 1].stateRoot
  {
    hide StateRoot, Reconstructed, Apply;
  }

  /**
   Fraud-proof coherence. Replaying any list of blocks over any block table, let position j of the last one be the
   first transition reported. Nothing was submitted before it, and what comes of it is decided as ReportEnds says:
   past the first of its block, a proof is submitted exactly when the kind is no CreateAndTransfer and the block
   has at most 256 transitions. It pairs the transition with its immediate predecessor, both folding to the block's
   root, and its slots open the state the validator stands on, whose root a matched predecessor posted.
   */
  lemma FirstReportIsCoherent(h: Hasher, reg: Registry, stored: imap<bytes, bytes>, blocks: seq<RollupBlock>, j: nat)
    requires NumbersFit(blocks) && blocks != [] && j < |blocks[|blocks| - 1].transitions|
    requires Quiet(h, reg, Before(blocks, j))
    requires Reported(Judge(h, reg, Replayed(h, reg, Before(blocks, j)), blocks[|blocks| - 1].transitions[j]).verdict)
    requires CollisionFree(h, BlockStrings(h, blocks[|blocks| - 1]))
    ensures NumbersFit(blocks[..|blocks| - 1]) && blocks[|blocks| - 1].blockNumber < UINT64_LIMIT
    ensures var earlier, block, before := blocks[..|blocks| - 1], blocks[|blocks| - 1], Before(blocks, j);
            var v, standing := ValidateBlocks(h, reg, stored, earlier), Replayed(h, reg, before);
            var table := StoredWith(v.stored, block);
            && v.submitted == [] && !v.crashed && table == TableFor(stored, blocks)
            && ReportEnds(h, table, block, j, standing, ValidateUpTo(h, reg, table, v.accounts, block, j + 1))
            && (before != [] && VerdictAt(h, reg, before, |before| - 1).Matched? ==>
                  StateRoot(h, standing) == before[|before| - 1].stateRoot)
  {
    hide Quiet, Replayed, StoredWith, StoredAfter, StateRoot, InputSnapshots, VerdictAt, Flat, ValidateBlocks, Judge,
      ReportEnds, ContractProof;
    var earlier, block, before := blocks[..|blocks| - 1], blocks[|blocks| - 1], Before(blocks, j);
    var standing, table := Replayed(h, reg, before), TableFor(stored, blocks);
    assert block in blocks;
    assert before[..|Flat(earlier)|] == Flat(earlier);
    QuietPrefix(h, reg, before, |Flat(earlier)|);
    QuietBlocks(h, reg, stored, earlier);
    QuietInBlock(h, reg, table, Flat(earlier), block, j);
    UpToNext(h, reg, table, Replayed(h, reg, Flat(earlier)), block, j);
    ProofEnds(h, reg, table, block, j, standing);
    if before != [] && VerdictAt(h, reg, before, |before| - 1).Matched? {
      MatchedRoot(h, reg, before);
    }
  }

  // ---------------------------------------------------------------- every report

  lemma {:induction false} StoredBeforeCrash(h: Hasher, reg: Registry, stored: imap<bytes, bytes>,
          blocks: seq<RollupBlock>)
    requires NumbersFit(blocks) && !ValidateBlocks(h, reg, stored, blocks).crashed
    ensures ValidateBlocks(h, reg, stored, blocks).stored == StoredAfter(stored, blocks)
  {
    hide ValidateUpTo, StoredWith;
    if blocks != [] {
      StoredBeforeCrash(h, reg, stored, blocks[..|blocks| - 1]);
    }
  }

  /** What one position of a block adds to the proofs submitted before it. */
  function Added(before: BlockOutcome, after: BlockOutcome): BlockOutcome {
    if before.submitted <= after.submitted
      then after.(submitted := after.submitted[|before.submitted|..])
    else after
  }

  lemma NextAdds(h: Hasher, reg: Registry, table: imap<bytes, bytes>, block: RollupBlock, j: nat, before: BlockOutcome)
    requires block.blockNumber < UINT64_LIMIT && j < |block.transitions| && before.stopped.None?
    ensures var after := ValidateNext(h, reg, table, block, j, before);
            && before.submitted <= after.submitted
            && Added(before, after) ==
               ValidateNext(h, reg, table, block, j, BlockOutcome(before.accounts, [], None))
  {
    hide Judge, ContractProof, InputSnapshots;
  }

  /** The validator gets to position j of the block and reports it. */
  ghost predicate Reports(h: Hasher, reg: Registry, table: imap<bytes, bytes>, accounts: seq<AccountInfo>,
          block: RollupBlock, j: nat)
    requires block.blockNumber < UINT64_LIMIT && j < |block.transitions|
  {
    var before := ValidateUpTo(h, reg, table, accounts, block, j);
    before.stopped.None? && Reported(Judge(h, reg, before.accounts, block.transitions[j]).verdict)
  }

  lemma ReportEndsHere(h: Hasher, reg: Registry, table: imap<bytes, bytes>, accounts: seq<AccountInfo>,
          block: RollupBlock, j: nat)
    requires block.blockNumber < UINT64_LIMIT && j < |block.transitions| && CollisionFree(h, BlockStrings(h, block))
    requires Reports(h, reg, table, accounts, block, j)
    ensures var before := ValidateUpTo(h, reg, table, accounts, block, j);
            var after := ValidateUpTo(h, reg, table, accounts, block, j + 1);
            && before.submitted <= after.submitted
            && ReportEnds(h, table, block, j, before.accounts, Added(before, after))
  {
    hide ValidateUpTo, Judge, ReportEnds, ValidateNext, BlockStrings, CollisionFree;
    var before := ValidateUpTo(h, reg, table, accounts, block, j);
    UpToNext(h, reg, table, accounts, block, j);
    NextAdds(h, reg, table, block, j, before);
    ProofEnds(h, reg, table, block, j, before.accounts);
  }

  /**
   Every report, not only the first, whatever was reported, skipped or given up before it: what comes of it is decided
   as ReportEnds says, over the accounts the validator stands on.
   */
  lemma EveryReportEnds(h: Hasher, reg: Registry, stored: imap<bytes, bytes>, blocks: seq<RollupBlock>, j: nat)
    requires NumbersFit(blocks) && blocks != [] && j < |blocks[|blocks| - 1].transitions|
    requires CollisionFree(h, BlockStrings(h, blocks[|blocks| - 1]))
    requires !ValidateBlocks(h, reg, stored, blocks[..|blocks| - 1]).crashed
    ensures blocks[|blocks| - 1].blockNumber < UINT64_LIMIT
    ensures var v, block := ValidateBlocks(h, reg, stored, blocks[..|blocks| - 1]), blocks[|blocks| - 1];
            var table := StoredWith(v.stored, block);
            && table == TableFor(stored, blocks)
            && (Reports(h, reg, table, v.accounts, block, j) ==>
                  var before := ValidateUpTo(h, reg, table, v.accounts, block, j);
                  var after := ValidateUpTo(h, reg, table, v.accounts, block, j + 1);
                  && before.submitted <= after.submitted
                  && ReportEnds(h, table, block, j, before.accounts, Added(before, after)))
  {
    hide StoredWith, ValidateUpTo, ValidateBlocks, StoredAfter, ReportEnds, Reports, Added, BlockStrings,
      CollisionFree;
    var init, block := blocks[..|blocks| - 1], blocks[|blocks| - 1];
    assert block in blocks;
    StoredBeforeCrash(h, reg, stored, init);
    var v, table := ValidateBlocks(h, reg, stored, init), TableFor(stored, blocks);
    if Reports(h, reg, table, v.accounts, block, j) {
      ReportEndsHere(h, reg, table, v.accounts, block, j);
    }
  }

  /**
   Of any submitted proof, the slots fold to the root its predecessor posted if and only if that root is the
   one the validator stands on; they all do or none does.
   */
  lemma SlotsFoldIff(h: Hasher, out: BlockOutcome, block: RollupBlock, j: nat, prior: RollupBlock, p: nat,
          accounts: seq<AccountInfo>, s: IncludedStorageSlot)
    requires j < |block.transitions| && p < |prior.transitions|
    requires Submits(h, out, block, j, prior, p, accounts) && s in out.submitted[0].slots
    ensures SlotFolds(h, s, prior.transitions[p].stateRoot) <==>
            prior.transitions[p].stateRoot == StateRoot(h, accounts)
  {
    hide SlotFolds, StateRoot, FoldsToBlock;
  }

  /** Inside a block, a matched transition posted the root the validator stands on next, a mismatched one did not. */
  lemma PostedBefore(h: Hasher, reg: Registry, table: imap<bytes, bytes>, accounts: seq<AccountInfo>,
          block: RollupBlock, j: nat)
    requires block.blockNumber < UINT64_LIMIT && 0 < j < |block.transitions|
    requires ValidateUpTo(h, reg, table, accounts, block, j).stopped.None?
    ensures ValidateUpTo(h, reg, table, accounts, block, j - 1).stopped.None?
    ensures var earlier := ValidateUpTo(h, reg, table, accounts, block, j - 1);
            var verdict := Judge(h, reg, earlier.accounts, block.transitions[j - 1]).verdict;
            var right := block.transitions[j - 1].stateRoot ==
                         StateRoot(h, ValidateUpTo(h, reg, table, accounts, block, j).accounts);
            (verdict.Matched? ==> right) && (verdict.Mismatched? ==> !right)
  {
    hide Reconstructed, Apply, StateRoot, ContractProof, InputSnapshots;
  }

  /**
   The proof submitted for a report inside a block: each slot folds to the root posted by the transition before it if
   and only if that root is the one the validator stands on. Right after a matched transition it does, right after a
   mismatched one it does not.
   */
  lemma ReportAfter(h: Hasher, reg: Registry, table: imap<bytes, bytes>, accounts: seq<AccountInfo>,
          block: RollupBlock, j: nat, s: IncludedStorageSlot)
    requires block.blockNumber < UINT64_LIMIT && 0 < j < |block.transitions| <= HASH_BITS
    requires CollisionFree(h, BlockStrings(h, block)) && Reports(h, reg, table, accounts, block, j)
    requires !block.transitions[j].CreateAndTransferTransition?
    ensures var before := ValidateUpTo(h, reg, table, accounts, block, j);
            var earlier := ValidateUpTo(h, reg, table, accounts, block, j - 1);
            var added := Added(before, ValidateUpTo(h, reg, table, accounts, block, j + 1)).submitted;
            var verdict := Judge(h, reg, earlier.accounts, block.transitions[j - 1]).verdict;
            var posted := block.transitions[j - 1].stateRoot;
            && |added| == 1
            && (s in added[0].slots ==>
                  && (SlotFolds(h, s, posted) <==> posted == StateRoot(h, before.accounts))
                  && (verdict.Matched? ==> SlotFolds(h, s, posted))
                  && (verdict.Mismatched? ==> !SlotFolds(h, s, posted)))
  {
    hide ValidateUpTo, Judge, Added, SlotFolds, StateRoot, FoldsToBlock, DecodeBlock, LookedUp, BlockStrings,
      CollisionFree, Opens;
    ReportEndsHere(h, reg, table, accounts, block, j);
    var before := ValidateUpTo(h, reg, table, accounts, block, j);
    var out := Added(before, ValidateUpTo(h, reg, table, accounts, block, j + 1));
    assert Submits(h, out, block, j, block, j - 1, before.accounts);
    PostedBefore(h, reg, table, accounts, block, j);
    if s in out.submitted[0].slots {
      SlotsFoldIff(h, out, block, j, block, j - 1, before.accounts, s);
    }
  }

  /**
   Across the block boundary: with consecutive numbers the proof pairs with the last transition of the block before.
   */
  lemma FirstOfBlockIsPaired(h: Hasher, stored: imap<bytes, bytes>, blocks: seq<RollupBlock>,
          accounts: seq<AccountInfo>, out: BlockOutcome)
    requires |blocks| >= 2 && NumbersFit(blocks) && blocks[|blocks| - 1].transitions != []
    requires Readable(blocks[|blocks| - 2]) && TreeFits(h, blocks[|blocks| - 2])
    requires blocks[|blocks| - 1].blockNumber == (blocks[|blocks| - 2].blockNumber + 1) % UINT64_LIMIT
    requires blocks[|blocks| - 1].blockNumber < UINT64_LIMIT
    requires ReportEnds(h, TableFor(stored, blocks), blocks[|blocks| - 1], 0, accounts, out)
    requires !blocks[|blocks| - 1].transitions[0].CreateAndTransferTransition?
    requires |blocks[|blocks| - 1].transitions| <= HASH_BITS
    ensures var prior := blocks[|blocks| - 2];
            && Submits(h, out, blocks[|blocks| - 1], 0, prior, |prior.transitions| - 1, accounts)
            && Before(blocks, 0) != []
            && Before(blocks, 0)[|Before(blocks, 0)| - 1] == prior.transitions[|prior.transitions| - 1]
  {
    hide Submits, BlockStrings, CollisionFree, DecodeBlock, LookedUp, TableFor, Readable, Flat;
    PreviousStored(stored, blocks);
    FlatNext(blocks[..|blocks| - 1]);
  }

  /**
   The first report in block 0, at its first transition, ends for want of a predecessor if and only if no block is
   stored under the key of block 1.
   */
  lemma FirstOfBlockZero(h: Hasher, stored: imap<bytes, bytes>, blocks: seq<RollupBlock>, accounts: seq<AccountInfo>,
          out: BlockOutcome)
    requires blocks != [] && blocks[|blocks| - 1].blockNumber == 0 && blocks[|blocks| - 1].transitions != []
    requires ReportEnds(h, TableFor(stored, blocks), blocks[|blocks| - 1], 0, accounts, out)
    requires !blocks[|blocks| - 1].transitions[0].CreateAndTransferTransition?
    requires |blocks[|blocks| - 1].transitions| <= HASH_BITS
    ensures StopsWith(out, NonExistentBlock) <==> BlockKey(1) !in StoredAfter(stored, blocks[..|blocks| - 1])
  {
    hide BlockStrings, CollisionFree, LookedUp, TableFor, StoredAfter, FoldsToBlock, Opens, DecodeBlock, BlockKey;
    NothingBeforeBlockZeroIff(stored, blocks);
    var table, block := TableFor(stored, blocks), blocks[|blocks| - 1];
    if LookedUp(block) in table {
      StoredNeverMissing(table[LookedUp(block)]);
    }
  }

  /** The table on which it does not: with block 1 stored, its last transition is submitted as the predecessor. */
  lemma BlockZeroAfterBlockOne(h: Hasher, stored: imap<bytes, bytes>, blocks: seq<RollupBlock>,
          accounts: seq<AccountInfo>, out: BlockOutcome)
    requires |blocks| >= 2 && NumbersFit(blocks)
    requires blocks[|blocks| - 1].blockNumber == 0 && blocks[|blocks| - 1].transitions != []
    requires blocks[|blocks| - 2].blockNumber == 1 && Readable(blocks[|blocks| - 2])
             && TreeFits(h, blocks[|blocks| - 2])
    requires ReportEnds(h, TableFor(stored, blocks), blocks[|blocks| - 1], 0, accounts, out)
    requires !blocks[|blocks| - 1].transitions[0].CreateAndTransferTransition?
    requires |blocks[|blocks| - 1].transitions| <= HASH_BITS
    ensures var one := blocks[|blocks| - 2];
            Submits(h, out, blocks[|blocks| - 1], 0, one, |one.transitions| - 1, accounts)
  {
    hide Submits, BlockStrings, CollisionFree, DecodeBlock, Readable, EncodeBlock, BlockKey, PreviousNumber, Proper;
    var init, one := blocks[..|blocks| - 1], blocks[|blocks| - 2];
    assert init[|init| - 1] == one;
    KeyBeforeZero();
    ReadableRoundTrip(one);
  }

  lemma ReadableRoundTrip(block: RollupBlock)
    requires Readable(block)
    ensures DecodeBlock(EncodeBlock(block.blockNumber, Encoded(block.transitions))) == Ok(block)
  {
    hide EncodeBlock, Encoded, DecodeBlock, Proper;
    BlockRoundTrip(block);
  }
}
