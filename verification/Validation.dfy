/** What the validator concludes from a block, as functions of its account list and registry. */
module Validation {
  import opened ByteStrings
  import opened Errors
  import opened Accounts
  import opened Ledger
  import opened StateSpec
  import opened Transitions
  import opened Blocks
  import opened BlockTrees

  datatype TransitionPosition = TransitionPosition(blockNumber: nat, transitionIndex: nat)

  /** A nil snapshot stands for an account that does not exist yet. */
  type Inputs = seq<Option<StateSnapshot>>

  datatype LocalFraudProof = LocalFraudProof(position: TransitionPosition, inputs: Inputs, transition: Transition)

  datatype IncludedStorageSlot = IncludedStorageSlot(slotIndex: nat, value: AccountInfo, siblings: seq<bytes>)

  datatype ContractFraudProof = ContractFraudProof(preState: IncludedTransition, invalid: IncludedTransition,
                                                   slots: seq<IncludedStorageSlot>)

  function Magnitude(n: int): nat {
    if n < 0 then -n else n
  }

  // ---------------------------------------------------------------- rebuilding a transaction

  function InputSnapshots(h: Hasher, accounts: seq<AccountInfo>, t: Transition): (r: Result<Inputs>)
    ensures r.Ok? ==> InputsShaped(t, r.value)
  {
    match t
    case CreateAndDepositTransition(_, _, _, _, _, _, _) => Ok([])
    case DepositTransition(_, _, slot, _, _, _) =>
      var snapshot :- Snapshot(h, accounts, Magnitude(slot));
      Ok([Some(snapshot)])
    case WithdrawTransition(_, _, slot, _, _, _, _) =>
      var snapshot :- Snapshot(h, accounts, Magnitude(slot));
      Ok([Some(snapshot)])
    case CreateAndTransferTransition(_, _, from, _, _, _, _, _, _) =>
      var sender :- Snapshot(h, accounts, Magnitude(from));
      Ok([Some(sender), None])
    case TransferTransition(_, _, from, to, _, _, _, _) =>
      var sender :- Snapshot(h, accounts, Magnitude(from));
      var recipient :- Snapshot(h, accounts, Magnitude(to));
      Ok([Some(sender), Some(recipient)])
  }

  predicate InputsShaped(t: Transition, inputs: Inputs) {
    match t
    case CreateAndDepositTransition(_, _, _, _, _, _, _) => inputs == []
    case DepositTransition(_, _, _, _, _, _) => |inputs| == 1 && inputs[0].Some?
    case WithdrawTransition(_, _, _, _, _, _, _) => |inputs| == 1 && inputs[0].Some?
    case CreateAndTransferTransition(_, _, _, _, _, _, _, _, _) => |inputs| == 2 && inputs[0].Some? && inputs[1].None?
    case TransferTransition(_, _, _, _, _, _, _, _) => |inputs| == 2 && inputs[0].Some? && inputs[1].Some?
  }

  function TokenAt(reg: Registry, tokenIndex: int): Result<EthAddress> {
    if Magnitude(tokenIndex) in reg.toToken then Ok(reg.toToken[Magnitude(tokenIndex)]) else Err(InvalidToken)
  }

  function Owner(snapshot: Option<StateSnapshot>): EthAddress
    requires snapshot.Some?
  {
    ToAddress(snapshot.value.accountInfo.account)
  }

  function Rebuilt(reg: Registry, t: Transition, inputs: Inputs): Result<Transaction>
    requires InputsShaped(t, inputs)
  {
    var token :- TokenAt(reg, t.tokenIndex);
    Ok(match t
       case CreateAndDepositTransition(_, _, _, account, _, amount, signature) =>
         DepositTransaction(ToAddress(account), token, amount, signature)
       case DepositTransition(_, _, _, _, amount, signature) =>
         DepositTransaction(Owner(inputs[0]), token, amount, signature)
       case WithdrawTransition(_, _, _, _, amount, nonce, signature) =>
         WithdrawTransaction(Owner(inputs[0]), token, amount, nonce, signature)
       case CreateAndTransferTransition(_, _, _, _, recipient, _, amount, nonce, signature) =>
         TransferTransaction(Owner(inputs[0]), ToAddress(recipient), token, amount, nonce, signature)
       case TransferTransition(_, _, _, _, _, amount, nonce, signature) =>
         TransferTransaction(Owner(inputs[0]), Owner(inputs[1]), token, amount, nonce, signature))
  }

  function Reconstructed(h: Hasher, reg: Registry, accounts: seq<AccountInfo>, t: Transition): Result<Transaction> {
    var inputs :- InputSnapshots(h, accounts, t);
    Rebuilt(reg, t, inputs)
  }

  // ---------------------------------------------------------------- judging a transition

  /** Skipped transitions are only logged; rejected and mismatched ones are reported; a crash ends the process. */
  datatype Verdict = Skipped(error: Error) | Rejected(error: Error) | Mismatched | Matched | Crashed

  predicate Reported(v: Verdict) {
    v.Rejected? || v.Mismatched?
  }

  datatype Judgement = Judgement(accounts: seq<AccountInfo>, verdict: Verdict)

  /** The replay keeps its own result even when it reports the transition. */
  function Judge(h: Hasher, reg: Registry, accounts: seq<AccountInfo>, t: Transition): Judgement {
    match Reconstructed(h, reg, accounts, t)
    case Err(e) => Judgement(accounts, Skipped(e))
    case Ok(tx) =>
      var out := Apply(reg, accounts, tx);
      Judgement(out.accounts,
                match out.result
                case Err(e) => if e == Panic then Crashed else Rejected(e)
                case Ok(_) => if StateRoot(h, out.accounts) == t.stateRoot then Matched else Mismatched)
  }

  // ---------------------------------------------------------------- the proof for the contract

  function StorageSlots(inputs: Inputs): (r: Result<seq<IncludedStorageSlot>>)
    ensures r.Ok? ==> |r.value| == |inputs|
  {
    if inputs == [] then Ok([])
    else
      var init :- StorageSlots(inputs[..|inputs| - 1]);
      match inputs[|inputs| - 1]
      case None => Err(Panic)
      case Some(s) => Ok(init + [IncludedStorageSlot(s.slotIndex, s.accountInfo, s.inclusionProof)])
  }

  /** Slot i is made from input i. */
  predicate SlotsMatch(inputs: Inputs, slots: seq<IncludedStorageSlot>) {
    && |slots| == |inputs|
    && forall i :: 0 <= i < |slots| ==>
         && inputs[i].Some? && slots[i].slotIndex == inputs[i].value.slotIndex
         && slots[i].value == inputs[i].value.accountInfo && slots[i].siblings == inputs[i].value.inclusionProof
  }

  /** Each input becomes the slot at its own place; a missing snapshot is dereferenced. */
  lemma {:induction false} SlotsInOrder(inputs: Inputs)
    ensures StorageSlots(inputs).Ok? <==> None !in inputs
    ensures StorageSlots(inputs).Err? ==> StorageSlots(inputs) == Err(Panic)
    ensures StorageSlots(inputs).Ok? ==> SlotsMatch(inputs, StorageSlots(inputs).value)
  {
    if inputs != [] {
      var n := |inputs| - 1;
      SlotsInOrder(inputs[..n]);
      assert inputs == inputs[..n] + [inputs[n]];
    }
  }

  /** The key a block is stored under: the number as an int64, without its sign. */
  function BlockKey(blockNumber: nat): bytes {
    BigBytes(Int64(blockNumber))
  }

  function PreviousNumber(blockNumber: nat): nat
    requires blockNumber < UINT64_LIMIT
  {
    (blockNumber - 1) % UINT64_LIMIT
  }

  function LastIncluded(h: Hasher, block: RollupBlock): Result<IncludedTransition> {
    if block.transitions == [] then Err(Panic) else Included(h, block, |block.transitions| - 1)
  }

  /** The transition before a position, across the block boundary when it is the first of its block. */
  ghost function Predecessor(h: Hasher, stored: imap<bytes, bytes>, block: RollupBlock, position: TransitionPosition)
    : Result<IncludedTransition>
    requires position.blockNumber < UINT64_LIMIT
  {
    if position.transitionIndex > 0 then Included(h, block, position.transitionIndex - 1)
    else
      var key := BlockKey(PreviousNumber(position.blockNumber));
      if key !in stored then Err(NonExistentBlock)
      else
        var previous :- DecodeBlock(stored[key]);
        LastIncluded(h, previous)
  }

  ghost function ContractProof(h: Hasher, stored: imap<bytes, bytes>, block: RollupBlock, local: LocalFraudProof)
    : Result<ContractFraudProof>
    requires local.position.blockNumber < UINT64_LIMIT
  {
    var slots :- StorageSlots(local.inputs);
    var invalid :- Included(h, block, local.position.transitionIndex);
    var preState :- Predecessor(h, stored, block, local.position);
    Ok(ContractFraudProof(preState, invalid, slots))
  }

  /** The block table after validateBlock stored this block. */
  ghost function StoredWith(stored: imap<bytes, bytes>, block: RollupBlock): imap<bytes, bytes> {
    stored[BlockKey(block.blockNumber) := EncodeBlock(block.blockNumber, Encoded(block.transitions))]
  }

  // ---------------------------------------------------------------- a whole block

  datatype BlockOutcome = BlockOutcome(accounts: seq<AccountInfo>, submitted: seq<ContractFraudProof>,
          stopped: Option<Error>)

  /** A proof that cannot be assembled ends the block; its remaining transitions are not looked at. */
  ghost function ValidateNext(h: Hasher, reg: Registry, stored: imap<bytes, bytes>, block: RollupBlock, k: nat,
          before: BlockOutcome)
    : BlockOutcome
    requires block.blockNumber < UINT64_LIMIT && k < |block.transitions|
  {
    var t := block.transitions[k];
    var judged := Judge(h, reg, before.accounts, t);
    if judged.verdict.Crashed? then BlockOutcome(judged.accounts, before.submitted, Some(Panic))
    else if !Reported(judged.verdict) then BlockOutcome(judged.accounts, before.submitted, None)
    else
      var inputs := InputSnapshots(h, before.accounts, t).value;
      match ContractProof(h, stored, block, LocalFraudProof(TransitionPosition(block.blockNumber, k), inputs, t))
      case Ok(proof) => BlockOutcome(judged.accounts, before.submitted + [proof], None)
      case Err(e) => BlockOutcome(judged.accounts, before.submitted, Some(e))
  }

  ghost function ValidateUpTo(h: Hasher, reg: Registry, stored: imap<bytes, bytes>, accounts: seq<AccountInfo>,
          block: RollupBlock, k: nat)
    : BlockOutcome
    requires block.blockNumber < UINT64_LIMIT && k <= |block.transitions|
  {
    if k == 0 then BlockOutcome(accounts, [], None)
    else
      var before := ValidateUpTo(h, reg, stored, accounts, block, k - 1);
      if before.stopped.Some? then before else ValidateNext(h, reg, stored, block, k - 1, before)
  }

  lemma UpToNext(h: Hasher, reg: Registry, stored: imap<bytes, bytes>, accounts: seq<AccountInfo>, block: RollupBlock,
          k: nat)
    requires block.blockNumber < UINT64_LIMIT && k < |block.transitions|
    requires ValidateUpTo(h, reg, stored, accounts, block, k).stopped.None?
    ensures ValidateUpTo(h, reg, stored, accounts, block, k + 1) ==
            ValidateNext(h, reg, stored, block, k, ValidateUpTo(h, reg, stored, accounts, block, k))
  {
    hide ValidateNext;
  }

  lemma {:induction false} StaysStopped(h: Hasher, reg: Registry, stored: imap<bytes, bytes>,
          accounts: seq<AccountInfo>,
                                        block: RollupBlock, k: nat, n: nat)
    requires block.blockNumber < UINT64_LIMIT && k <= n <= |block.transitions|
    requires ValidateUpTo(h, reg, stored, accounts, block, k).stopped.Some?
    ensures ValidateUpTo(h, reg, stored, accounts, block, n) == ValidateUpTo(h, reg, stored, accounts, block, k)
    decreases n
  {
    hide ValidateNext;
    if k < n {
      StaysStopped(h, reg, stored, accounts, block, k, n - 1);
    }
  }

  // ---------------------------------------------------------------- a list of blocks

  /** The validator's accounts, its table of blocks, what it submitted, and whether it has crashed. */
  datatype ValidatorState = ValidatorState(accounts: seq<AccountInfo>, stored: imap<bytes, bytes>,
                                           submitted: seq<ContractFraudProof>, crashed: bool)

  ghost predicate NumbersFit(blocks: seq<RollupBlock>) {
    forall b :: b in blocks ==> b.blockNumber < UINT64_LIMIT
  }

  ghost function ValidateBlocks(h: Hasher, reg: Registry, stored: imap<bytes, bytes>,
          blocks: seq<RollupBlock>): ValidatorState
    requires NumbersFit(blocks)
  {
    if blocks == [] then ValidatorState([], stored, [], false)
    else
      var before := ValidateBlocks(h, reg, stored, blocks[..|blocks| - 1]);
      var block := blocks[|blocks| - 1];
      if before.crashed then before
      else
        var table := StoredWith(before.stored, block);
        var out := ValidateUpTo(h, reg, table, before.accounts, block, |block.transitions|);
        ValidatorState(out.accounts, table, before.submitted + out.submitted, out.stopped == Some(Panic))
  }

  /** A block as the chain announces it. */
  datatype RollupBlockCommitted = RollupBlockCommitted(blockNumber: nat, transitions: seq<bytes>)

  function Received(event: RollupBlockCommitted): Result<RollupBlock> {
    DecodeFields(event.blockNumber % UINT64_LIMIT, event.transitions)
  }

  /** The blocks of a stream of events up to the first that does not decode. */
  function Arrived(events: seq<RollupBlockCommitted>): (blocks: seq<RollupBlock>)
    ensures NumbersFit(blocks)
  {
    if events == [] then []
    else
      var init := Arrived(events[..|events| - 1]);
      if |init| < |events| - 1 then init
      else
        match Received(events[|events| - 1])
        case Ok(block) => init + [block]
        case Err(_) => init
  }

  /** The event that ends the stream makes decoding panic. */
  predicate ArrivalPanics(events: seq<RollupBlockCommitted>) {
    |Arrived(events)| < |events| && Received(events[|Arrived(events)|]) == Err(Panic)
  }

  /** Decoding panics exactly on an event whose first bad transition is shorter than its type word. */
  lemma ReceivedPanicsIff(event: RollupBlockCommitted)
    ensures Received(event) == Err(Panic) <==> FirstBadIsShort(event.transitions)
  {
    hide FirstBadIsShort, DecodeAll;
    DecodePanicsIff(event.transitions);
  }

  lemma {:induction false} ArrivedStops(events: seq<RollupBlockCommitted>, i: nat, n: nat)
    requires i <= n <= |events| && |Arrived(events[..i])| < i
    ensures Arrived(events[..n]) == Arrived(events[..i])
    decreases n
  {
    hide Received;
    if i < n {
      assert events[..n][..n - 1] == events[..n - 1];
      ArrivedStops(events, i, n - 1);
    }
  }

  lemma ArrivedNext(events: seq<RollupBlockCommitted>, i: nat)
    requires i < |events| && |Arrived(events[..i])| == i
    ensures Arrived(events[..i + 1]) ==
            if Received(events[i]).Ok? then Arrived(events[..i]) + [Received(events[i]).value] else Arrived(events[..i])
  {
    hide Received;
    assert events[..i + 1][..i] == events[..i];
  }

  /** An event that does not decode is the first after those that arrived, whatever follows. */
  lemma BadArrival(events: seq<RollupBlockCommitted>, i: nat)
    requires i < |events| && |Arrived(events[..i])| == i && Received(events[i]).Err?
    ensures Arrived(events) == Arrived(events[..i])
    ensures ArrivalPanics(events) <==> Received(events[i]).error == Panic
  {
    hide Received, Arrived;
    ArrivedNext(events, i);
    ArrivedStops(events, i + 1, |events|);
    assert events[..|events|] == events;
  }

  lemma {:induction false} ArrivedExtends(events: seq<RollupBlockCommitted>, i: nat)
    requires i <= |events|
    ensures Arrived(events[..i]) <= Arrived(events)
    decreases |events|
  {
    hide Received;
    if i < |events| {
      assert events[..|events| - 1][..i] == events[..i];
      ArrivedExtends(events[..|events| - 1], i);
    } else {
      assert events[..i] == events;
    }
  }

  /**
   The validator after a stream of events: a panic ends the process while decoding a block, or while replaying one.
   */
  ghost function Watched(h: Hasher, reg: Registry, stored: imap<bytes, bytes>,
          events: seq<RollupBlockCommitted>): ValidatorState {
    var v := ValidateBlocks(h, reg, stored, Arrived(events));
    v.(crashed := v.crashed || ArrivalPanics(events))
  }

  lemma ValidateBlocksNext(h: Hasher, reg: Registry, stored: imap<bytes, bytes>, blocks: seq<RollupBlock>,
          block: RollupBlock)
    requires NumbersFit(blocks) && NumbersFit(blocks + [block]) && !ValidateBlocks(h, reg, stored, blocks).crashed
    ensures block.blockNumber < UINT64_LIMIT
    ensures var before := ValidateBlocks(h, reg, stored, blocks);
            var table := StoredWith(before.stored, block);
            var out := ValidateUpTo(h, reg, table, before.accounts, block, |block.transitions|);
            ValidateBlocks(h, reg, stored, blocks + [block]) ==
            ValidatorState(out.accounts, table, before.submitted + out.submitted, out.stopped == Some(Panic))
  {
    hide ValidateUpTo, StoredWith;
    assert block in blocks + [block];
    assert (blocks + [block])[..|blocks|] == blocks;
  }

  lemma {:induction false} CrashedStays(h: Hasher, reg: Registry, stored: imap<bytes, bytes>, part: seq<RollupBlock>,
          blocks: seq<RollupBlock>)
    requires NumbersFit(part) && NumbersFit(blocks) && part <= blocks && ValidateBlocks(h, reg, stored, part).crashed
    ensures ValidateBlocks(h, reg, stored, blocks) == ValidateBlocks(h, reg, stored, part)
    decreases |blocks|
  {
    hide ValidateUpTo, StoredWith;
    if part != blocks {
      assert part <= blocks[..|blocks| - 1];
      CrashedStays(h, reg, stored, part, blocks[..|blocks| - 1]);
    }
  }

  // ---------------------------------------------------------------- order and extent

  lemma {:induction false} SubmittedInBlock(h: Hasher, reg: Registry, stored: imap<bytes, bytes>,
          accounts: seq<AccountInfo>, block: RollupBlock, k: nat, n: nat)
    requires block.blockNumber < UINT64_LIMIT && k <= n <= |block.transitions|
    ensures ValidateUpTo(h, reg, stored, accounts, block, k).submitted <=
            ValidateUpTo(h, reg, stored, accounts, block, n).submitted
    decreases n
  {
    hide Judge, ContractProof, InputSnapshots;
    if k < n {
      SubmittedInBlock(h, reg, stored, accounts, block, k, n - 1);
    }
  }

  /** Proofs are submitted in the order of the blocks: those of a part of the list come first. */
  lemma {:induction false} SubmittedInOrder(h: Hasher, reg: Registry, stored: imap<bytes, bytes>,
          part: seq<RollupBlock>, blocks: seq<RollupBlock>)
    requires NumbersFit(part) && NumbersFit(blocks) && part <= blocks
    ensures ValidateBlocks(h, reg, stored, part).submitted <= ValidateBlocks(h, reg, stored, blocks).submitted
    decreases |blocks|
  {
    hide ValidateUpTo, StoredWith;
    if part != blocks {
      assert part <= blocks[..|blocks| - 1];
      SubmittedInOrder(h, reg, stored, part, blocks[..|blocks| - 1]);
    }
  }

  function ReplayedFrom(h: Hasher, reg: Registry, accounts: seq<AccountInfo>, ts: seq<Transition>): seq<AccountInfo> {
    if ts == [] then accounts
    else Judge(h, reg, ReplayedFrom(h, reg, accounts, ts[..|ts| - 1]), ts[|ts| - 1]).accounts
  }

  /**
   How far a block is replayed: up to its end, or up to and including the transition that crashed the process or whose
   report could not be assembled. The replay keeps its own results, reported or not.
   */
  lemma {:induction false} BlockReplays(h: Hasher, reg: Registry, stored: imap<bytes, bytes>,
          accounts: seq<AccountInfo>, block: RollupBlock, n: nat) returns (m: nat)
    requires block.blockNumber < UINT64_LIMIT && n <= |block.transitions|
    ensures m <= n
    ensures var out := ValidateUpTo(h, reg, stored, accounts, block, n);
            && out.accounts == ReplayedFrom(h, reg, accounts, block.transitions[..m])
            && (out.stopped.None? ==> m == n)
            && (out.stopped.Some? ==>
                  && m > 0 && ValidateUpTo(h, reg, stored, accounts, block, m - 1).stopped.None?
                  && var before := ReplayedFrom(h, reg, accounts, block.transitions[..m - 1]);
                     var verdict := Judge(h, reg, before, block.transitions[m - 1]).verdict;
                     verdict.Crashed? || Reported(verdict))
  {
    hide Judge, ContractProof, InputSnapshots;
    m := n;
    if n > 0 {
      m := BlockReplays(h, reg, stored, accounts, block, n - 1);
      if ValidateUpTo(h, reg, stored, accounts, block, n - 1).stopped.None? {
        m := n;
        assert block.transitions[..n][..n - 1] == block.transitions[..n - 1];
      }
    }
  }

  // ---------------------------------------------------------------- what arrives

  /** An event is received as the block of the low 64 bits of its number and its decoded transitions, in order. */
  lemma ReceivedIff(event: RollupBlockCommitted, block: RollupBlock)
    ensures Received(event) == Ok(block) <==>
            && block.blockNumber == event.blockNumber % UINT64_LIMIT
            && |block.transitions| == |event.transitions|
            && forall i :: 0 <= i < |event.transitions| ==>
                 DeserializeTransition(event.transitions[i]) == Ok(block.transitions[i])
  {
    hide DeserializeTransition, DecodeAll;
    DecodesTo(event.transitions, block.transitions);
  }

  /** The blocks that arrive are the events that decode before the first that does not, each at its place. */
  lemma {:induction false} ArrivedIs(events: seq<RollupBlockCommitted>)
    ensures |Arrived(events)| <= |events|
    ensures forall i :: 0 <= i < |Arrived(events)| ==> Received(events[i]) == Ok(Arrived(events)[i])
    ensures |Arrived(events)| < |events| ==> Received(events[|Arrived(events)|]).Err?
  {
    hide Received;
    if events != [] {
      ArrivedIs(events[..|events| - 1]);
    }
  }
}
