/** The validator: replays blocks on its own state machine and assembles fraud proofs (validator/validator.go). */
module Validators {
  import opened ByteStrings
  import opened Errors
  import opened Namespaces
  import opened MemoryDb
  import opened TrieStore
  import opened Accounts
  import opened Ledger
  import opened StateSpec
  import opened StateSteps
  import opened StateMachines
  import opened Transitions
  import opened Blocks
  import opened BlockTrees
  import opened Validation

  class Validator {
    const db: DB
    const stateMachine: StateMachine

    ghost predicate Valid()
      reads this, stateMachine, stateMachine.db, stateMachine.smt
    {
      stateMachine.Valid() && stateMachine.db == db
    }

    ghost function StoredBlocks(): imap<bytes, bytes>
      reads db
    {
      Table(db.store, ROLLUP_BLOCK_NUMBER)
    }

    constructor (db: DB, hasher: Hasher, ghost reg: Registry)
      requires NoState(db.store) && RegistryAgrees(db.store, reg) && Usable(reg)
      modifies db
      ensures Valid() && stateMachine.registry == reg && stateMachine.hasher == hasher && stateMachine.accounts == []
      ensures this.db == db && StoredBlocks() == old(Table(db.store, ROLLUP_BLOCK_NUMBER))
    {
      hide NoState, RegistryAgrees, Usable, StateValid, Table;
      this.db := db;
      NothingBackedYet(hasher, db.store);
      stateMachine := new StateMachine(db, hasher, reg, {});
    }

    method GetInputStateSnapshots(t: Transition) returns (r: Result<Inputs>)
      requires Valid()
      ensures r.Ok? ==> InputsShaped(t, r.value)
      ensures stateMachine.Sound() ==> r == InputSnapshots(stateMachine.hasher, stateMachine.accounts, t)
    {
      hide StateValid, StateSteps.Sound, Snapshot, SnapshotRead;
      match t {
        case CreateAndDepositTransition(_, _, _, _, _, _, _) =>
          r := Ok([]);
        case DepositTransition(_, _, slot, _, _, _) =>
          var snapshot :- GetSnapshot(slot);
          r := Ok([Some(snapshot)]);
        case WithdrawTransition(_, _, slot, _, _, _, _) =>
          var snapshot :- GetSnapshot(slot);
          r := Ok([Some(snapshot)]);
        case CreateAndTransferTransition(_, _, from, _, _, _, _, _, _) =>
          var sender :- GetSnapshot(from);
          r := Ok([Some(sender), None]);
        case TransferTransition(_, _, from, to, _, _, _, _) =>
          var sender :- GetSnapshot(from);
          var recipient :- GetSnapshot(to);
          r := Ok([Some(sender), Some(recipient)]);
      }
    }

    method GetSnapshot(slot: int) returns (r: Result<StateSnapshot>)
      requires Valid()
      ensures stateMachine.Sound() ==> r == Snapshot(stateMachine.hasher, stateMachine.accounts, Magnitude(slot))
    {
      hide StateValid, StateSteps.Sound, Snapshot, SnapshotRead, FromBytes, ToBytes;
      FromToBytes(Magnitude(slot));
      r := stateMachine.GetStateSnapshot(BigBytes(slot));
    }

    method GetToken(tokenIndex: int) returns (r: Result<EthAddress>)
      requires Valid()
      ensures r == TokenAt(stateMachine.registry, tokenIndex)
    {
      hide StateValid, PrependNamespace, ToBytes;
      TokenAddressBytes(stateMachine.hasher, stateMachine.registry, stateMachine.State(), stateMachine.accounts,
        Magnitude(tokenIndex));
      var tokenBytes, exists_ := db.Get(Some(TOKEN_INDEX_TO_ADDRESS), BigBytes(tokenIndex));
      if !exists_ {
        return Err(InvalidToken);
      }
      r := Ok(ToAddress(tokenBytes));
    }

    method GetTransactionFromTransitionAndSnapshots(t: Transition, snapshots: Inputs)
            returns (r: Result<Ledger.Transaction>)
      requires Valid() && InputsShaped(t, snapshots)
      ensures r == Rebuilt(stateMachine.registry, t, snapshots)
    {
      hide StateValid, TokenAt;
      var token :- GetToken(t.tokenIndex);
      match t {
        case CreateAndDepositTransition(_, _, _, account, _, amount, signature) =>
          r := Ok(DepositTransaction(ToAddress(account), token, amount, signature));
        case DepositTransition(_, _, _, _, amount, signature) =>
          var account := Owner(snapshots[0]);
          r := Ok(DepositTransaction(account, token, amount, signature));
        case WithdrawTransition(_, _, _, _, amount, nonce, signature) =>
          var account := Owner(snapshots[0]);
          r := Ok(WithdrawTransaction(account, token, amount, nonce, signature));
        case CreateAndTransferTransition(_, _, _, _, recipient, _, amount, nonce, signature) =>
          var sender := Owner(snapshots[0]);
          r := Ok(TransferTransaction(sender, ToAddress(recipient), token, amount, nonce, signature));
        case TransferTransition(_, _, _, _, _, amount, nonce, signature) =>
          var sender, recipient := Owner(snapshots[0]), Owner(snapshots[1]);
          r := Ok(TransferTransaction(sender, recipient, token, amount, nonce, signature));
      }
    }

    /** An error means the transition was skipped, or that the process crashed; a proof means it was reported. */
    method ValidateTransition(position: TransitionPosition, t: Transition) returns (r: Result<Option<LocalFraudProof>>)
      requires Valid()
      modifies stateMachine, db, stateMachine.smt
      ensures Valid() && stateMachine.Grows()
      ensures r.Ok? && r.value.Some? ==> r.value.value.position == position
      ensures stateMachine.Sound() ==>
                var judged := Judge(stateMachine.hasher, stateMachine.registry, old(stateMachine.accounts), t);
                && stateMachine.accounts == judged.accounts
                && (judged.verdict.Skipped? ==> r == Err(judged.verdict.error) && r.error != Panic)
                && (judged.verdict.Crashed? ==> r == Err(Panic))
                && (judged.verdict.Matched? ==> r == Ok(None))
                && (Reported(judged.verdict) ==>
                      var inputs := InputSnapshots(stateMachine.hasher, old(stateMachine.accounts), t);
                      inputs.Ok? && r == Ok(Some(LocalFraudProof(position, inputs.value, t))))
    {
      hide StateValid, StateSteps.Sound, StateGrows, UpdateFor, Apply, Rebuilt, InputSnapshots, StateRoot,
        InputsShaped, StateMachine.Valid;
      StateGrowsSame(stateMachine.State(), stateMachine.accounts);
      SkipsWithoutPanic(stateMachine.hasher, stateMachine.registry, stateMachine.accounts, t);
      var snapshots :- GetInputStateSnapshots(t);
      var tx :- GetTransactionFromTransitionAndSnapshots(t, snapshots);
      ghost var st, accounts := stateMachine.State(), stateMachine.accounts;
      UpdateDecides(stateMachine.hasher, stateMachine.registry, accounts, tx);
      var update := stateMachine.ApplyTransaction(tx);
      SoundBefore(stateMachine.hasher, st, accounts, stateMachine.State(), stateMachine.accounts);
      if update.Err? {
        if update.error == Panic {
          return Err(Panic);
        }
        return Ok(Some(LocalFraudProof(position, snapshots, t)));
      }
      var localPostRoot := stateMachine.GetStateRoot();
      if localPostRoot != t.stateRoot {
        return Ok(Some(LocalFraudProof(position, snapshots, t)));
      }
      r := Ok(None);
    }

    method GenerateContractFraudProof(block: RollupBlock, localFraudProof: LocalFraudProof)
            returns (r: Result<ContractFraudProof>)
      requires Valid() && localFraudProof.position.blockNumber < UINT64_LIMIT
      ensures r == ContractProof(stateMachine.hasher, StoredBlocks(), block, localFraudProof)
      ensures r.Ok? ==> SlotsMatch(localFraudProof.inputs, r.value.slots)
    {
      hide StateValid, Included, Predecessor, StorageSlots, SlotsMatch;
      SlotsInOrder(localFraudProof.inputs);
      var slots :- IncludedSlots(localFraudProof.inputs);
      var position := localFraudProof.position;
      var invalid, preState;
      invalid, preState := PairOfTransitions(block, position);
      var invalidIncluded :- invalid;
      var preStateIncluded :- preState;
      r := Ok(ContractFraudProof(preStateIncluded, invalidIncluded, slots));
    }

    /** The reported transition and the one before it; the second is only fetched when the first exists. */
    method PairOfTransitions(block: RollupBlock, position: TransitionPosition)
      returns (invalid: Result<IncludedTransition>, preState: Result<IncludedTransition>)
      requires Valid() && position.blockNumber < UINT64_LIMIT
      ensures invalid == Included(stateMachine.hasher, block, position.transitionIndex)
      ensures invalid.Ok? ==> preState == Predecessor(stateMachine.hasher, StoredBlocks(), block, position)
    {
      hide StateValid, BlockTree, StateMachine.Valid;
      var h := stateMachine.hasher;
      var built := NewRollupBlockInfo(h, block);
      if built.Err? {
        return Err(built.error), Err(built.error);
      }
      var blockInfo := built.value;
      invalid := blockInfo.GetIncludedTransition(position.transitionIndex, h, block);
      if position.transitionIndex == 0 {
        preState := LastOfPreviousBlock(position);
      } else {
        preState := blockInfo.GetIncludedTransition(position.transitionIndex - 1, h, block);
      }
    }

    method LastOfPreviousBlock(position: TransitionPosition) returns (r: Result<IncludedTransition>)
      requires Valid() && position.blockNumber < UINT64_LIMIT && position.transitionIndex == 0
      ensures forall block :: r == Predecessor(stateMachine.hasher, StoredBlocks(), block, position)
    {
      hide StateValid, BlockTree, PrependNamespace, DecodeBlock, BigBytes, Int64, Table;
      var key := BlockKey(PreviousNumber(position.blockNumber));
      TableRead(db.store, ROLLUP_BLOCK_NUMBER, key);
      var previousBlockData, exists_ := db.Get(Some(ROLLUP_BLOCK_NUMBER), key);
      if !exists_ {
        return Err(NonExistentBlock);
      }
      var previousBlock :- DecodeBlock(previousBlockData);
      var built := NewRollupBlockInfo(stateMachine.hasher, previousBlock);
      if built.Err? {
        NoTreeNoLast(stateMachine.hasher, previousBlock);
        return Err(built.error);
      }
      var previousBlockInfo := built.value;
      var n := previousBlockInfo.GetNumTransitions();
      TreeNeedsTransitions(stateMachine.hasher, previousBlock);
      r := previousBlockInfo.GetIncludedTransition(n - 1, stateMachine.hasher, previousBlock);
    }

    /** Stores the block, then replays its transitions one by one. */
    method ValidateBlock(block: RollupBlock) returns (submitted: seq<ContractFraudProof>, stopped: Option<Error>)
      requires Valid() && block.blockNumber < UINT64_LIMIT
      modifies stateMachine, db, stateMachine.smt
      ensures Valid()
      ensures StoredBlocks() == StoredWith(old(StoredBlocks()), block)
      ensures stateMachine.Sound() ==> old(stateMachine.Sound())
      ensures stateMachine.Sound() ==>
                BlockOutcome(stateMachine.accounts, submitted, stopped) ==
                ValidateUpTo(stateMachine.hasher, stateMachine.registry, StoredWith(old(StoredBlocks()), block),
                             old(stateMachine.accounts), block, |block.transitions|)
    {
      hide StateValid, StateSteps.Sound, StateGrows, Judge, InputSnapshots, ContractProof, ValidateUpTo,
        StateMachine.Valid, Table, StoredWith;
      StoreBlock(block);
      submitted, stopped := [], None;
      ghost var before, stored := stateMachine.accounts, StoredBlocks();
      NothingValidated(stateMachine.hasher, stateMachine.registry, stored, before, block);
      var i := 0;
      while i < |block.transitions|
        invariant 0 <= i <= |block.transitions| && Valid() && StoredBlocks() == stored
        invariant stopped == None
        invariant stateMachine.Sound() ==> old(stateMachine.Sound())
        invariant stateMachine.Sound() ==>
                    BlockOutcome(stateMachine.accounts, submitted, None) ==
                    ValidateUpTo(stateMachine.hasher, stateMachine.registry, stored, before, block, i)
      {
        ghost var st, accounts := stateMachine.State(), stateMachine.accounts;
        var position := TransitionPosition(block.blockNumber, i);
        var fraudProof := ValidateTransition(position, block.transitions[i]);
        SoundBefore(stateMachine.hasher, st, accounts, stateMachine.State(), stateMachine.accounts);
        BlocksKept(st, accounts, stateMachine.State(), stateMachine.accounts);
        if stateMachine.Sound() {
          UpToNext(stateMachine.hasher, stateMachine.registry, stored, before, block, i);
        }
        if fraudProof.Err? {
          if fraudProof.error == Panic {
            StopsHere(stateMachine.hasher, stateMachine.registry, stored, before, block, i + 1);
            return submitted, Some(Panic);
          }
        } else if fraudProof.value.Some? {
          var contractFraudProof := GenerateContractFraudProof(block, fraudProof.value.value);
          if contractFraudProof.Err? {
            StopsHere(stateMachine.hasher, stateMachine.registry, stored, before, block, i + 1);
            return submitted, Some(contractFraudProof.error);
          }
          submitted := submitted + [contractFraudProof.value];
        }
        i := i + 1;
      }
    }

    /** The event loop: an event that does not decode ends it, and so does a panic, while decoding or validating. */
    method WatchRollupBlockCommitted(events: seq<RollupBlockCommitted>)
      returns (submitted: seq<ContractFraudProof>, crashed: bool)
      requires Valid() && stateMachine.accounts == []
      modifies stateMachine, db, stateMachine.smt
      ensures Valid()
      ensures stateMachine.Sound() ==>
                ValidatorState(stateMachine.accounts, StoredBlocks(), submitted, crashed) ==
                Watched(stateMachine.hasher, stateMachine.registry, old(StoredBlocks()), events)
    {
      hide StateValid, StateSteps.Sound, ValidateUpTo, StateMachine.Valid, Table, StoredWith, Received, Arrived,
        ValidateBlocks;
      submitted, crashed := [], false;
      ghost var h, reg, stored := stateMachine.hasher, stateMachine.registry, StoredBlocks();
      NothingArrived(events);
      NoBlocks(h, reg, stored);
      var i := 0;
      while i < |events|
        invariant 0 <= i <= |events| && Valid() && !crashed
        invariant |Arrived(events[..i])| == i
        invariant stateMachine.Sound() ==>
                    ValidatorState(stateMachine.accounts, StoredBlocks(), submitted, false) ==
                    ValidateBlocks(h, reg, stored, Arrived(events[..i]))
      {
        ArrivedNext(events, i);
        ArrivedExtends(events, i + 1);
        var block := Receive(events[i]);
        if block.Err? {
          crashed := block.error == Panic;
          BadArrival(events, i);
          return;
        }
        var proofs, stopped := ValidateBlock(block.value);
        submitted := submitted + proofs;
        if stateMachine.Sound() {
          ValidateBlocksNext(h, reg, stored, Arrived(events[..i]), block.value);
        }
        if stopped == Some(Panic) {
          crashed := true;
          if stateMachine.Sound() {
            CrashedStays(h, reg, stored, Arrived(events[..i + 1]), Arrived(events));
          }
          return;
        }
        i := i + 1;
      }
      assert events[..i] == events;
    }

    method Receive(event: RollupBlockCommitted) returns (block: Result<RollupBlock>)
      ensures block == Received(event)
      ensures block.Ok? ==> block.value.blockNumber < UINT64_LIMIT
    {
      block := DeserializeRollupBlockFromFields(event.blockNumber % UINT64_LIMIT, event.transitions);
    }

    method StoreBlock(block: RollupBlock)
      requires Valid()
      modifies db
      ensures Valid()
      ensures stateMachine.Sound() <==> old(stateMachine.Sound())
      ensures StoredBlocks() == StoredWith(old(StoredBlocks()), block)
    {
      hide StateValid, Table, BlockKey, EncodeBlock, Encoded, PrependNamespace, Backed;
      var _, serializedBlock := Blocks.Serialize(block);
      var key := BigBytes(Int64(block.blockNumber));
      assert key == BlockKey(block.blockNumber) by { KeyOfBlock(block.blockNumber); }
      BlockStoredKeepsState(stateMachine.hasher, stateMachine.registry, stateMachine.State(), stateMachine.accounts,
        key, serializedBlock);
      KeptBacked(stateMachine.hasher, stateMachine.registry,
        stateMachine.State().(store := db.store[Key(ROLLUP_BLOCK_NUMBER, key) := serializedBlock]),
                 stateMachine.accounts);
      db.Set(Some(ROLLUP_BLOCK_NUMBER), key, serializedBlock);
    }
  }

  lemma NothingArrived(events: seq<RollupBlockCommitted>)
    ensures Arrived(events[..0]) == []
  {
  }

  lemma NoBlocks(h: Hasher, reg: Registry, stored: imap<bytes, bytes>)
    ensures ValidateBlocks(h, reg, stored, []) == ValidatorState([], stored, [], false)
  {
  }

  lemma KeyOfBlock(blockNumber: nat)
    ensures BigBytes(Int64(blockNumber)) == BlockKey(blockNumber)
  {
  }

  lemma KeptBacked(h: Hasher, reg: Registry, st: TreeState, accounts: seq<AccountInfo>)
    requires StateValid(h, reg, st, accounts)
    ensures Backed(h, Some(STATE_TRIE), st.store, st.recorded)
  {
    hide Backed, RegistryAgrees, Agrees;
  }

  lemma BlocksKept(st: TreeState, accounts: seq<AccountInfo>, st': TreeState, accounts': seq<AccountInfo>)
    requires StateGrows(st, accounts, st', accounts')
    ensures Table(st'.store, ROLLUP_BLOCK_NUMBER) == Table(st.store, ROLLUP_BLOCK_NUMBER)
  {
    hide Table;
  }

  lemma NothingValidated(h: Hasher, reg: Registry, stored: imap<bytes, bytes>, accounts: seq<AccountInfo>,
          block: RollupBlock)
    requires block.blockNumber < UINT64_LIMIT
    ensures ValidateUpTo(h, reg, stored, accounts, block, 0) == BlockOutcome(accounts, [], None)
  {
  }

  lemma StopsHere(h: Hasher, reg: Registry, stored: imap<bytes, bytes>, accounts: seq<AccountInfo>, block: RollupBlock,
          k: nat)
    requires block.blockNumber < UINT64_LIMIT && k <= |block.transitions|
    ensures ValidateUpTo(h, reg, stored, accounts, block, k).stopped.Some? ==>
              ValidateUpTo(h, reg, stored, accounts, block, |block.transitions|) ==
                ValidateUpTo(h, reg, stored, accounts, block, k)
  {
    hide ValidateUpTo;
    if ValidateUpTo(h, reg, stored, accounts, block, k).stopped.Some? {
      StaysStopped(h, reg, stored, accounts, block, k, |block.transitions|);
    }
  }

  method IncludedSlots(inputs: Inputs) returns (r: Result<seq<IncludedStorageSlot>>)
    ensures r == StorageSlots(inputs)
  {
    var slots: seq<IncludedStorageSlot> := [];
    var i := 0;
    while i < |inputs|
      invariant 0 <= i <= |inputs|
      invariant StorageSlots(inputs[..i]) == Ok(slots)
    {
      assert inputs[..i + 1][..i] == inputs[..i];
      if inputs[i].None? {
        SlotsStop(inputs, i + 1);
        return Err(Panic);
      }
      var input := inputs[i].value;
      slots := slots + [IncludedStorageSlot(input.slotIndex, input.accountInfo, input.inclusionProof)];
      i := i + 1;
    }
    assert inputs[..i] == inputs;
    r := Ok(slots);
  }

  lemma {:induction false} SlotsStop(inputs: Inputs, i: nat)
    requires i <= |inputs| && StorageSlots(inputs[..i]) == Err(Panic)
    ensures StorageSlots(inputs) == Err(Panic)
    decreases |inputs| - i
  {
    if i == |inputs| {
      assert inputs[..i] == inputs;
    } else {
      assert inputs[..i + 1][..i] == inputs[..i];
      SlotsStop(inputs, i + 1);
    }
  }

  lemma NoTreeNoLast(h: Hasher, block: RollupBlock)
    ensures BlockTree(h, Encoded(block.transitions)).Err? ==>
              LastIncluded(h, block) == Err(BlockTree(h, Encoded(block.transitions)).error)
  {
    hide BlockTreeUpTo;
  }

  lemma TreeNeedsTransitions(h: Hasher, block: RollupBlock)
    ensures BlockTree(h, Encoded(block.transitions)).Ok? ==> block.transitions != []
  {
  }

  lemma TokenAddressBytes(h: Hasher, reg: Registry, st: TreeState, accounts: seq<AccountInfo>, index: nat)
    requires StateValid(h, reg, st, accounts)
    ensures Key(TOKEN_INDEX_TO_ADDRESS, ToBytes(index)) in st.store <==> index in reg.toToken
    ensures index in reg.toToken ==>
              ToAddress(st.store[Key(TOKEN_INDEX_TO_ADDRESS, ToBytes(index))]) == reg.toToken[index]
  {
    hide Agrees, Backed, Table, Key, ToBytes;
    TableRead(st.store, TOKEN_INDEX_TO_ADDRESS, ToBytes(index));
    if index in reg.toToken {
      AddressIsItself(reg.toToken[index]);
    }
  }

  lemma SkipsWithoutPanic(h: Hasher, reg: Registry, accounts: seq<AccountInfo>, t: Transition)
    ensures Reconstructed(h, reg, accounts, t).Err? ==> Reconstructed(h, reg, accounts, t).error != Panic
  {
    hide StateRoot, SlotProof;
  }
}
