/** The aggregator: applies transactions one at a time and fills blocks (aggregator/aggregator.go). */
module Aggregators {
  import opened ByteStrings
  import opened Errors
  import opened Namespaces
  import opened MemoryDb
  import opened Accounts
  import opened Ledger
  import opened StateSpec
  import opened StateSteps
  import opened StateMachines
  import opened Transitions
  import opened Blocks
  import opened Sealing
  import TrieStore

  class Aggregator {
    const aggregatorDb: DB
    const stateMachine: StateMachine
    const numTransitionsInBlock: int
    const fraudTransfer: bool
    var pendingBlock: RollupBlock
    /** Blocks whose proposal returned no error. */
    ghost var sealedBlocks: seq<RollupBlock>
    /** Set by the panic that ends the process. */
    ghost var crashed: bool

    ghost predicate Valid()
      reads this, stateMachine, stateMachine.db, stateMachine.smt
    {
      stateMachine.Valid() && stateMachine.db == aggregatorDb
    }

    ghost function View(): AggregatorState
      reads this, stateMachine
    {
      AggregatorState(stateMachine.accounts, Sealed(sealedBlocks, pendingBlock), crashed)
    }

    constructor (db: DB, hasher: Hasher, numTransitionsInBlock: int, fraudTransfer: bool, ghost reg: Registry)
      requires NoState(db.store) && RegistryAgrees(db.store, reg) && Usable(reg)
      modifies db
      ensures Valid() && stateMachine.registry == reg && stateMachine.hasher == hasher
      ensures this.numTransitionsInBlock == numTransitionsInBlock && this.fraudTransfer == fraudTransfer
      ensures View() == AGGREGATOR_START
    {
      hide NoState, RegistryAgrees, Usable, StateValid;
      aggregatorDb := db;
      NothingBackedYet(hasher, db.store);
      stateMachine := new StateMachine(db, hasher, reg, {});
      this.numTransitionsInBlock, this.fraudTransfer := numTransitionsInBlock, fraudTransfer;
      pendingBlock, sealedBlocks, crashed := RollupBlock(0, []), [], false;
    }

    /**
     The outcome of proposing a block is an input: it is decided on another chain. A missing update is
     dereferenced as soon as it is to be added to the block.
     */
    method ApplyTransaction(tx: Ledger.Transaction, proposeSucceeds: bool) returns (r: Result<()>)
      requires Valid() && !crashed
      modifies this, stateMachine, aggregatorDb, stateMachine.smt
      ensures Valid() && stateMachine.Grows()
      ensures crashed <==> r == Err(Panic)
      ensures stateMachine.Sound() ==>
                var h, reg, sub := stateMachine.hasher, stateMachine.registry, Submission(tx, proposeSucceeds);
                && View() == AggregatorStep(h, reg, fraudTransfer, numTransitionsInBlock, old(View()), sub)
                && r == AggregatorResult(h, reg, fraudTransfer, numTransitionsInBlock, old(View()), sub)
    {
      hide StateValid, StateSteps.Sound, StateGrows, UpdateFor, TransitionOf, Apply;
      UpdateDecides(stateMachine.hasher, stateMachine.registry, stateMachine.accounts, tx);
      var applied := stateMachine.ApplyTransaction(tx);
      if applied.Err? {
        crashed := applied.error == Panic;
        return Err(applied.error);
      }
      if applied.value.None? {
        crashed := true;
        return Err(Panic);
      }
      var _ :- AddToPendingBlock(applied.value.value, tx);
      if |pendingBlock.transitions| >= numTransitionsInBlock {
        if !proposeSucceeds {
          return Err(ProposeFailed);
        }
        sealedBlocks := sealedBlocks + [pendingBlock];
        pendingBlock := RollupBlock((pendingBlock.blockNumber + 1) % UINT64_LIMIT, []);
      }
      r := Ok(());
    }

    /** The queue is drained by a single loop; an error of one transaction does not stop it, a panic does. */
    method ProcessTransactions(queue: seq<Submission>)
      requires Valid()
      requires View() == AGGREGATOR_START
      modifies this, stateMachine, aggregatorDb, stateMachine.smt
      ensures Valid()
      ensures stateMachine.Sound() ==>
                var h, reg := stateMachine.hasher, stateMachine.registry;
                View() == AggregatorRun(h, reg, fraudTransfer, numTransitionsInBlock, queue)
    {
      hide StateValid, StateSteps.Sound, StateGrows, AggregatorStep, AggregatorResult;
      ghost var h, reg := stateMachine.hasher, stateMachine.registry;
      var i := 0;
      while i < |queue|
        invariant 0 <= i <= |queue| && Valid() && !crashed
        invariant stateMachine.Sound() ==>
                    View() == AggregatorRun(h, reg, fraudTransfer, numTransitionsInBlock, queue[..i])
      {
        assert queue[..i + 1][..i] == queue[..i];
        ghost var st, accounts := stateMachine.State(), stateMachine.accounts;
        var result := ApplyTransaction(queue[i].tx, queue[i].proposed);
        SoundBefore(stateMachine.hasher, st, accounts, stateMachine.State(), stateMachine.accounts);
        if result == Err(Panic) {
          if stateMachine.Sound() {
            AggregatorStaysCrashed(h, reg, fraudTransfer, numTransitionsInBlock, queue, i + 1);
          }
          return;
        }
        i := i + 1;
      }
      assert queue[..i] == queue;
    }

    method AddToPendingBlock(stateUpdate: StateUpdate, tx: Ledger.Transaction) returns (r: Result<()>)
      requires Valid()
      requires |stateUpdate.entries| == if tx.TransferTransaction? then 2 else 1
      modifies this`pendingBlock
      ensures tx.token !in stateMachine.registry.toIndex ==> r == Err(InvalidToken) && pendingBlock == old(pendingBlock)
      ensures tx.token in stateMachine.registry.toIndex ==>
                var t := TransitionOf(fraudTransfer, tx, stateUpdate, stateMachine.registry.toIndex[tx.token]);
                r.Ok? && t.Ok? &&
                pendingBlock == RollupBlock(old(pendingBlock).blockNumber, old(pendingBlock).transitions + [t.value])
    {
      hide StateValid, PrependNamespace, FromBytes, ToBytes;
      TokenBytes(stateMachine.hasher, stateMachine.registry, stateMachine.State(), stateMachine.accounts, tx.token);
      var tokenIndex, exists_ := aggregatorDb.Get(Some(TOKEN_ADDRESS_TO_INDEX), tx.token);
      if !exists_ {
        return Err(InvalidToken);
      }
      var entries, index := stateUpdate.entries, FromBytes(tokenIndex);
      var transition;
      match tx {
        case DepositTransaction(_, _, amount, signature) =>
          if entries[0].newAccount {
            transition := CreateAndDepositTransition(CREATE_AND_DEPOSIT, stateUpdate.stateRoot, entries[0].slotIndex,
                                                     entries[0].accountInfo.account, index, amount, signature);
          } else {
            transition := DepositTransition(DEPOSIT, stateUpdate.stateRoot, entries[0].slotIndex, index, amount,
                                            signature);
          }
        case WithdrawTransaction(_, _, amount, nonce, signature) =>
          transition := WithdrawTransition(WITHDRAW, stateUpdate.stateRoot, entries[0].slotIndex, index, amount, nonce,
                                           signature);
        case TransferTransaction(_, _, _, amount, nonce, signature) =>
          var stateRoot := stateUpdate.stateRoot;
          if fraudTransfer {
            stateRoot := Zeros(32);
          }
          var from, to := entries[0].slotIndex, entries[1].slotIndex;
          if entries[1].newAccount {
            transition := CreateAndTransferTransition(CREATE_AND_TRANSFER, stateRoot, from, to,
                                                      entries[1].accountInfo.account, index, amount, nonce, signature);
          } else {
            transition := TransferTransition(TRANSFER, stateRoot, from, to, index, amount, nonce, signature);
          }
      }
      pendingBlock := RollupBlock(pendingBlock.blockNumber, pendingBlock.transitions + [transition]);
      r := Ok(());
    }
  }

  lemma TokenBytes(h: Hasher, reg: Registry, st: TrieStore.TreeState, accounts: seq<AccountInfo>, token: EthAddress)
    requires StateValid(h, reg, st, accounts)
    ensures Key(TOKEN_ADDRESS_TO_INDEX, token) in st.store <==> token in reg.toIndex
    ensures token in reg.toIndex ==> FromBytes(st.store[Key(TOKEN_ADDRESS_TO_INDEX, token)]) == reg.toIndex[token]
  {
    hide Agrees, TrieStore.Backed, Table, Key, FromBytes, ToBytes;
    TableRead(st.store, TOKEN_ADDRESS_TO_INDEX, token);
    if token in reg.toIndex {
      FromToBytes(reg.toIndex[token]);
    }
  }
}
