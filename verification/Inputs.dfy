/** Inputs on which the node does not do what one would expect of it. */
module Inputs {
  import opened ByteStrings
  import opened Errors
  import opened MerkleTree
  import opened Abi
  import opened Accounts
  import opened Ledger
  import opened LedgerTheorems
  import opened StateSpec
  import opened Transitions
  import opened Blocks
  import opened BlockTrees
  import opened Sealing
  import opened Validation
  import opened Verdicts
  import opened Replay
  import opened ReplayExactness
  import opened FraudProofs
  import opened FraudCoherence

  // ---------------------------------------------------------------- a single block

  lemma OneBlock(h: Hasher, reg: Registry, stored: imap<bytes, bytes>, block: RollupBlock)
    requires block.blockNumber < UINT64_LIMIT
    ensures var out := ValidateUpTo(h, reg, StoredWith(stored, block), [], block, |block.transitions|);
            ValidateBlocks(h, reg, stored, [block]) ==
            ValidatorState(out.accounts, StoredWith(stored, block), out.submitted, out.stopped == Some(Panic))
  {
    hide ValidateUpTo, StoredWith;
    assert [block][..0] == [];
    NothingValidatedYet(h, reg, stored);
    assert [] + ValidateUpTo(h, reg, StoredWith(stored, block), [], block, |block.transitions|).submitted ==
           ValidateUpTo(h, reg, StoredWith(stored, block), [], block, |block.transitions|).submitted;
  }

  lemma NothingValidatedYet(h: Hasher, reg: Registry, stored: imap<bytes, bytes>)
    ensures ValidateBlocks(h, reg, stored, []) == ValidatorState([], stored, [], false)
  {
  }

  /** A block of two transitions of which the first is matched. */
  lemma SecondOfTwo(h: Hasher, reg: Registry, table: imap<bytes, bytes>, block: RollupBlock)
    requires block.blockNumber < UINT64_LIMIT && |block.transitions| == 2
    requires Judge(h, reg, [], block.transitions[0]).verdict.Matched?
    ensures ValidateUpTo(h, reg, table, [], block, 2) ==
            ValidateNext(h, reg, table, block, 1,
                         BlockOutcome(Judge(h, reg, [], block.transitions[0]).accounts, [], None))
  {
    hide Judge, ContractProof, InputSnapshots, ValidateNext;
    assert ValidateUpTo(h, reg, table, [], block, 0) == BlockOutcome([], [], None);
    MatchedNext(h, reg, table, block);
    assert ValidateUpTo(h, reg, table, [], block, 1) ==
           ValidateNext(h, reg, table, block, 0, BlockOutcome([], [], None));
  }

  lemma MatchedNext(h: Hasher, reg: Registry, table: imap<bytes, bytes>, block: RollupBlock)
    requires block.blockNumber < UINT64_LIMIT && |block.transitions| > 0
    requires Judge(h, reg, [], block.transitions[0]).verdict.Matched?
    ensures ValidateNext(h, reg, table, block, 0, BlockOutcome([], [], None)) ==
            BlockOutcome(Judge(h, reg, [], block.transitions[0]).accounts, [], None)
  {
    hide Judge, ContractProof, InputSnapshots;
  }

  // ---------------------------------------------------------------- a report that ends the process

  /** With fraudTransfer on, an accepted transfer that creates its recipient is reported, and the report is a panic. */
  lemma FraudulentCreationPanics(h: Hasher, reg: Registry, accounts: seq<AccountInfo>, tx: Transaction,
          table: imap<bytes, bytes>, block: RollupBlock, j: nat)
    requires WellFormedLedger(accounts) && Usable(reg) && OneToOne(reg) && |accounts| <= ACCOUNT_LIMIT
    requires Accepted(reg, accounts, tx) && tx.TransferTransaction? && !SelfTransfer(tx) && Creates(reg, accounts, tx)
    requires StateRoot(h, Apply(reg, accounts, tx).accounts) != Zeros(32)
    requires block.blockNumber < UINT64_LIMIT && j < |block.transitions|
    requires Emitted(h, reg, true, accounts, tx) == Ok(block.transitions[j])
    ensures block.transitions[j].CreateAndTransferTransition?
    ensures Judge(h, reg, accounts, block.transitions[j]).verdict.Mismatched?
    ensures ValidateNext(h, reg, table, block, j, BlockOutcome(accounts, [], None)) ==
            BlockOutcome(Apply(reg, accounts, tx).accounts, [], Some(Panic))
  {
    hide Apply, Emitted, Reconstructed, StateRoot, WellFormedLedger, Usable, OneToOne, Creates, InputSnapshots,
      StorageSlots, Opens, CreatedAddress;
    EmittedCreates(h, reg, true, accounts, tx);
    EmittedTransfers(h, reg, true, accounts, tx);
    StepReplays(h, reg, true, accounts, tx);
    ReportedHasInputs(h, reg, accounts, block.transitions[j]);
    SlotsOfInputs(h, accounts, block.transitions[j]);
  }

  lemma EmittedTransfers(h: Hasher, reg: Registry, fraudTransfer: bool, accounts: seq<AccountInfo>, tx: Transaction)
    requires tx.TransferTransaction? && Emitted(h, reg, fraudTransfer, accounts, tx).Ok?
    ensures var t := Emitted(h, reg, fraudTransfer, accounts, tx).value;
            t.CreateAndTransferTransition? || t.TransferTransition?
  {
    hide Apply, StateRoot, EntryFor;
  }

  lemma ReportedHasInputs(h: Hasher, reg: Registry, accounts: seq<AccountInfo>, t: Transition)
    requires Reported(Judge(h, reg, accounts, t).verdict)
    ensures InputSnapshots(h, accounts, t).Ok?
  {
    hide InputSnapshots, Rebuilt, Apply, StateRoot;
  }

  function OneToken(token: EthAddress): Registry {
    Registry(map[token := 0], map[0 := token])
  }

  lemma DepositThenTransfer(a: EthAddress, b: EthAddress, token: EthAddress, deposit: nat, amount: nat)
    requires a != b && amount <= deposit < UINT_LIMIT
    ensures var reg, tx := OneToken(token), TransferTransaction(a, b, token, amount, 0, []);
            var accounts := Run(reg, [DepositTransaction(a, token, deposit, [])]);
            && Accepted(reg, [], DepositTransaction(a, token, deposit, []))
            && Creates(reg, [], DepositTransaction(a, token, deposit, []))
            && |accounts| == 1 && accounts == Apply(reg, [], DepositTransaction(a, token, deposit, [])).accounts
            && Accepted(reg, accounts, tx) && Creates(reg, accounts, tx)
  {
    hide Apply, FindSlot;
    var reg, tx := OneToken(token), DepositTransaction(a, token, deposit, []);
    assert [tx][..0] == [];
    DepositedRecord(a, token, deposit);
    DepositAccepted(reg, [], tx);
    NobodyListed(a);
    assert Run(reg, []) == [] && Run(reg, [tx]) == Apply(reg, [], tx).accounts;
    TransferFromDeposit(a, b, token, deposit, amount);
  }

  lemma OneListed(info: AccountInfo, b: bytes)
    ensures FindSlot([info], b) == if b == info.account then Some(0) else None
  {
    assert [info][..0] == [];
  }

  lemma TransferFromDeposit(a: EthAddress, b: EthAddress, token: EthAddress, deposit: nat, amount: nat)
    requires a != b && amount <= deposit
    ensures var tx, accounts := TransferTransaction(a, b, token, amount, 0, []), [AccountInfo(a, [deposit], [0], [0])];
            Accepted(OneToken(token), accounts, tx) && Creates(OneToken(token), accounts, tx)
  {
    hide Stored, Credit, FindSlot, ZeroAccount;
    var info := AccountInfo(a, [deposit], [0], [0]);
    OneListed(info, a);
    OneListed(info, b);
    FindAfterCreate([info], b, 1, a);
  }

  lemma DepositedRecord(a: EthAddress, token: EthAddress, deposit: nat)
    requires deposit < UINT_LIMIT
    ensures Apply(OneToken(token), [], DepositTransaction(a, token, deposit, [])).accounts ==
            [AccountInfo(a, [deposit], [0], [0])]
  {
    var info := AccountInfo(a, [deposit], [0], [0]);
    assert Stored(info) == info;
    var found := GetOrCreate([], a, 1);
    assert found.accounts == [ZeroAccount(a, 1)];
    assert Credit(ZeroAccount(a, 1), 0, deposit) == info;
  }

  lemma OneTokenFits(token: EthAddress)
    ensures Usable(OneToken(token)) && OneToOne(OneToken(token)) && WellFormedLedger([])
  {
  }

  /** The run: a deposit, then a transfer to an address without an account, in blocks of two. */
  function DepositAndTransfer(a: EthAddress, b: EthAddress, token: EthAddress, deposit: nat,
          amount: nat): seq<Submission> {
    [Submission(DepositTransaction(a, token, deposit, []), true),
     Submission(TransferTransaction(a, b, token, amount, 0, []), true)]
  }

  lemma TwoSubmissions(h: Hasher, reg: Registry, first: Submission, second: Submission)
    requires first.proposed && second.proposed
    requires Accepted(reg, [], first.tx)
    requires Accepted(reg, Apply(reg, [], first.tx).accounts, second.tx)
    ensures var middle := Apply(reg, [], first.tx).accounts;
            var t1, t2 := Emitted(h, reg, true, [], first.tx), Emitted(h, reg, true, middle, second.tx);
            && t1.Ok? && t2.Ok?
            && AggregatorRun(h, reg, true, 2, [first, second]) ==
               AggregatorState(Apply(reg, middle, second.tx).accounts,
                               Sealed([RollupBlock(0, [t1.value, t2.value])], RollupBlock(1, [])), false)
  {
    hide Emitted, Apply;
    var subs, middle := [first, second], Apply(reg, [], first.tx).accounts;
    assert subs[..1] == [first] && [first][..0] == [];
    AcceptedIsEmitted(h, reg, true, [], first.tx);
    AcceptedIsEmitted(h, reg, true, middle, second.tx);
    var t1, t2 := Emitted(h, reg, true, [], first.tx).value, Emitted(h, reg, true, middle, second.tx).value;
    assert AggregatorRun(h, reg, true, 2, [first]) ==
           AggregatorState(middle, Sealed([], RollupBlock(0, [] + [t1])), false);
    assert [] + [t1] + [t2] == [t1, t2];
    assert [] + [RollupBlock(0, [t1, t2])] == [RollupBlock(0, [t1, t2])];
  }

  /**
   End to end: the first block of an aggregator that blanks the roots of transfers ends the process of every validator
   that replays it from the start.
   */
  lemma FraudTransferCrashes(h: Hasher, a: EthAddress, b: EthAddress, token: EthAddress, deposit: nat, amount: nat,
          stored: imap<bytes, bytes>)
    requires a != b && amount <= deposit < UINT_LIMIT
    requires var end := AggregatorRun(h, OneToken(token), true, 2, DepositAndTransfer(a, b, token, deposit, amount));
             StateRoot(h, end.accounts) != Zeros(32)
    ensures var end := AggregatorRun(h, OneToken(token), true, 2, DepositAndTransfer(a, b, token, deposit, amount));
            && |end.sealed.blocks| == 1 && !end.crashed && NumbersFit(end.sealed.blocks)
            && var v := ValidateBlocks(h, OneToken(token), stored, end.sealed.blocks);
               v.submitted == [] && v.crashed
  {
    hide Apply, Emitted, StateRoot, Creates, Judge, ValidateUpTo, ValidateNext, WellFormedLedger, Usable, OneToOne,
      AggregatorRun, StoredWith, Unpublished;
    var reg, subs := OneToken(token), DepositAndTransfer(a, b, token, deposit, amount);
    var first, second := subs[0].tx, subs[1].tx;
    OneTokenFits(token);
    DepositThenTransfer(a, b, token, deposit, amount);
    TwoSubmissions(h, reg, subs[0], subs[1]);
    var middle := Apply(reg, [], first).accounts;
    var block := AggregatorRun(h, reg, true, 2, subs).sealed.blocks[0];
    ApplyKeepsWellFormed(reg, [], first);
    PublishedDeposit(reg, [], first);
    StepReplays(h, reg, true, [], first);
    SecondOfTwo(h, reg, StoredWith(stored, block), block);
    FraudulentCreationPanics(h, reg, middle, second, StoredWith(stored, block), block, 1);
    OneBlock(h, reg, stored, block);
  }

  lemma PublishedDeposit(reg: Registry, accounts: seq<AccountInfo>, tx: Transaction)
    requires Accepted(reg, accounts, tx) && tx.DepositTransaction?
    ensures !Unpublished(reg, accounts, tx)
  {
    hide Apply, Creates;
  }

  // ---------------------------------------------------------------- a report without a predecessor

  /**
   A wrong root in the very first transition: it is found, and no proof can be submitted, because nothing is
   stored under the key the predecessor is looked up with.
   */
  lemma FirstRootUnproved(h: Hasher, a: EthAddress, token: EthAddress, deposit: nat, root: bytes,
          stored: imap<bytes, bytes>)
    requires root != StateRoot(h, Apply(OneToken(token), [], DepositTransaction(a, token, deposit, [])).accounts)
    requires BlockKey(1) !in stored
    requires CollisionFree(h, BlockStrings(h, RollupBlock(0, [
               CreateAndDepositTransition(CREATE_AND_DEPOSIT, root, 0, a, 0, deposit, [])])))
    ensures var t := CreateAndDepositTransition(CREATE_AND_DEPOSIT, root, 0, a, 0, deposit, []);
            var block := RollupBlock(0, [t]);
            && Judge(h, OneToken(token), [], t).verdict.Mismatched?
            && ValidateUpTo(h, OneToken(token), StoredWith(stored, block), [], block, 1).stopped ==
               Some(NonExistentBlock)
            && var v := ValidateBlocks(h, OneToken(token), stored, [block]);
               v.submitted == [] && !v.crashed
  {
    hide StateRoot, ValidateUpTo, StoredWith, BlockKey, BlockStrings, CollisionFree, ReportEnds, StoredAfter, LookedUp,
      Apply, ValidateNext;
    var t := CreateAndDepositTransition(CREATE_AND_DEPOSIT, root, 0, a, 0, deposit, []);
    var reg, block := OneToken(token), RollupBlock(0, [t]);
    var blocks, table := [block], StoredWith(stored, block);
    assert blocks[..0] == [];
    AddressIsItself(a);
    assert Reconstructed(h, reg, [], t) == Ok(DepositTransaction(a, token, deposit, []));
    DepositAccepted(reg, [], DepositTransaction(a, token, deposit, []));
    NothingStoredYet(stored);
    ProofEnds(h, reg, table, block, 0, []);
    UpToFirst(h, reg, table, block);
    FirstOfBlockZero(h, stored, blocks, [], ValidateUpTo(h, reg, table, [], block, 1));
    OneBlock(h, reg, stored, block);
  }

  lemma NothingStoredYet(stored: imap<bytes, bytes>)
    ensures StoredAfter(stored, []) == stored
  {
  }

  lemma UpToFirst(h: Hasher, reg: Registry, table: imap<bytes, bytes>, block: RollupBlock)
    requires block.blockNumber < UINT64_LIMIT && |block.transitions| > 0
    ensures ValidateUpTo(h, reg, table, [], block, 1) ==
            ValidateNext(h, reg, table, block, 0, BlockOutcome([], [], None))
  {
    hide ValidateNext;
    assert ValidateUpTo(h, reg, table, [], block, 0) == BlockOutcome([], [], None);
  }

  lemma DepositAccepted(reg: Registry, accounts: seq<AccountInfo>, tx: Transaction)
    requires tx.DepositTransaction? && tx.token in reg.toIndex && tx.amount >= 0
    ensures Accepted(reg, accounts, tx)
  {
    hide Stored, Credit, GetOrCreate;
  }

  // ---------------------------------------------------------------- a transition that crashes its validator

  /**
   After a deposit of the first of two tokens, a posted transfer of the second from that slot, whatever else it says.
   */
  lemma SecondTokenCrashes(h: Hasher, a: EthAddress, first: EthAddress, second: EthAddress, deposit: nat, root: bytes,
          amount: nat, nonce: int, signature: bytes)
    requires first != second
    ensures var reg := Registry(map[first := 0, second := 1], map[0 := first, 1 := second]);
            var accounts := Run(reg, [DepositTransaction(a, first, deposit, [])]);
            Judge(h, reg, accounts, TransferTransition(TRANSFER, root, 0, 0, 1, amount, nonce,
              signature)).verdict.Crashed?
  {
    hide Stored, WellFormedLedger, Judge, Run;
    var reg := Registry(map[first := 0, second := 1], map[0 := first, 1 := second]);
    var txs := [DepositTransaction(a, first, deposit, [])];
    var t := TransferTransition(TRANSFER, root, 0, 0, 1, amount, nonce, signature);
    RunKeepsWellFormed(reg, txs);
    OneDeposit(reg, a, first, deposit);
    CrashedIff(h, reg, Run(reg, txs), t);
  }
}
