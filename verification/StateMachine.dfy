/** The account state machine over the store and the state trie (statemachine/state_machine.go). */
module StateMachines {
  import opened ByteStrings
  import opened Errors
  import opened Namespaces
  import opened MemoryDb
  import opened MerkleTree
  import opened TrieStore
  import opened Proofs
  import opened SparseMerkleTrees
  import opened Accounts
  import opened Ledger
  import opened StateSpec
  import opened StateSteps

  class StateMachine {
    const hasher: Hasher
    const db: DB
    const smt: SparseMerkleTree
    ghost const registry: Registry
    /** The account list the store stands for: account i is kept under slot key i. */
    ghost var accounts: seq<AccountInfo>

    ghost function State(): TreeState
      reads db, smt
    {
      TreeState(db.store, smt.root, smt.recorded)
    }

    ghost predicate Sound()
      reads this, db, smt
    {
      StateSteps.Sound(hasher, State(), accounts)
    }

    ghost predicate Valid()
      reads this, db, smt
    {
      && smt.db == db && smt.hasher == hasher && smt.Config() == STATE_CONFIG && smt.Valid()
      && StateValid(hasher, registry, State(), accounts)
    }

    twostate predicate Grows()
      reads this, db, smt
    {
      StateGrows(old(State()), old(accounts), State(), accounts)
    }

    /**
     Always starts from the root of the empty tree: restoring an old state is not implemented. Over a store without
     state the machine stands for the empty account list; over one that carries the init marker nothing is written.
     */
    constructor (db: DB, hasher: Hasher, ghost reg: Registry, ghost rec: set<bytes>)
      requires Backed(hasher, Some(STATE_TRIE), db.store, rec)
      modifies db
      ensures this.db == db && this.hasher == hasher && registry == reg && accounts == [] && fresh(smt)
      ensures smt.db == db && smt.hasher == hasher && smt.Config() == STATE_CONFIG && smt.Valid()
      ensures smt.root == DefaultNode(hasher, HASH_BITS - STATE_CONFIG.height) && rec <= smt.recorded
      ensures Key(STATE_TRIE, INIT_MARKER) !in old(db.store) ==>
                State() == InitialState(hasher, STATE_CONFIG, old(db.store), rec)
      ensures Key(STATE_TRIE, INIT_MARKER) in old(db.store) ==> db.store == old(db.store) && smt.recorded == rec
      ensures old(NoState(db.store) && RegistryAgrees(db.store, reg)) && Usable(reg) && rec == {} ==>
                Valid() && OthersKept(old(db.store), db.store)
    {
      hide Table, Agrees, Backed, WriteAll, DefaultWrites, DefaultNode, OthersKept, RegistryAgrees, Usable, NoState;
      this.db, this.hasher, registry, accounts := db, hasher, reg, [];
      smt := new SparseMerkleTree(db, Some(STATE_TRIE), hasher, None, 160, false, rec);
      NewStateValid(hasher, reg, old(db.store));
    }

    method GetTokenIndex(token: EthAddress) returns (r: Result<nat>)
      requires Valid()
      ensures r == if token in registry.toIndex then Ok(registry.toIndex[token]) else Err(TokenNotMapped)
      ensures r.Ok? ==> r.value < MAX_LENGTH - 1
    {
      hide Agrees, Backed, CollisionFree, FromBytes, RegistryAgrees, PrependNamespace;
      TokenIndexIsRegistered(db.store, registry, token);
      var tokenIndexBytes, exists_ := db.Get(Some(TOKEN_ADDRESS_TO_INDEX), token);
      if !exists_ {
        return Err(TokenNotMapped);
      }
      r := Ok(FromBytes(tokenIndexBytes) % 0x1_0000_0000_0000_0000);
    }

    method GetAccountInfo(address: EthAddress) returns (r: Result<AccountInfo>)
      requires Valid()
      ensures r == AccountRead(db.store, address)
      ensures Sound() ==> r == AccountAt(accounts, address)
    {
      hide Agrees, Backed, CollisionFree, RegistryAgrees, PrependNamespace, DeserializeAccount, AccountAt;
      if Sound() {
        AccountReadIsListed(hasher, State(), accounts, address);
      }
      var key, exists_ := db.Get(Some(ACCOUNT_ADDRESS_TO_KEY), address);
      if !exists_ {
        return Err(AccountNotFound);
      }
      var data, found := db.Get(Some(KEY_TO_ACCOUNT_INFO), key);
      if !found {
        return Err(CorruptDb);
      }
      r := DeserializeAccount(data);
    }

    method CreateAccount(address: EthAddress, numTokens: nat) returns (r: Result<AccountInfo>)
      requires Valid() && numTokens < MAX_LENGTH
      requires Sound() ==> FindSlot(accounts, address).None?
      modifies this, db, smt
      ensures Valid() && Grows()
      ensures accounts == old(accounts) + [ZeroAccount(address, numTokens)]
      ensures State() == Created(hasher, old(State()), ZeroAccount(address, numTokens))
      ensures Sound() ==> r == Ok(ZeroAccount(address, numTokens))
    {
      hide StateValid, StateSteps.Sound, StateGrows, Backed, PrependNamespace, FindSlot, ZeroInts, SerializeAccount,
        UpdateResult, Updated, ApplyOps, WithAccountRecords, FromBytes, ToBytes, Regular, Usable;
      var balances := ZeroSlice(numTokens);
      var transferNonces := ZeroSlice(numTokens);
      var withdrawNonces := ZeroSlice(numTokens);
      var accountInfo := AccountInfo(address, balances, transferNonces, withdrawNonces);
      var lastKeyBytes, exists_ := db.Get(Some(LAST_KEY), EMPTY_KEY);
      var lastKey: int := if exists_ then FromBytes(lastKeyBytes) else -1;
      var newKey: nat := lastKey + 1;
      assert newKey == NextKey(db.store);
      var newKeyBytes := ToBytes(newKey);
      var data := SerializeAccount(accountInfo);
      ZeroRegular(address, numTokens);
      CreateStep(hasher, registry, State(), accounts, accountInfo);
      var tx := new MemoryDb.Transaction(db);
      tx.Set(Some(LAST_KEY), EMPTY_KEY, newKeyBytes);
      tx.Set(Some(ACCOUNT_ADDRESS_TO_KEY), address, newKeyBytes);
      tx.Set(Some(KEY_TO_ACCOUNT_INFO), newKeyBytes, data);
      RecordsCommitted(db.store, tx.ops, address, newKeyBytes, data);
      var committed := tx.Commit();
      StillBacked(hasher, old(State()), accountInfo);
      assert State() == Recorded(old(State()), accountInfo);
      var updated := smt.Update(newKeyBytes, data);
      accounts := accounts + [accountInfo];
      if updated.Err? {
        return Err(updated.error);
      }
      r := Ok(accountInfo);
    }

    method SetAccountInfo(address: EthAddress, info: AccountInfo) returns (r: Result<()>)
      requires Valid() && info.account == address
      requires Sound() ==> Regular(Stored(info))
      modifies this, db, smt
      ensures Valid() && Grows()
      ensures accounts == WithAccount(old(accounts), info)
      ensures State() == Replaced(hasher, old(State()), info)
      ensures r == ReplaceResult(hasher, old(State()), info)
      ensures Sound() ==> r == if FindSlot(old(accounts), address).Some? then Ok(()) else Err(AccountNotFound)
    {
      hide StateValid, StateSteps.Sound, StateGrows, Backed, PrependNamespace, FindSlot, SerializeAccount,
        UpdateResult, Updated, WithAccount, Regular, Stored;
      ReplaceStep(hasher, registry, State(), accounts, info);
      var data := SerializeAccount(info);
      var key, exists_ := db.Get(Some(ACCOUNT_ADDRESS_TO_KEY), address);
      accounts := WithAccount(accounts, info);
      if !exists_ {
        return Err(AccountNotFound);
      }
      RecordKeepsTrie(hasher, db.store, smt.recorded, KEY_TO_ACCOUNT_INFO, key, data);
      db.Set(Some(KEY_TO_ACCOUNT_INFO), key, data);
      assert State() == RecordSet(old(State()), key, data);
      var updated := smt.Update(key, data);
      if updated.Err? {
        return Err(updated.error);
      }
      r := Ok(());
    }

    method GetOrCreateAccount(address: EthAddress, tokenIndex: nat) returns (r: Result<AccountInfo>, isNew: bool)
      requires Valid() && tokenIndex < MAX_LENGTH - 1
      modifies this, db, smt
      ensures Valid() && Grows()
      ensures Sound() ==> var found := GetOrCreate(old(accounts), address, tokenIndex + 1);
                          accounts == found.accounts && r == Ok(found.accounts[found.slot]) && isNew == found.isNew
    {
      hide StateValid, StateSteps.Sound, StateGrows, Backed, FindSlot, ZeroAccount, Created, AccountRead;
      StateGrowsSame(State(), accounts);
      r := GetAccountInfo(address);
      isNew := false;
      if r.Err? && r.error == AccountNotFound {
        ghost var st, before := State(), accounts;
        var created := CreateAccount(address, tokenIndex + 1);
        SoundBefore(hasher, st, before, State(), accounts);
        if created.Err? {
          return Err(AccountNotFound), false;
        }
        r := created;
        isNew := true;
      }
    }

    method ApplyDeposit(tx: Ledger.Transaction) returns (r: Result<seq<AccountInfoUpdate>>)
      requires Valid() && tx.DepositTransaction?
      modifies this, db, smt
      ensures Valid() && Grows()
      ensures r.Ok? ==> |r.value| == 1
      ensures Sound() ==> Outcome(accounts, r) == Apply(registry, old(accounts), tx)
    {
      hide StateValid, StateSteps.Sound, StateGrows, Backed, FindSlot, Replaced, ReplaceResult, Regular, Stored,
        WithAccount, GetOrCreate, Credit, Expand;
      StateGrowsSame(State(), accounts);
      var tokenIndex :- GetTokenIndex(tx.token);
      var account := tx.account;
      var accountInfo, newAccount := GetOrCreateAccount(account, tokenIndex);
      if accountInfo.Err? {
        return Err(accountInfo.error);
      }
      var amount := tx.amount;
      if amount < 0 {
        return Err(InvalidAmount);
      }
      var balances, transferNonces, withdrawNonces := MaybeExpandAccountInfo(tokenIndex, accountInfo.value);
      var oldBalance := balances[tokenIndex];
      var newBalance := oldBalance + amount;
      balances := balances[tokenIndex := newBalance];
      var updatedAccount := AccountInfo(account, balances, transferNonces, withdrawNonces);
      ghost var st, before := State(), accounts;
      SoundBefore(hasher, old(State()), old(accounts), st, before);
      if Sound() {
        SoundIsWellFormed(hasher, registry, old(State()), old(accounts));
        DepositIsSet(old(accounts), tokenIndex, account, amount);
        CreditedFields(accountInfo.value, tokenIndex, amount);
      }
      var written := SetAccountInfo(account, updatedAccount);
      SoundBefore(hasher, st, before, State(), accounts);
      StateGrowsTwice(old(State()), old(accounts), st, before, State(), accounts);
      if written.Err? {
        return Err(written.error);
      }
      r := Ok([AccountInfoUpdate(updatedAccount, newAccount)]);
    }

    method ApplyWithdraw(tx: Ledger.Transaction) returns (r: Result<seq<AccountInfoUpdate>>)
      requires Valid() && tx.WithdrawTransaction?
      modifies this, db, smt
      ensures Valid() && Grows()
      ensures r.Ok? ==> |r.value| == 1
      ensures Sound() ==> Outcome(accounts, r) == Apply(registry, old(accounts), tx)
    {
      hide StateValid, StateSteps.Sound, StateGrows, Backed, FindSlot, Replaced, ReplaceResult, Regular, Stored,
        WithAccount, AccountRead;
      StateGrowsSame(State(), accounts);
      var tokenIndex :- GetTokenIndex(tx.token);
      var account := tx.account;
      var accountInfo :- GetAccountInfo(account);
      var amount := tx.amount;
      if amount < 0 {
        return Err(InvalidAmount);
      }
      if tokenIndex > |accountInfo.balances| - 1 {
        return Err(InsufficientBalance);
      }
      var oldBalance := accountInfo.balances[tokenIndex];
      if oldBalance < amount {
        return Err(InsufficientBalance);
      }
      var withdrawNonces := accountInfo.withdrawNonces;
      if tokenIndex >= |withdrawNonces| {
        return Err(Panic);
      }
      var oldWithdrawNonce := withdrawNonces[tokenIndex];
      if oldWithdrawNonce != tx.nonce {
        return Err(InvalidNonce);
      }
      withdrawNonces := withdrawNonces[tokenIndex := oldWithdrawNonce + 1];
      var balances := accountInfo.balances[tokenIndex := oldBalance - amount];
      var updatedAccount := AccountInfo(account, balances, accountInfo.transferNonces, withdrawNonces);
      ghost var st, before := State(), accounts;
      if Sound() {
        SoundIsWellFormed(hasher, registry, st, before);
        WithdrawIsSet(before, tokenIndex, account, amount, tx.nonce);
      }
      var written := SetAccountInfo(account, updatedAccount);
      SoundBefore(hasher, st, before, State(), accounts);
      if written.Err? {
        return Err(written.error);
      }
      r := Ok([AccountInfoUpdate(updatedAccount, false)]);
    }

    method ApplyTransfer(tx: Ledger.Transaction) returns (r: Result<seq<AccountInfoUpdate>>)
      requires Valid() && tx.TransferTransaction?
      modifies this, db, smt
      ensures Valid() && Grows()
      ensures r.Ok? ==> |r.value| == 2
      ensures Sound() ==> Outcome(accounts, r) == Apply(registry, old(accounts), tx)
    {
      hide StateValid, StateSteps.Sound, StateGrows, Backed, FindSlot, Replaced, ReplaceResult, Regular, Stored,
        WithAccount, GetOrCreate, Credit, Expand, AccountRead;
      StateGrowsSame(State(), accounts);
      var tokenIndex :- GetTokenIndex(tx.token);
      var recipient := tx.recipient;
      var recipientAccountInfo, newRecipient := GetOrCreateAccount(recipient, tokenIndex);
      if recipientAccountInfo.Err? {
        return Err(recipientAccountInfo.error);
      }
      ghost var st, base := State(), accounts;
      SoundBefore(hasher, old(State()), old(accounts), st, base);
      var sender := tx.sender;
      var senderAccountInfo :- GetAccountInfo(sender);
      var amount := tx.amount;
      if amount < 0 {
        return Err(InvalidAmount);
      }
      var senderBalances, senderTransferNonces := senderAccountInfo.balances, senderAccountInfo.transferNonces;
      if tokenIndex > |senderBalances| {
        return Err(SenderNoSuchToken);
      }
      if tokenIndex >= |senderTransferNonces| {
        return Err(Panic);
      }
      var oldTransferNonce := senderTransferNonces[tokenIndex];
      if oldTransferNonce != tx.nonce {
        return Err(InvalidNonce);
      }
      if tokenIndex >= |senderBalances| {
        return Err(Panic);
      }
      var oldSenderBalance := senderBalances[tokenIndex];
      if oldSenderBalance < amount {
        return Err(InsufficientBalance);
      }
      var recipientBalances, recipientTransferNonces, recipientWithdrawNonces :=
        MaybeExpandAccountInfo(tokenIndex, recipientAccountInfo.value);
      var newRecipientBalance := recipientBalances[tokenIndex] + amount;
      senderBalances := senderBalances[tokenIndex := oldSenderBalance - amount];
      senderTransferNonces := senderTransferNonces[tokenIndex := oldTransferNonce + 1];
      recipientBalances := recipientBalances[tokenIndex := newRecipientBalance];
      var updatedSender := AccountInfo(sender, senderBalances, senderTransferNonces, senderAccountInfo.withdrawNonces);
      var updatedRecipient := AccountInfo(recipient, recipientBalances, recipientTransferNonces,
        recipientWithdrawNonces);
      if Sound() {
        SoundIsWellFormed(hasher, registry, old(State()), old(accounts));
        CreditedFields(recipientAccountInfo.value, tokenIndex, amount);
        TransferIsSets(old(accounts), tokenIndex, sender, recipient, amount, tx.nonce);
      }
      var written := SetAccountInfo(sender, updatedSender);
      ghost var st1, middle := State(), accounts;
      SoundBefore(hasher, st, base, st1, middle);
      StateGrowsTwice(old(State()), old(accounts), st, base, st1, middle);
      if written.Err? {
        return Err(written.error);
      }
      written := SetAccountInfo(recipient, updatedRecipient);
      SoundBefore(hasher, st1, middle, State(), accounts);
      StateGrowsTwice(old(State()), old(accounts), st1, middle, State(), accounts);
      if written.Err? {
        return Err(written.error);
      }
      r := Ok([AccountInfoUpdate(updatedSender, false), AccountInfoUpdate(updatedRecipient, newRecipient)]);
    }

    /**
     Entries are read back and proved after every write of the transaction; a proof that cannot be read yields
     neither an update nor an error.
     */
    method ApplyTransaction(tx: Ledger.Transaction) returns (r: Result<Option<StateUpdate>>)
      requires Valid()
      modifies this, db, smt
      ensures Valid() && Grows()
      ensures r.Ok? && r.value.Some? ==> |r.value.value.entries| == if tx.TransferTransaction? then 2 else 1
      ensures Sound() ==> accounts == Apply(registry, old(accounts), tx).accounts
      ensures Sound() ==> var update := UpdateFor(hasher, registry, old(accounts), tx);
                          r == if update.Ok? then Ok(Some(update.value)) else Err(update.error)
    {
      hide StateValid, StateSteps.Sound, StateGrows, Backed, FindSlot, Apply, EntryFor, EntriesFor, ProofOf,
        PrependNamespace, StateRoot, FromBytes;
      var updates: Result<seq<AccountInfoUpdate>>;
      match tx {
        case DepositTransaction(_, _, _, _) => updates := ApplyDeposit(tx);
        case WithdrawTransaction(_, _, _, _, _) => updates := ApplyWithdraw(tx);
        case TransferTransaction(_, _, _, _, _, _) => updates := ApplyTransfer(tx);
      }
      if updates.Err? {
        return Err(updates.error);
      }
      SoundBefore(hasher, old(State()), old(accounts), State(), accounts);
      if Sound() {
        SoundIsWellFormed(hasher, registry, old(State()), old(accounts));
      }
      var entries: seq<StateUpdateEntry> := [];
      var i := 0;
      while i < |updates.value|
        invariant 0 <= i <= |updates.value| && |entries| == i
        invariant Sound() ==> entries == EntriesFor(hasher, accounts, updates.value[..i])
        modifies {}
      {
        var info := updates.value[i].info;
        var key, exists_ := db.Get(Some(ACCOUNT_ADDRESS_TO_KEY), info.account);
        var proof := smt.Prove(key);
        if Sound() {
          EntryRead(hasher, registry, State(), old(accounts), tx, i);
          EntriesAppend(hasher, accounts, updates.value, i);
        }
        if !exists_ {
          return Err(AccountNotFound);
        }
        if proof.Err? {
          return Ok(None);
        }
        var inclusionProof := ConvertToInclusionProof(proof.value);
        entries := entries + [StateUpdateEntry(FromBytes(key), inclusionProof, info, updates.value[i].newAccount)];
        i := i + 1;
      }
      assert updates.value[..i] == updates.value;
      if Sound() {
        RootWhenSound(hasher, registry, State(), accounts);
      }
      var stateRoot := Fit(smt.root);
      r := Ok(Some(StateUpdate(tx, stateRoot, entries)));
    }

    method GetStateSnapshot(key: bytes) returns (r: Result<StateSnapshot>)
      requires Valid()
      ensures r == SnapshotRead(hasher, State(), key)
      ensures Sound() && key == ToBytes(FromBytes(key)) ==> r == Snapshot(hasher, accounts, FromBytes(key))
    {
      hide StateSteps.Sound, Backed, Agrees, RegistryAgrees, Usable, FromBytes, ToBytes, ReadKey, ProofOf,
        DeserializeAccount, Snapshot;
      if Sound() && key == ToBytes(FromBytes(key)) {
        SnapshotWhenSound(hasher, registry, State(), accounts, FromBytes(key));
      }
      var infoData :- smt.Get(key);
      var proof :- smt.Prove(key);
      var info :- DeserializeAccount(infoData);
      var inclusionProof := ConvertToInclusionProof(proof);
      r := Ok(StateSnapshot(FromBytes(key), info, smt.root, inclusionProof));
    }

    method GetStateRoot() returns (root: bytes)
      requires Valid()
      ensures root == smt.root
      ensures Sound() ==> root == StateRoot(hasher, accounts)
    {
      hide StateValid, StateSteps.Sound, StateRoot;
      if Sound() {
        RootWhenSound(hasher, registry, State(), accounts);
      }
      root := smt.root;
    }
  }

  /** Appends zeros until the arrays reach the token's index. */
  method MaybeExpandAccountInfo(tokenIndex: nat, accountInfo: AccountInfo)
    returns (balances: seq<int>, transferNonces: seq<int>, withdrawNonces: seq<int>)
    ensures AccountInfo(accountInfo.account, balances, transferNonces, withdrawNonces) ==
            Expand(accountInfo, tokenIndex)
    ensures Widened(accountInfo, AccountInfo(accountInfo.account, balances, transferNonces, withdrawNonces), tokenIndex)
  {
    ExpandWidens(accountInfo, tokenIndex);
    balances, transferNonces, withdrawNonces := accountInfo.balances, accountInfo.transferNonces,
      accountInfo.withdrawNonces;
    var oldLength := |accountInfo.balances|;
    if tokenIndex > oldLength - 1 {
      var i := oldLength - 1;
      ghost var added := 0;
      while i < tokenIndex
        invariant oldLength - 1 <= i <= tokenIndex && added == i - (oldLength - 1)
        invariant balances == accountInfo.balances + ZeroInts(added)
        invariant transferNonces == accountInfo.transferNonces + ZeroInts(added)
        invariant withdrawNonces == accountInfo.withdrawNonces + ZeroInts(added)
      {
        assert ZeroInts(added) + [0] == ZeroInts(added + 1);
        balances := balances + [0];
        transferNonces := transferNonces + [0];
        withdrawNonces := withdrawNonces + [0];
        i := i + 1;
        added := added + 1;
      }
    }
  }

  method ZeroSlice(n: nat) returns (z: seq<int>)
    ensures z == ZeroInts(n)
  {
    z := [];
    var i := 0;
    while i < n
      invariant 0 <= i <= n && |z| == i && forall j :: 0 <= j < i ==> z[j] == 0
    {
      z := z + [0];
      i := i + 1;
    }
  }

  /** Over a store without state the new tree agrees with the empty account list. */
  lemma NewStateValid(h: Hasher, reg: Registry, store: Store)
    ensures NoState(store) ==> Key(STATE_TRIE, INIT_MARKER) !in store
    ensures NoState(store) && RegistryAgrees(store, reg) && Usable(reg) ==>
              var st := InitialState(h, STATE_CONFIG, store, {});
              StateValid(h, reg, st, []) && OthersKept(store, st.store)
  {
    hide Table, Agrees, Backed, OthersKept, RegistryAgrees, Usable, InitialState;
    if NoState(store) && RegistryAgrees(store, reg) && Usable(reg) {
      NothingBackedYet(h, store);
      InitialAgrees(h, store);
      InitialBacked(h, STATE_CONFIG, store, {});
      RegistryKept(store, InitialState(h, STATE_CONFIG, store, {}).store, reg);
    }
  }

  lemma RecordsCommitted(store: Store, ops: seq<TxOp>, address: bytes, slotKey: bytes, data: bytes)
    requires ops == [SetOp(Key(LAST_KEY, EMPTY_KEY), slotKey), SetOp(Key(ACCOUNT_ADDRESS_TO_KEY, address), slotKey),
                     SetOp(Key(KEY_TO_ACCOUNT_INFO, slotKey), data)]
    ensures ApplyOps(store, ops) == WithAccountRecords(store, address, slotKey, data)
  {
    hide Key;
    assert ops[..2] == [ops[0], ops[1]] && ops[..2][..1] == [ops[0]] && [ops[0]][..0] == [];
    assert ApplyOps(store, [ops[0]]) == store[Key(LAST_KEY, EMPTY_KEY) := slotKey];
    assert ApplyOps(store, ops[..2]) == ApplyOps(store, [ops[0]])[Key(ACCOUNT_ADDRESS_TO_KEY, address) := slotKey];
  }

  lemma StillBacked(h: Hasher, st: TreeState, a: AccountInfo)
    requires Backed(h, Some(STATE_TRIE), st.store, st.recorded)
    ensures Backed(h, Some(STATE_TRIE), Recorded(st, a).store, st.recorded)
  {
    hide Backed, WithAccountRecords, ToBytes, NextKey, Table, OthersKept, SerializeAccount;
    AccountRecordTables(h, st.store, st.recorded, a.account, ToBytes(NextKey(st.store)), SerializeAccount(a));
  }
}
