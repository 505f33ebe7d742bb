/** Single steps of the state machine on its store, as functions, and the invariant every step keeps. */
module StateSteps {
  import opened ByteStrings
  import opened Errors
  import opened Namespaces
  import opened MerkleTree
  import opened TrieStore
  import opened Proofs
  import opened TreeRuns
  import opened Abi
  import opened Accounts
  import opened Ledger
  import opened StateSpec

  /** No two strings ever hashed into the trie collide, and every account has a leaf of its own. */
  ghost predicate Sound(h: Hasher, st: TreeState, accounts: seq<AccountInfo>) {
    CollisionFree(h, st.recorded) && |accounts| <= ACCOUNT_LIMIT
  }

  ghost predicate StateValid(h: Hasher, reg: Registry, st: TreeState, accounts: seq<AccountInfo>) {
    && Backed(h, Some(STATE_TRIE), st.store, st.recorded)
    && RegistryAgrees(st.store, reg) && Usable(reg)
    && (Sound(h, st, accounts) ==> Agrees(h, st, accounts))
  }

  /** What no step undoes: recorded strings, created accounts, and the tables of others. */
  ghost predicate StateGrows(st: TreeState, accounts: seq<AccountInfo>, st': TreeState, accounts': seq<AccountInfo>) {
    st.recorded <= st'.recorded && |accounts| <= |accounts'| && OthersKept(st.store, st'.store)
  }

  lemma SoundBefore(h: Hasher, st: TreeState, accounts: seq<AccountInfo>, st': TreeState, accounts': seq<AccountInfo>)
    requires StateGrows(st, accounts, st', accounts')
    ensures Sound(h, st', accounts') ==> Sound(h, st, accounts)
  {
    hide OthersKept;
    if Sound(h, st', accounts') {
      CollisionFreeSubset(h, st.recorded, st'.recorded);
    }
  }

  lemma StateGrowsSame(st: TreeState, accounts: seq<AccountInfo>)
    ensures StateGrows(st, accounts, st, accounts)
  {
    OthersKeptSame(st.store);
  }

  lemma StateGrowsTwice(st1: TreeState, a1: seq<AccountInfo>, st2: TreeState, a2: seq<AccountInfo>,
                        st3: TreeState, a3: seq<AccountInfo>)
    requires StateGrows(st1, a1, st2, a2) && StateGrows(st2, a2, st3, a3)
    ensures StateGrows(st1, a1, st3, a3)
  {
    hide Table;
  }

  lemma OthersKeptTwice(a: Store, b: Store, c: Store)
    requires OthersKept(a, b) && OthersKept(b, c)
    ensures OthersKept(a, c)
  {
    hide Table;
  }

  lemma RegistryKept(store: Store, store': Store, reg: Registry)
    requires OthersKept(store, store') && RegistryAgrees(store, reg)
    ensures RegistryAgrees(store', reg)
  {
    hide Table, ToBytes;
  }

  // ---------------------------------------------------------------- reading

  /** getTokenIndex: the low 64 bits of the stored index. */
  function TokenIndexRead(store: Store, token: EthAddress): Result<nat> {
    var k := Key(TOKEN_ADDRESS_TO_INDEX, token);
    if k !in store then Err(TokenNotMapped) else Ok(FromBytes(store[k]) % 0x1_0000_0000_0000_0000)
  }

  lemma TokenIndexIsRegistered(store: Store, reg: Registry, token: EthAddress)
    requires RegistryAgrees(store, reg) && Usable(reg)
    ensures TokenIndexRead(store, token) == if token in reg.toIndex then Ok(reg.toIndex[token]) else Err(TokenNotMapped)
  {
    hide Table, Key, FromBytes, ToBytes;
    TableRead(store, TOKEN_ADDRESS_TO_INDEX, token);
    if token in reg.toIndex {
      FromToBytes(reg.toIndex[token]);
    }
  }

  /** getAccountInfo: from address to slot key to record. */
  function AccountRead(store: Store, address: EthAddress): Result<AccountInfo> {
    var k := Key(ACCOUNT_ADDRESS_TO_KEY, address);
    if k !in store then Err(AccountNotFound)
    else if Key(KEY_TO_ACCOUNT_INFO, store[k]) !in store then Err(CorruptDb)
    else DeserializeAccount(store[Key(KEY_TO_ACCOUNT_INFO, store[k])])
  }

  lemma AccountReadIsListed(h: Hasher, st: TreeState, accounts: seq<AccountInfo>, address: EthAddress)
    requires Agrees(h, st, accounts)
    ensures AccountRead(st.store, address) == AccountAt(accounts, address)
  {
    hide Tracks, WellFormedLedger, FindSlot, SerializeAccount, DeserializeAccount, Table, Key, ToBytes;
    KeyOfAddress(h, st, accounts, address);
    if FindSlot(accounts, address).Some? {
      var slot := FindSlot(accounts, address).value;
      TableRead(st.store, KEY_TO_ACCOUNT_INFO, ToBytes(slot));
      RegularReadsBack(accounts, slot);
    }
  }

  lemma KeyOfAddress(h: Hasher, st: TreeState, accounts: seq<AccountInfo>, address: bytes)
    requires Agrees(h, st, accounts)
    ensures Key(ACCOUNT_ADDRESS_TO_KEY, address) in st.store <==> FindSlot(accounts, address).Some?
    ensures FindSlot(accounts, address).Some? ==>
              st.store[Key(ACCOUNT_ADDRESS_TO_KEY, address)] == ToBytes(FindSlot(accounts, address).value)
  {
    hide Key, ToBytes, Tracks, WellFormedLedger, FindSlot, SerializeAccount, Table;
    TableRead(st.store, ACCOUNT_ADDRESS_TO_KEY, address);
  }

  lemma RegularReadsBack(accounts: seq<AccountInfo>, slot: nat)
    requires WellFormedLedger(accounts) && slot < |accounts|
    ensures DeserializeAccount(SerializeAccount(accounts[slot])) == Ok(accounts[slot])
  {
    hide SerializeAccount, DeserializeAccount;
    assert Regular(accounts[slot]);
    AccountRoundTrip(accounts[slot]);
    StoredInRange(accounts[slot]);
  }

  // ---------------------------------------------------------------- creating an account

  /** The key after the last one given out, starting from 0. */
  function NextKey(store: Store): nat {
    var k := Key(LAST_KEY, EMPTY_KEY);
    if k in store then FromBytes(store[k]) + 1 else 0
  }

  lemma NextKeyIsCount(h: Hasher, st: TreeState, accounts: seq<AccountInfo>)
    requires Agrees(h, st, accounts)
    ensures NextKey(st.store) == |accounts|
  {
    hide Key, ToBytes, FromBytes, Tracks, WellFormedLedger, FindSlot, Table;
    TableRead(st.store, LAST_KEY, EMPTY_KEY);
    if accounts != [] {
      FromToBytes(|accounts| - 1);
    }
  }

  function Recorded(st: TreeState, a: AccountInfo): TreeState {
    st.(store := WithAccountRecords(st.store, a.account, ToBytes(NextKey(st.store)), SerializeAccount(a)))
  }

  function Created(h: Hasher, st: TreeState, a: AccountInfo): TreeState {
    Updated(h, STATE_CONFIG, Recorded(st, a), ToBytes(NextKey(st.store)), SerializeAccount(a))
  }

  lemma UpdatedGrows(h: Hasher, st: TreeState, key: bytes, value: bytes)
    requires Backed(h, Some(STATE_TRIE), st.store, st.recorded)
    ensures var st' := Updated(h, STATE_CONFIG, st, key, value);
            st.recorded <= st'.recorded && Backed(h, Some(STATE_TRIE), st'.store, st'.recorded)
  {
    hide Backed, UpdateWrites, WriteAll;
    var writes := UpdateWrites(h, STATE_CONFIG, st.store, key, value, st.root);
    if writes.Ok? {
      BackedWriteAll(h, Some(STATE_TRIE), st.store, st.recorded, writes.value);
    }
  }

  lemma CreateStep(h: Hasher, reg: Registry, st: TreeState, accounts: seq<AccountInfo>, a: AccountInfo)
    requires StateValid(h, reg, st, accounts)
    requires Sound(h, st, accounts) ==> FindSlot(accounts, a.account).None? && Regular(a)
    ensures var st' := Created(h, st, a);
            && StateValid(h, reg, st', accounts + [a]) && StateGrows(st, accounts, st', accounts + [a])
            && (Sound(h, st', accounts + [a]) ==>
                  UpdateResult(h, STATE_CONFIG, Recorded(st, a).store, ToBytes(NextKey(st.store)), SerializeAccount(a),
                    st.root).Ok?)
  {
    hide Agrees, Backed, Updated, Table, Key, RegistryAgrees, WithAccountRecords, FindSlot, SerializeAccount,
      UpdateResult, OthersKept, CollisionFree, NextKey, ToBytes, Regular;
    var st1, st' := Recorded(st, a), Created(h, st, a);
    var key, data := ToBytes(NextKey(st.store)), SerializeAccount(a);
    AccountRecordTables(h, st.store, st.recorded, a.account, key, data);
    UpdatedGrows(h, st1, key, data);
    UpdateKeepsRecords(h, st1, key, data);
    OthersKeptTwice(st.store, st1.store, st'.store);
    RegistryKept(st.store, st'.store, reg);
    SoundBefore(h, st, accounts, st', accounts + [a]);
    if Sound(h, st', accounts + [a]) {
      NextKeyIsCount(h, st, accounts);
      CreateAgrees(h, st, accounts, a);
    }
  }

  // ---------------------------------------------------------------- replacing an account

  function RecordSet(st: TreeState, key: bytes, data: bytes): TreeState {
    st.(store := st.store[Key(KEY_TO_ACCOUNT_INFO, key) := data])
  }

  function Replaced(h: Hasher, st: TreeState, info: AccountInfo): TreeState {
    var k := Key(ACCOUNT_ADDRESS_TO_KEY, info.account);
    if k !in st.store then st
    else Updated(h, STATE_CONFIG, RecordSet(st, st.store[k], SerializeAccount(info)), st.store[k],
      SerializeAccount(info))
  }

  function WithAccount(accounts: seq<AccountInfo>, info: AccountInfo): seq<AccountInfo> {
    var slot := FindSlot(accounts, info.account);
    if slot.Some? then accounts[slot.value := Stored(info)] else accounts
  }

  function ReplaceResult(h: Hasher, st: TreeState, info: AccountInfo): Result<()> {
    var k := Key(ACCOUNT_ADDRESS_TO_KEY, info.account);
    if k !in st.store then Err(AccountNotFound)
    else
      var _ :- UpdateResult(h, STATE_CONFIG, RecordSet(st, st.store[k], SerializeAccount(info)).store, st.store[k],
                            SerializeAccount(info), st.root);
      Ok(())
  }

  lemma OthersKeptSame(store: Store)
    ensures OthersKept(store, store)
  {
  }

  lemma ReplaceGrows(h: Hasher, reg: Registry, st: TreeState, info: AccountInfo)
    requires Backed(h, Some(STATE_TRIE), st.store, st.recorded) && RegistryAgrees(st.store, reg)
    ensures var st' := Replaced(h, st, info);
            && Backed(h, Some(STATE_TRIE), st'.store, st'.recorded) && st.recorded <= st'.recorded
            && OthersKept(st.store, st'.store) && RegistryAgrees(st'.store, reg)
  {
    hide Backed, Updated, Table, Key, RegistryAgrees, SerializeAccount, OthersKept;
    var k := Key(ACCOUNT_ADDRESS_TO_KEY, info.account);
    if k in st.store {
      var key, data := st.store[k], SerializeAccount(info);
      var st1, st' := RecordSet(st, key, data), Replaced(h, st, info);
      TablesAfter(st.store, KEY_TO_ACCOUNT_INFO, key, data);
      RecordKeepsTrie(h, st.store, st.recorded, KEY_TO_ACCOUNT_INFO, key, data);
      UpdatedGrows(h, st1, key, data);
      UpdateKeepsRecords(h, st1, key, data);
      OthersKeptTwice(st.store, st1.store, st'.store);
      RegistryKept(st.store, st'.store, reg);
    } else {
      OthersKeptSame(st.store);
    }
  }

  lemma ReplaceStep(h: Hasher, reg: Registry, st: TreeState, accounts: seq<AccountInfo>, info: AccountInfo)
    requires StateValid(h, reg, st, accounts)
    requires Sound(h, st, accounts) ==> Regular(Stored(info))
    ensures var st', accounts' := Replaced(h, st, info), WithAccount(accounts, info);
            && StateValid(h, reg, st', accounts') && StateGrows(st, accounts, st', accounts')
            && (Sound(h, st', accounts') ==>
                  ReplaceResult(h, st, info) ==
                    if FindSlot(accounts, info.account).Some? then Ok(()) else Err(AccountNotFound))
  {
    hide Agrees, Backed, Updated, Table, Key, RegistryAgrees, FindSlot, SerializeAccount, UpdateResult, OthersKept,
      CollisionFree, ToBytes, Regular, Stored;
    var st', accounts' := Replaced(h, st, info), WithAccount(accounts, info);
    ReplaceGrows(h, reg, st, info);
    SoundBefore(h, st, accounts, st', accounts');
    if Sound(h, st', accounts') {
      KeyOfAddress(h, st, accounts, info.account);
      if FindSlot(accounts, info.account).Some? {
        StoredBytes(info);
        StoredAccount(info);
        SetAgrees(h, st, accounts, FindSlot(accounts, info.account).value, Stored(info), SerializeAccount(info));
      }
    }
  }

  // ---------------------------------------------------------------- what the steps of a transaction need

  lemma SoundIsWellFormed(h: Hasher, reg: Registry, st: TreeState, accounts: seq<AccountInfo>)
    requires StateValid(h, reg, st, accounts) && Sound(h, st, accounts)
    ensures WellFormedLedger(accounts)
  {
    hide Tracks, IndexAgrees, Backed;
  }

  lemma CreditRegular(a: AccountInfo, k: nat, amount: int)
    requires Regular(a) && k < MAX_LENGTH - 1
    ensures Regular(Stored(Credit(a, k, amount))) && Credit(a, k, amount).account == a.account
  {
    hide Stored;
    StoredRegular(Credit(a, k, amount));
  }

  lemma CreditedFields(a: AccountInfo, k: nat, amount: int)
    ensures var wide := Expand(a, k);
            Credit(a, k, amount) == AccountInfo(a.account, wide.balances[k := wide.balances[k] + amount],
                                                wide.transferNonces, wide.withdrawNonces)
  {
  }

  /** Depositing into a found or new account is setting that account. */
  lemma DepositIsSet(accounts: seq<AccountInfo>, k: nat, address: bytes, amount: int)
    requires WellFormedLedger(accounts) && |address| == 20 && k < MAX_LENGTH - 1
    ensures var found := GetOrCreate(accounts, address, k + 1);
            var updated := Credit(found.accounts[found.slot], k, amount);
            && Regular(Stored(updated)) && updated.account == address
            && FindSlot(found.accounts, address).Some?
            && WithAccount(found.accounts, updated) == found.accounts[found.slot := Stored(updated)]
  {
    hide Regular, Credit, FindSlot, Stored, ZeroAccount;
    GetOrCreateKeeps(accounts, address, k + 1);
    FindAfterCreate(accounts, address, k + 1, address);
    var found := GetOrCreate(accounts, address, k + 1);
    CreditRegular(found.accounts[found.slot], k, amount);
  }

  lemma WithdrawIsSet(accounts: seq<AccountInfo>, k: nat, address: bytes, amount: int, nonce: int)
    requires WellFormedLedger(accounts) && ApplyWithdraw(accounts, k, address, amount, nonce).result.Ok?
    ensures var out := ApplyWithdraw(accounts, k, address, amount, nonce);
            var updated := out.result.value[0].info;
            Regular(Stored(updated)) && WithAccount(accounts, updated) == out.accounts
  {
    hide Stored, InRange;
    StoredRegular(ApplyWithdraw(accounts, k, address, amount, nonce).result.value[0].info);
  }

  /** A transfer sets the sender's account and then the recipient's, even when they are one. */
  lemma TransferIsSets(accounts: seq<AccountInfo>, k: nat, sender: bytes, recipient: bytes, amount: int, nonce: int)
    requires WellFormedLedger(accounts) && |recipient| == 20 && k < MAX_LENGTH - 1
    requires ApplyTransfer(accounts, k, sender, recipient, amount, nonce).result.Ok?
    ensures var out := ApplyTransfer(accounts, k, sender, recipient, amount, nonce);
            var base := GetOrCreate(accounts, recipient, k + 1).accounts;
            var from, to := out.result.value[0].info, out.result.value[1].info;
            && Regular(Stored(from)) && Regular(Stored(to)) && from.account == sender && to.account == recipient
            && FindSlot(base, sender).Some? && FindSlot(WithAccount(base, from), recipient).Some?
            && WithAccount(WithAccount(base, from), to) == out.accounts
  {
    hide Stored, InRange, FindSlot, Credit, Regular, Distinct;
    var found := GetOrCreate(accounts, recipient, k + 1);
    var out := ApplyTransfer(accounts, k, sender, recipient, amount, nonce);
    var from := out.result.value[0].info;
    var slot := FindSlot(found.accounts, sender).value;
    GetOrCreateKeeps(accounts, recipient, k + 1);
    FindAfterCreate(accounts, recipient, k + 1, recipient);
    assert Regular(found.accounts[slot]);
    SpentRegular(found.accounts[slot], from);
    CreditRegular(found.accounts[found.slot], k, amount);
    StoredAccount(from);
    FindAfterReplace(found.accounts, slot, Stored(from), recipient);
  }

  lemma SpentRegular(a: AccountInfo, spent: AccountInfo)
    requires Regular(a) && spent.account == a.account && |spent.balances| == |a.balances|
    requires |spent.transferNonces| == |a.transferNonces| && |spent.withdrawNonces| == |a.withdrawNonces|
    ensures Regular(Stored(spent))
  {
    hide Stored, InRange;
    StoredRegular(spent);
  }

  // ---------------------------------------------------------------- proofs and snapshots

  lemma AgreeingTracks(h: Hasher, st: TreeState, accounts: seq<AccountInfo>)
    requires Agrees(h, st, accounts)
    ensures Tracks(h, STATE_CONFIG, st, StateTree(accounts), AllPaths(LEVELS)) && WellFormedLedger(accounts)
  {
  }

  lemma ProofOfSlot(h: Hasher, st: TreeState, accounts: seq<AccountInfo>, slot: nat)
    requires Tracks(h, STATE_CONFIG, st, StateTree(accounts), AllPaths(LEVELS))
    requires CollisionFree(h, st.recorded) && slot < UINT_LIMIT
    ensures ProofOf(h, STATE_CONFIG, st.store, ToBytes(slot), st.root) == Ok(SlotProof(h, accounts, slot))
    ensures FitAll(SlotProof(h, accounts, slot)) == SlotProof(h, accounts, slot)
    ensures ReadKey(h, STATE_CONFIG, st.store, ToBytes(slot), st.root) == Ok(Get(StateTree(accounts), SlotPath(slot)))
  {
    hide Perfect, StateTree, IndexAgrees, WellFormedLedger, SlotPath, KeyPath, Backed, OnPath, CollisionFree, Lookup,
      SideNodes;
    SlotKeyPath(h, slot);
    assert SlotPath(slot) in AllPaths(LEVELS);
    FitReversed(Siblings(h, StateTree(accounts), SlotPath(slot)));
    ProofComplete(h, STATE_CONFIG, st, StateTree(accounts), AllPaths(LEVELS), SlotPath(slot));
  }

  lemma RootOfState(h: Hasher, st: TreeState, accounts: seq<AccountInfo>)
    requires Tracks(h, STATE_CONFIG, st, StateTree(accounts), AllPaths(LEVELS))
    ensures st.root == StateRoot(h, accounts) && Fit(st.root) == StateRoot(h, accounts)
  {
    hide StateTree, IndexAgrees, WellFormedLedger, Backed, OnPath, Perfect;
    assert st.root[..32] == st.root;
  }

  /** GetStateSnapshot: leaf, proof and decoded record, failing in that order. */
  function SnapshotRead(h: Hasher, st: TreeState, key: bytes): Result<StateSnapshot> {
    var infoData :- ReadKey(h, STATE_CONFIG, st.store, key, st.root);
    var proof :- ProofOf(h, STATE_CONFIG, st.store, key, st.root);
    var info :- DeserializeAccount(infoData);
    Ok(StateSnapshot(FromBytes(key), info, st.root, FitAll(proof)))
  }

  lemma SnapshotIsListed(h: Hasher, st: TreeState, accounts: seq<AccountInfo>, slot: nat)
    requires Tracks(h, STATE_CONFIG, st, StateTree(accounts), AllPaths(LEVELS))
    requires WellFormedLedger(accounts) && CollisionFree(h, st.recorded)
    ensures SnapshotRead(h, st, ToBytes(slot)) == Snapshot(h, accounts, slot)
  {
    hide StateTree, IndexAgrees, Tracks, Perfect, SlotPath, KeyPath, CollisionFree, FromBytes, ToBytes, Lookup,
      SideNodes, DeserializeAccount, SerializeAccount, Regular, Distinct, SlotProof;
    if slot >= UINT_LIMIT {
      SlotKeyTooLong(h, slot);
    } else {
      FromToBytes(slot);
      ProofOfSlot(h, st, accounts, slot);
      RootOfState(h, st, accounts);
      SlotLeaf(accounts, slot);
      if slot % ACCOUNT_LIMIT < |accounts| {
        RegularReadsBack(accounts, slot % ACCOUNT_LIMIT);
      } else {
        EmptyLeafIsNoAccount();
      }
    }
  }

  lemma RootWhenSound(h: Hasher, reg: Registry, st: TreeState, accounts: seq<AccountInfo>)
    requires StateValid(h, reg, st, accounts) && Sound(h, st, accounts)
    ensures st.root == StateRoot(h, accounts) && Fit(st.root) == StateRoot(h, accounts)
  {
    hide Agrees, StateRoot, Backed, Tracks;
    AgreeingTracks(h, st, accounts);
    RootOfState(h, st, accounts);
  }

  lemma SnapshotWhenSound(h: Hasher, reg: Registry, st: TreeState, accounts: seq<AccountInfo>, slot: nat)
    requires StateValid(h, reg, st, accounts) && Sound(h, st, accounts)
    ensures SnapshotRead(h, st, ToBytes(slot)) == Snapshot(h, accounts, slot)
  {
    hide Agrees, Backed, SnapshotRead, Snapshot, Tracks;
    AgreeingTracks(h, st, accounts);
    SnapshotIsListed(h, st, accounts, slot);
  }

  lemma EntriesAppend(h: Hasher, accounts: seq<AccountInfo>, updates: seq<AccountInfoUpdate>, i: nat)
    requires i < |updates|
    ensures EntriesFor(h, accounts, updates[..i + 1]) ==
            EntriesFor(h, accounts, updates[..i]) + [EntryFor(h, accounts, updates[i])]
  {
    hide EntryFor;
  }

  /** After a transaction every account it reports is listed, and its key and proof are those of its slot. */
  lemma EntryRead(h: Hasher, reg: Registry, st: TreeState, before: seq<AccountInfo>, tx: Ledger.Transaction, i: nat)
    requires var out := Apply(reg, before, tx);
             && WellFormedLedger(before) && StateValid(h, reg, st, out.accounts) && Sound(h, st, out.accounts)
             && out.result.Ok? && i < |out.result.value|
    ensures var out := Apply(reg, before, tx);
            var update := out.result.value[i];
            var k := Key(ACCOUNT_ADDRESS_TO_KEY, update.info.account);
            && k in st.store
            && ProofOf(h, STATE_CONFIG, st.store, st.store[k], st.root).Ok?
            && EntryFor(h, out.accounts, update) ==
               StateUpdateEntry(FromBytes(st.store[k]),
                 FitAll(ProofOf(h, STATE_CONFIG, st.store, st.store[k], st.root).value),
                                update.info, update.newAccount)
  {
    hide Agrees, Backed, Apply, ProofOf, Key, CollisionFree, Stored, FindSlot, SlotProof, FromBytes, ToBytes,
      RegistryAgrees, WellFormedLedger;
    var out := Apply(reg, before, tx);
    var info := out.result.value[i].info;
    WrittenRecord(reg, before, tx, i);
    KeyOfAddress(h, st, out.accounts, info.account);
    var slot := FindSlot(out.accounts, info.account).value;
    FromToBytes(slot);
    AgreeingTracks(h, st, out.accounts);
    ProofOfSlot(h, st, out.accounts, slot);
  }

  // ---------------------------------------------------------------- tables of others

  /** Storing a block leaves the state machine's part of the store as it was. */
  lemma BlockStoredKeepsState(h: Hasher, reg: Registry, st: TreeState, accounts: seq<AccountInfo>, key: bytes,
          value: bytes)
    requires StateValid(h, reg, st, accounts)
    ensures var st' := st.(store := st.store[Key(ROLLUP_BLOCK_NUMBER, key) := value]);
            && StateValid(h, reg, st', accounts)
            && Table(st'.store, ROLLUP_BLOCK_NUMBER) == Table(st.store, ROLLUP_BLOCK_NUMBER)[key := value]
  {
    hide Table, Backed, Tracks, WellFormedLedger, Key, CollisionFree, Usable, StateTree, Perfect, IndexAgrees,
      RegistryAgrees;
    var st' := st.(store := st.store[Key(ROLLUP_BLOCK_NUMBER, key) := value]);
    RecordKeepsTrie(h, st.store, st.recorded, ROLLUP_BLOCK_NUMBER, key, value);
    BlockTableSet(st.store, key, value);
    SameTables(st.store, st'.store, reg, accounts);
    if Sound(h, st, accounts) {
      TracksMonotone(h, STATE_CONFIG, st, st', StateTree(accounts), AllPaths(LEVELS));
    }
  }

  lemma SameTables(store: Store, store': Store, reg: Registry, accounts: seq<AccountInfo>)
    requires Table(store', LAST_KEY) == Table(store, LAST_KEY)
    requires Table(store', ACCOUNT_ADDRESS_TO_KEY) == Table(store, ACCOUNT_ADDRESS_TO_KEY)
    requires Table(store', KEY_TO_ACCOUNT_INFO) == Table(store, KEY_TO_ACCOUNT_INFO)
    requires Table(store', TOKEN_ADDRESS_TO_INDEX) == Table(store, TOKEN_ADDRESS_TO_INDEX)
    requires Table(store', TOKEN_INDEX_TO_ADDRESS) == Table(store, TOKEN_INDEX_TO_ADDRESS)
    ensures IndexAgrees(store, accounts) ==> IndexAgrees(store', accounts)
    ensures RegistryAgrees(store, reg) ==> RegistryAgrees(store', reg)
  {
    hide Table, ToBytes, FindSlot, SerializeAccount;
  }

  lemma BlockTableSet(store: Store, key: bytes, value: bytes)
    ensures var s := store[Key(ROLLUP_BLOCK_NUMBER, key) := value];
            && Table(s, ROLLUP_BLOCK_NUMBER) == Table(store, ROLLUP_BLOCK_NUMBER)[key := value]
            && Table(s, LAST_KEY) == Table(store, LAST_KEY)
            && Table(s, ACCOUNT_ADDRESS_TO_KEY) == Table(store, ACCOUNT_ADDRESS_TO_KEY)
            && Table(s, KEY_TO_ACCOUNT_INFO) == Table(store, KEY_TO_ACCOUNT_INFO)
            && Table(s, TOKEN_ADDRESS_TO_INDEX) == Table(store, TOKEN_ADDRESS_TO_INDEX)
            && Table(s, TOKEN_INDEX_TO_ADDRESS) == Table(store, TOKEN_INDEX_TO_ADDRESS)
  {
    hide Table, Key;
    TableSet(store, ROLLUP_BLOCK_NUMBER, key, value, ROLLUP_BLOCK_NUMBER);
    TableSet(store, ROLLUP_BLOCK_NUMBER, key, value, LAST_KEY);
    TableSet(store, ROLLUP_BLOCK_NUMBER, key, value, ACCOUNT_ADDRESS_TO_KEY);
    TableSet(store, ROLLUP_BLOCK_NUMBER, key, value, KEY_TO_ACCOUNT_INFO);
    TableSet(store, ROLLUP_BLOCK_NUMBER, key, value, TOKEN_ADDRESS_TO_INDEX);
    TableSet(store, ROLLUP_BLOCK_NUMBER, key, value, TOKEN_INDEX_TO_ADDRESS);
  }
}
