/**
 What the state machine's store holds for a list of accounts: the record tables and the state trie,
 and how they change together.
 */
module StateSpec {
  import opened ByteStrings
  import opened Errors
  import opened Namespaces
  import opened PathBits
  import opened MerkleTree
  import opened TrieStore
  import opened SparseMerkleTrees
  import opened Proofs
  import opened TreeRuns
  import opened Abi
  import opened Accounts
  import opened Ledger

  const STATE_CONFIG: TreeConfig := TreeConfig(Some(STATE_TRIE), 160, false)
  const LEVELS: nat := 159

  /** The state trie has 2^159 leaves. */
  const ACCOUNT_LIMIT: nat := 0x80000000_00000000_00000000_00000000_00000000

  lemma AccountLimitIsPow2()
    ensures ACCOUNT_LIMIT == Pow2(LEVELS)
  {
    hide Pow2;
    assert Pow2(8) == 256 by { Pow2Of8(); }
    assert 2 * Pow2(159) == Pow2(160) by { Pow2Double(159); }
    Pow2Sum(8, 8);
    Pow2Sum(16, 16);
    Pow2Sum(32, 32);
    Pow2Sum(64, 64);
    Pow2Sum(128, 32);
  }

  lemma Pow2Double(n: nat)
    ensures 2 * Pow2(n) == Pow2(n + 1)
  {
  }

  // ---------------------------------------------------------------- the trie of an account list

  function StateLeaves(accounts: seq<AccountInfo>): map<nat, bytes> {
    map i: nat | 0 <= i < |accounts| :: SerializeAccount(accounts[i])
  }

  function StateTree(accounts: seq<AccountInfo>): (t: Tree)
    ensures Perfect(t, LEVELS)
  {
    TreeOf(LEVELS, 0, StateLeaves(accounts))
  }

  function StateRoot(h: Hasher, accounts: seq<AccountInfo>): Digest {
    HashOf(h, StateTree(accounts))
  }

  function SlotPath(slot: nat): (path: Path)
    ensures |path| == LEVELS
  {
    Bits(slot, LEVELS)
  }

  function SlotProof(h: Hasher, accounts: seq<AccountInfo>, slot: nat): seq<bytes> {
    Reverse(Siblings(h, StateTree(accounts), SlotPath(slot)))
  }

  /** A key leads to the path of the number it stands for. */
  lemma NumberKeyPath(h: Hasher, key: bytes)
    requires |key| <= 32
    ensures KeyPath(h, STATE_CONFIG, key) == Ok(SlotPath(FromBytes(key)))
  {
    hide Pow2, IsLeft, FromBytes, Bits;
    PaddingKeepsPath(key, 32 - |key|, 160);
    IsLeftReadsBits(key, 160);
  }

  lemma SlotBytes(slot: nat)
    requires slot < UINT_LIMIT
    ensures |ToBytes(slot)| <= 32 && FromBytes(ToBytes(slot)) == slot
  {
    hide Pow2, ToBytes, FromBytes;
    UintLimitIsPow2();
    ToBytesLength(slot, 32);
    FromToBytes(slot);
  }

  lemma SlotKeyPath(h: Hasher, slot: nat)
    requires slot < UINT_LIMIT
    ensures KeyPath(h, STATE_CONFIG, ToBytes(slot)) == Ok(SlotPath(slot))
  {
    hide ToBytes, FromBytes, KeyPath, SlotPath;
    SlotBytes(slot);
    NumberKeyPath(h, ToBytes(slot));
  }

  lemma SlotKeyTooLong(h: Hasher, slot: nat)
    requires slot >= UINT_LIMIT
    ensures KeyPath(h, STATE_CONFIG, ToBytes(slot)) == Err(KeyTooLong)
  {
    hide Pow2, IsLeft;
    if |ToBytes(slot)| <= 32 {
      FromToBytes(slot);
      FromBytesBound(ToBytes(slot));
      Pow2Monotone(8 * |ToBytes(slot)|, 256);
      UintLimitIsPow2();
    }
  }

  lemma SlotIndex(slot: nat)
    ensures Index(SlotPath(slot)) == slot % ACCOUNT_LIMIT
  {
    hide Pow2;
    AccountLimitIsPow2();
    IndexOfBits(slot, LEVELS);
  }

  /** Slots below 2^159 have leaves of their own; further slots share them. */
  lemma SlotLeaf(accounts: seq<AccountInfo>, slot: nat)
    ensures Get(StateTree(accounts), SlotPath(slot)) == LeafAt(StateLeaves(accounts), slot % ACCOUNT_LIMIT)
  {
    hide TreeOf, Bits, Perfect;
    GetTreeOf(LEVELS, 0, StateLeaves(accounts), SlotPath(slot));
    LeafIndexIsIndex(SlotPath(slot));
    SlotIndex(slot);
  }

  lemma PutSlot(accounts: seq<AccountInfo>, slot: nat, value: bytes)
    requires slot < ACCOUNT_LIMIT
    ensures Put(StateTree(accounts), SlotPath(slot), value) == TreeOf(LEVELS, 0, StateLeaves(accounts)[slot := value])
  {
    hide TreeOf, Bits, Perfect;
    PutTreeOf(LEVELS, 0, StateLeaves(accounts), SlotPath(slot), value);
    LeafIndexIsIndex(SlotPath(slot));
    SlotIndex(slot);
  }

  lemma PutReplaces(accounts: seq<AccountInfo>, slot: nat, a: AccountInfo)
    requires slot < |accounts| <= ACCOUNT_LIMIT
    ensures Put(StateTree(accounts), SlotPath(slot), SerializeAccount(a)) == StateTree(accounts[slot := a])
  {
    hide TreeOf, SerializeAccount, Put, Perfect;
    PutSlot(accounts, slot, SerializeAccount(a));
    assert StateLeaves(accounts)[slot := SerializeAccount(a)] == StateLeaves(accounts[slot := a]);
  }

  lemma PutAppends(accounts: seq<AccountInfo>, a: AccountInfo)
    requires |accounts| < ACCOUNT_LIMIT
    ensures Put(StateTree(accounts), SlotPath(|accounts|), SerializeAccount(a)) == StateTree(accounts + [a])
  {
    hide TreeOf, SerializeAccount, Put, Perfect;
    PutSlot(accounts, |accounts|, SerializeAccount(a));
    assert StateLeaves(accounts)[|accounts| := SerializeAccount(a)] == StateLeaves(accounts + [a]);
  }

  lemma EmptyStateTree()
    ensures StateTree([]) == DefaultTree(LEVELS)
  {
    hide TreeOf, DefaultTree, Perfect;
    assert StateLeaves([]) == map[];
    TreeOfNothing(LEVELS, 0);
  }

  // ---------------------------------------------------------------- the records of an account list

  /** The last key given out is n - 1. */
  ghost predicate CounterAgrees(store: Store, n: nat) {
    && (forall k :: k in Table(store, LAST_KEY) <==> k == [] && n > 0)
    && (n > 0 ==> Table(store, LAST_KEY)[[]] == ToBytes(n - 1))
  }

  /** Addresses lead to the keys of their slots. */
  ghost predicate AddressesAgree(store: Store, accounts: seq<AccountInfo>) {
    && (forall a: bytes :: a in Table(store, ACCOUNT_ADDRESS_TO_KEY) <==> FindSlot(accounts, a).Some?)
    && (forall a: bytes :: FindSlot(accounts, a).Some? ==>
          Table(store, ACCOUNT_ADDRESS_TO_KEY)[a] == ToBytes(FindSlot(accounts, a).value))
  }

  /** Records exist for the keys 0 to n - 1 and for no others, and each is its slot's serialized account. */
  ghost predicate RecordsAgree(store: Store, accounts: seq<AccountInfo>) {
    && (forall i: nat :: ToBytes(i) in Table(store, KEY_TO_ACCOUNT_INFO) <==> i < |accounts|)
    && (forall key :: key in Table(store, KEY_TO_ACCOUNT_INFO) ==>
          exists i: nat :: i < |accounts| && key == ToBytes(i))
    && (forall i: nat :: i < |accounts| ==>
       Table(store, KEY_TO_ACCOUNT_INFO)[ToBytes(i)] == SerializeAccount(accounts[i]))
  }

  ghost predicate IndexAgrees(store: Store, accounts: seq<AccountInfo>) {
    CounterAgrees(store, |accounts|) && AddressesAgree(store, accounts) && RecordsAgree(store, accounts)
  }

  ghost predicate RegistryAgrees(store: Store, reg: Registry) {
    && (forall t: EthAddress :: t in Table(store, TOKEN_ADDRESS_TO_INDEX) <==> t in reg.toIndex)
    && (forall t :: t in reg.toIndex ==> Table(store, TOKEN_ADDRESS_TO_INDEX)[t] == ToBytes(reg.toIndex[t]))
    && (forall i: nat :: ToBytes(i) in Table(store, TOKEN_INDEX_TO_ADDRESS) <==> i in reg.toToken)
    && (forall i :: i in reg.toToken ==> Table(store, TOKEN_INDEX_TO_ADDRESS)[ToBytes(i)] == reg.toToken[i])
  }

  /** Tables the state machine does not own. */
  ghost predicate OthersKept(store: Store, store': Store) {
    && Table(store', TOKEN_ADDRESS_TO_INDEX) == Table(store, TOKEN_ADDRESS_TO_INDEX)
    && Table(store', TOKEN_INDEX_TO_ADDRESS) == Table(store, TOKEN_INDEX_TO_ADDRESS)
    && Table(store', ROLLUP_BLOCK_NUMBER) == Table(store, ROLLUP_BLOCK_NUMBER)
  }

  /** The whole agreement between stored state and account list. */
  ghost predicate Agrees(h: Hasher, st: TreeState, accounts: seq<AccountInfo>) {
    && Tracks(h, STATE_CONFIG, st, StateTree(accounts), AllPaths(LEVELS))
    && IndexAgrees(st.store, accounts)
    && WellFormedLedger(accounts)
  }

  // ---------------------------------------------------------------- writes

  lemma TrieWritesKeepTable(h: Hasher, store: Store, xs: seq<bytes>, other: bytes)
    requires SEPARATOR !in other && other != STATE_TRIE
    ensures Table(WriteAll(h, Some(STATE_TRIE), store, xs), other) == Table(store, other)
  {
    hide WriteAll, PrependNamespace;
    var store' := WriteAll(h, Some(STATE_TRIE), store, xs);
    forall k: bytes
      ensures Key(other, k) in store' <==> Key(other, k) in store
      ensures Key(other, k) in store ==> store'[Key(other, k)] == store[Key(other, k)]
    {
      forall key: bytes ensures Key(other, k) != Key(STATE_TRIE, key) {
        NamespacesNeverOverlap(other, k, STATE_TRIE, key);
      }
      WritesStayInside(h, STATE_TRIE, store, xs, Key(other, k));
    }
  }

  lemma UpdateKeepsTable(h: Hasher, st: TreeState, key: bytes, value: bytes, other: bytes)
    requires SEPARATOR !in other && other != STATE_TRIE
    ensures Table(Updated(h, STATE_CONFIG, st, key, value).store, other) == Table(st.store, other)
  {
    hide UpdateWrites, WriteAll, Table;
    var writes := UpdateWrites(h, STATE_CONFIG, st.store, key, value, st.root);
    if writes.Ok? {
      TrieWritesKeepTable(h, st.store, writes.value, other);
    }
  }

  lemma RecordKeepsTrie(h: Hasher, store: Store, rec: set<bytes>, ns: bytes, key: bytes, value: bytes)
    requires SEPARATOR !in ns && ns != STATE_TRIE && Backed(h, Some(STATE_TRIE), store, rec)
    ensures Backed(h, Some(STATE_TRIE), store[Key(ns, key) := value], rec)
  {
    forall d: Digest ensures PrependNamespace(Some(STATE_TRIE), d) != Key(ns, key) {
      NamespacesNeverOverlap(STATE_TRIE, d, ns, key);
    }
    BackedElsewhere(h, Some(STATE_TRIE), store, store[Key(ns, key) := value], rec);
  }

  /** The three records createAccount commits together. */
  function WithAccountRecords(store: Store, address: bytes, slotKey: bytes, data: bytes): Store {
    store[Key(LAST_KEY, EMPTY_KEY) := slotKey][Key(ACCOUNT_ADDRESS_TO_KEY, address) := slotKey]
         [Key(KEY_TO_ACCOUNT_INFO, slotKey) := data]
  }

  lemma AccountRecordTables(h: Hasher, store: Store, rec: set<bytes>, address: bytes, slotKey: bytes, data: bytes)
    ensures var s := WithAccountRecords(store, address, slotKey, data);
            && Table(s, LAST_KEY) == Table(store, LAST_KEY)[EMPTY_KEY := slotKey]
            && Table(s, ACCOUNT_ADDRESS_TO_KEY) == Table(store, ACCOUNT_ADDRESS_TO_KEY)[address := slotKey]
            && Table(s, KEY_TO_ACCOUNT_INFO) == Table(store, KEY_TO_ACCOUNT_INFO)[slotKey := data]
            && OthersKept(store, s)
            && (Backed(h, Some(STATE_TRIE), store, rec) ==> Backed(h, Some(STATE_TRIE), s, rec))
  {
    hide Table, Key, Backed;
    var s1 := store[Key(LAST_KEY, EMPTY_KEY) := slotKey];
    var s2 := s1[Key(ACCOUNT_ADDRESS_TO_KEY, address) := slotKey];
    TablesAfter(store, LAST_KEY, EMPTY_KEY, slotKey);
    TablesAfter(s1, ACCOUNT_ADDRESS_TO_KEY, address, slotKey);
    TablesAfter(s2, KEY_TO_ACCOUNT_INFO, slotKey, data);
    if Backed(h, Some(STATE_TRIE), store, rec) {
      RecordKeepsTrie(h, store, rec, LAST_KEY, EMPTY_KEY, slotKey);
      RecordKeepsTrie(h, s1, rec, ACCOUNT_ADDRESS_TO_KEY, address, slotKey);
      RecordKeepsTrie(h, s2, rec, KEY_TO_ACCOUNT_INFO, slotKey, data);
    }
  }

  lemma TablesAfter(store: Store, ns: bytes, key: bytes, value: bytes)
    requires ns == LAST_KEY || ns == ACCOUNT_ADDRESS_TO_KEY || ns == KEY_TO_ACCOUNT_INFO
    ensures var s := store[Key(ns, key) := value];
            && Table(s, LAST_KEY) == (if ns == LAST_KEY then Table(store, ns)[key := value] else Table(store, LAST_KEY))
            && Table(s, ACCOUNT_ADDRESS_TO_KEY) ==
               (if ns == ACCOUNT_ADDRESS_TO_KEY then Table(store, ns)[key := value]
                 else Table(store, ACCOUNT_ADDRESS_TO_KEY))
            && Table(s, KEY_TO_ACCOUNT_INFO) ==
               (if ns == KEY_TO_ACCOUNT_INFO then Table(store, ns)[key := value] else Table(store, KEY_TO_ACCOUNT_INFO))
            && OthersKept(store, s)
  {
    hide Table, Key;
    TableSet(store, ns, key, value, LAST_KEY);
    TableSet(store, ns, key, value, ACCOUNT_ADDRESS_TO_KEY);
    TableSet(store, ns, key, value, KEY_TO_ACCOUNT_INFO);
    TableSet(store, ns, key, value, TOKEN_ADDRESS_TO_INDEX);
    TableSet(store, ns, key, value, TOKEN_INDEX_TO_ADDRESS);
    TableSet(store, ns, key, value, ROLLUP_BLOCK_NUMBER);
  }

  lemma UpdateKeepsRecords(h: Hasher, st: TreeState, key: bytes, value: bytes)
    ensures var st' := Updated(h, STATE_CONFIG, st, key, value);
            && OthersKept(st.store, st'.store)
            && Table(st'.store, LAST_KEY) == Table(st.store, LAST_KEY)
            && Table(st'.store, ACCOUNT_ADDRESS_TO_KEY) == Table(st.store, ACCOUNT_ADDRESS_TO_KEY)
            && Table(st'.store, KEY_TO_ACCOUNT_INFO) == Table(st.store, KEY_TO_ACCOUNT_INFO)
  {
    hide Table, Updated;
    UpdateKeepsTable(h, st, key, value, LAST_KEY);
    UpdateKeepsTable(h, st, key, value, ACCOUNT_ADDRESS_TO_KEY);
    UpdateKeepsTable(h, st, key, value, KEY_TO_ACCOUNT_INFO);
    UpdateKeepsTable(h, st, key, value, TOKEN_ADDRESS_TO_INDEX);
    UpdateKeepsTable(h, st, key, value, TOKEN_INDEX_TO_ADDRESS);
    UpdateKeepsTable(h, st, key, value, ROLLUP_BLOCK_NUMBER);
  }

  // ---------------------------------------------------------------- the two state changes

  lemma IndexAfterCreate(store: Store, store': Store, accounts: seq<AccountInfo>, a: AccountInfo)
    requires IndexAgrees(store, accounts) && FindSlot(accounts, a.account).None?
    requires Table(store', LAST_KEY) == Table(store, LAST_KEY)[EMPTY_KEY := ToBytes(|accounts|)]
    requires Table(store', ACCOUNT_ADDRESS_TO_KEY) ==
             Table(store, ACCOUNT_ADDRESS_TO_KEY)[a.account := ToBytes(|accounts|)]
    requires Table(store', KEY_TO_ACCOUNT_INFO) ==
             Table(store, KEY_TO_ACCOUNT_INFO)[ToBytes(|accounts|) := SerializeAccount(a)]
    ensures IndexAgrees(store', accounts + [a])
  {
    hide Table, ToBytes, SerializeAccount, FindSlot, RecordsAgree, AddressesAgree, CounterAgrees;
    CounterAfterCreate(store, store', |accounts|);
    AddressesAfterCreate(store, store', accounts, a);
    RecordsAfter(store, store', accounts, |accounts|, a);
  }

  lemma CounterAfterCreate(store: Store, store': Store, n: nat)
    requires CounterAgrees(store, n) && Table(store', LAST_KEY) == Table(store, LAST_KEY)[EMPTY_KEY := ToBytes(n)]
    ensures CounterAgrees(store', n + 1)
  {
    hide Table, ToBytes;
  }

  lemma AddressesAfterCreate(store: Store, store': Store, accounts: seq<AccountInfo>, a: AccountInfo)
    requires AddressesAgree(store, accounts) && FindSlot(accounts, a.account).None?
    requires Table(store', ACCOUNT_ADDRESS_TO_KEY) ==
             Table(store, ACCOUNT_ADDRESS_TO_KEY)[a.account := ToBytes(|accounts|)]
    ensures AddressesAgree(store', accounts + [a])
  {
    hide Table, ToBytes, FindSlot;
    forall b: bytes
      ensures FindSlot(accounts + [a], b) == if b == a.account then Some(|accounts|) else FindSlot(accounts, b)
    {
      FindAppended(accounts, a, b);
    }
  }

  /** Records after one slot, new or not, was written. */
  lemma RecordsAfter(store: Store, store': Store, accounts: seq<AccountInfo>, slot: nat, a: AccountInfo)
    requires RecordsAgree(store, accounts) && slot <= |accounts|
    requires Table(store', KEY_TO_ACCOUNT_INFO) ==
             Table(store, KEY_TO_ACCOUNT_INFO)[ToBytes(slot) := SerializeAccount(a)]
    ensures RecordsAgree(store', if slot == |accounts| then accounts + [a] else accounts[slot := a])
  {
    hide Table, ToBytes, SerializeAccount;
    forall i: nat ensures ToBytes(i) == ToBytes(slot) ==> i == slot {
      if ToBytes(i) == ToBytes(slot) { ToBytesInjective(i, slot); }
    }
  }

  lemma IndexAfterSet(store: Store, store': Store, accounts: seq<AccountInfo>, slot: nat, a: AccountInfo)
    requires IndexAgrees(store, accounts) && slot < |accounts| && a.account == accounts[slot].account
             && Distinct(accounts)
    requires Table(store', LAST_KEY) == Table(store, LAST_KEY)
    requires Table(store', ACCOUNT_ADDRESS_TO_KEY) == Table(store, ACCOUNT_ADDRESS_TO_KEY)
    requires Table(store', KEY_TO_ACCOUNT_INFO) ==
             Table(store, KEY_TO_ACCOUNT_INFO)[ToBytes(slot) := SerializeAccount(a)]
    ensures IndexAgrees(store', accounts[slot := a])
  {
    hide Table, ToBytes, SerializeAccount, FindSlot, Distinct, RecordsAgree;
    forall b: bytes ensures FindSlot(accounts[slot := a], b) == FindSlot(accounts, b) {
      FindAfterReplace(accounts, slot, a, b);
    }
    RecordsAfter(store, store', accounts, slot, a);
  }

  lemma TrackedBacked(h: Hasher, st: TreeState, t: Tree)
    requires Tracks(h, STATE_CONFIG, st, t, AllPaths(LEVELS))
    ensures Backed(h, Some(STATE_TRIE), st.store, st.recorded)
  {
  }

  /** createAccount: records first, then the leaf; both agree again afterwards. */
  lemma CreateAgrees(h: Hasher, st: TreeState, accounts: seq<AccountInfo>, a: AccountInfo)
    requires Agrees(h, st, accounts) && |accounts| < ACCOUNT_LIMIT
    requires FindSlot(accounts, a.account).None? && Regular(a)
    requires var key := ToBytes(|accounts|);
             var st1 := st.(store := WithAccountRecords(st.store, a.account, key, SerializeAccount(a)));
             CollisionFree(h, Updated(h, STATE_CONFIG, st1, key, SerializeAccount(a)).recorded)
    ensures var key := ToBytes(|accounts|);
            var st1 := st.(store := WithAccountRecords(st.store, a.account, key, SerializeAccount(a)));
            && UpdateResult(h, STATE_CONFIG, st1.store, key, SerializeAccount(a), st1.root).Ok?
            && Agrees(h, Updated(h, STATE_CONFIG, st1, key, SerializeAccount(a)), accounts + [a])
  {
    hide Backed, Updated, UpdateWrites, Table, Put, TreeOf, SerializeAccount, CollisionFree, OnPath, IndexAgrees,
      WithAccountRecords, Regular, FindSlot, WellFormedLedger, Tracks, StateTree, KeyPath, SlotPath, Perfect;
    var key, data := ToBytes(|accounts|), SerializeAccount(a);
    var st1 := st.(store := WithAccountRecords(st.store, a.account, key, data));
    AccountRecordTables(h, st.store, st.recorded, a.account, key, data);
    TrackedBacked(h, st, StateTree(accounts));
    TracksMonotone(h, STATE_CONFIG, st, st1, StateTree(accounts), AllPaths(LEVELS));
    SlotKeyPath(h, |accounts|);
    UpdateRecords(h, STATE_CONFIG, st1, key, data);
    CollisionFreeSubset(h, st1.recorded, Updated(h, STATE_CONFIG, st1, key, data).recorded);
    UpdateTracks(h, STATE_CONFIG, st1, StateTree(accounts), AllPaths(LEVELS), key, data);
    PutAppends(accounts, a);
    UpdateKeepsRecords(h, st1, key, data);
    IndexAfterCreate(st.store, Updated(h, STATE_CONFIG, st1, key, data).store, accounts, a);
    AppendKeeps(accounts, a);
  }

  /** setAccountInfo: record and leaf of one slot change together. */
  lemma SetAgrees(h: Hasher, st: TreeState, accounts: seq<AccountInfo>, slot: nat, a: AccountInfo, data: bytes)
    requires Agrees(h, st, accounts) && slot < |accounts| <= ACCOUNT_LIMIT
    requires Regular(a) && a.account == accounts[slot].account && data == SerializeAccount(a)
    requires var key := ToBytes(slot);
             var st1 := st.(store := st.store[Key(KEY_TO_ACCOUNT_INFO, key) := data]);
             CollisionFree(h, Updated(h, STATE_CONFIG, st1, key, data).recorded)
    ensures var key := ToBytes(slot);
            var st1 := st.(store := st.store[Key(KEY_TO_ACCOUNT_INFO, key) := data]);
            && UpdateResult(h, STATE_CONFIG, st1.store, key, data, st1.root).Ok?
            && Agrees(h, Updated(h, STATE_CONFIG, st1, key, data), accounts[slot := a])
  {
    hide Backed, Updated, UpdateWrites, Table, Put, TreeOf, SerializeAccount, CollisionFree, OnPath, IndexAgrees, Key,
      Tracks, StateTree, KeyPath, SlotPath, Perfect;
    var key := ToBytes(slot);
    var st1 := st.(store := st.store[Key(KEY_TO_ACCOUNT_INFO, key) := data]);
    TablesAfter(st.store, KEY_TO_ACCOUNT_INFO, key, data);
    TrackedBacked(h, st, StateTree(accounts));
    RecordKeepsTrie(h, st.store, st.recorded, KEY_TO_ACCOUNT_INFO, key, data);
    TracksMonotone(h, STATE_CONFIG, st, st1, StateTree(accounts), AllPaths(LEVELS));
    SlotKeyPath(h, slot);
    UpdateRecords(h, STATE_CONFIG, st1, key, data);
    CollisionFreeSubset(h, st1.recorded, Updated(h, STATE_CONFIG, st1, key, data).recorded);
    UpdateTracks(h, STATE_CONFIG, st1, StateTree(accounts), AllPaths(LEVELS), key, data);
    PutReplaces(accounts, slot, a);
    UpdateKeepsRecords(h, st1, key, data);
    IndexAfterSet(st.store, Updated(h, STATE_CONFIG, st1, key, data).store, accounts, slot, a);
    ReplaceKeeps(accounts, slot, a);
  }

  /** Storing a record and storing what it reads back as write the same bytes. */
  lemma {:induction false} WordsOfWrapped(ns: seq<int>)
    ensures Words(WrapAll(ns)) == Words(ns)
  {
    hide Wrap;
    if ns != [] {
      WordsOfWrapped(ns[1..]);
      assert WrapAll(ns)[1..] == WrapAll(ns[1..]);
      assert Word(WrapAll(ns)[0]) == Word(ns[0]);
    }
  }

  lemma StoredBytes(a: AccountInfo)
    ensures SerializeAccount(Stored(a)) == SerializeAccount(a)
  {
    hide Words, WrapAll, Layout, Word;
    WordsOfWrapped(a.balances);
    WordsOfWrapped(a.transferNonces);
    WordsOfWrapped(a.withdrawNonces);
    assert Slots(AccountArguments(Stored(a))) == Slots(AccountArguments(a));
  }

  // ---------------------------------------------------------------- a new state machine

  /** A store with no state in it yet; it may hold registry entries and blocks. */
  ghost predicate NoState(store: Store) {
    && (forall key: bytes :: Key(STATE_TRIE, key) !in store)
    && Table(store, LAST_KEY) == imap[] && Table(store, ACCOUNT_ADDRESS_TO_KEY) == imap[]
    && Table(store, KEY_TO_ACCOUNT_INFO) == imap[]
  }

  lemma NothingBackedYet(h: Hasher, store: Store)
    requires NoState(store)
    ensures Backed(h, Some(STATE_TRIE), store, {})
  {
    forall d: Digest ensures PrependNamespace(Some(STATE_TRIE), d) !in store {
      assert Key(STATE_TRIE, d) !in store;
    }
  }

  lemma InitialKeepsTable(h: Hasher, store: Store, other: bytes)
    requires SEPARATOR !in other && other != STATE_TRIE
    ensures Table(InitialState(h, STATE_CONFIG, store, {}).store, other) == Table(store, other)
  {
    hide Table, WriteAll, DefaultWrites;
    var xs := DefaultWrites(h, 160);
    TrieWritesKeepTable(h, store, xs, other);
    TableSet(WriteAll(h, Some(STATE_TRIE), store, xs), STATE_TRIE, INIT_MARKER, [], other);
  }

  lemma InitialAgrees(h: Hasher, store: Store)
    requires NoState(store)
    ensures var st := InitialState(h, STATE_CONFIG, store, {});
            Agrees(h, st, []) && OthersKept(store, st.store)
  {
    hide Table, InitialState, Backed, Tracks, FindSlot, DefaultTree, TreeOf, Perfect;
    NothingBackedYet(h, store);
    InitialTracks(h, STATE_CONFIG, store, {});
    EmptyStateTree();
    InitialKeepsTable(h, store, LAST_KEY);
    InitialKeepsTable(h, store, ACCOUNT_ADDRESS_TO_KEY);
    InitialKeepsTable(h, store, KEY_TO_ACCOUNT_INFO);
    InitialKeepsTable(h, store, TOKEN_ADDRESS_TO_INDEX);
    InitialKeepsTable(h, store, TOKEN_INDEX_TO_ADDRESS);
    InitialKeepsTable(h, store, ROLLUP_BLOCK_NUMBER);
    NoSlots();
    assert WellFormedLedger([]);
  }

  lemma NoSlots()
    ensures forall a: bytes :: FindSlot([], a).None?
  {
  }

  // ---------------------------------------------------------------- what the state machine answers

  function AccountAt(accounts: seq<AccountInfo>, address: bytes): Result<AccountInfo> {
    var slot := FindSlot(accounts, address);
    if slot.Some? then Ok(accounts[slot.value]) else Err(AccountNotFound)
  }

  datatype StateUpdateEntry =
    StateUpdateEntry(slotIndex: nat, inclusionProof: seq<bytes>, accountInfo: AccountInfo, newAccount: bool)

  datatype StateUpdate = StateUpdate(transaction: Transaction, stateRoot: bytes, entries: seq<StateUpdateEntry>)

  datatype StateSnapshot =
    StateSnapshot(slotIndex: nat, accountInfo: AccountInfo, stateRoot: bytes, inclusionProof: seq<bytes>)

  function EntryFor(h: Hasher, accounts: seq<AccountInfo>, update: AccountInfoUpdate): StateUpdateEntry {
    var slot := FindSlot(accounts, update.info.account);
    var slotIndex := if slot.Some? then slot.value else 0;
    StateUpdateEntry(slotIndex, SlotProof(h, accounts, slotIndex), update.info, update.newAccount)
  }

  function EntriesFor(h: Hasher, accounts: seq<AccountInfo>,
          updates: seq<AccountInfoUpdate>): (r: seq<StateUpdateEntry>)
    ensures |r| == |updates|
  {
    seq(|updates|, i requires 0 <= i < |updates| => EntryFor(h, accounts, updates[i]))
  }

  /** Everything ApplyTransaction returns: entries are proved after all writes, against the final root. */
  function UpdateFor(h: Hasher, reg: Registry, accounts: seq<AccountInfo>, tx: Transaction): Result<StateUpdate> {
    var out := Apply(reg, accounts, tx);
    var updates :- out.result;
    Ok(StateUpdate(tx, StateRoot(h, out.accounts), EntriesFor(h, out.accounts, updates)))
  }

  lemma UpdateDecides(h: Hasher, reg: Registry, accounts: seq<AccountInfo>, tx: Transaction)
    ensures UpdateFor(h, reg, accounts, tx).Ok? <==> Apply(reg, accounts, tx).result.Ok?
    ensures UpdateFor(h, reg, accounts, tx).Err? ==>
              Apply(reg, accounts, tx).result == Err(UpdateFor(h, reg, accounts, tx).error)
  {
    hide Apply, StateRoot;
  }

  /** A slot number past the last leaf reads the leaf it shares; an unused leaf does not decode. */
  function Snapshot(h: Hasher, accounts: seq<AccountInfo>, slot: nat): Result<StateSnapshot> {
    if slot >= UINT_LIMIT then Err(KeyTooLong)
    else if slot % ACCOUNT_LIMIT < |accounts| then
      Ok(StateSnapshot(slot, accounts[slot % ACCOUNT_LIMIT], StateRoot(h, accounts), SlotProof(h, accounts, slot)))
    else Err(BadEncoding)
  }

  lemma SlotProofFolds(h: Hasher, accounts: seq<AccountInfo>, slot: nat)
    requires slot % ACCOUNT_LIMIT < |accounts|
    ensures Folds(h, SlotPath(slot), SerializeAccount(accounts[slot % ACCOUNT_LIMIT]), SlotProof(h, accounts, slot),
                  StateRoot(h, accounts))
  {
    hide Perfect, TreeOf, Bits, Folds, SerializeAccount;
    SlotLeaf(accounts, slot);
    TreeProofFolds(h, StateTree(accounts), SlotPath(slot));
  }

  /** Published updates certify themselves, except the sender's half of a self-transfer. */
  lemma EntriesCertifyThemselves(h: Hasher, reg: Registry, accounts: seq<AccountInfo>, tx: Transaction, i: nat)
    requires WellFormedLedger(accounts) && Usable(reg) && UpdateFor(h, reg, accounts, tx).Ok?
    requires |Apply(reg, accounts, tx).accounts| <= ACCOUNT_LIMIT
    requires i < |UpdateFor(h, reg, accounts, tx).value.entries|
    requires !(tx.TransferTransaction? && tx.sender == tx.recipient && i == 0)
    ensures var update := UpdateFor(h, reg, accounts, tx).value;
            var e := update.entries[i];
            && e.slotIndex < |Apply(reg, accounts, tx).accounts|
            && Folds(h, SlotPath(e.slotIndex), SerializeAccount(e.accountInfo), e.inclusionProof, update.stateRoot)
  {
    hide Perfect, TreeOf, Bits, Folds, SerializeAccount, WellFormedLedger, SlotProof, StateRoot, FindSlot;
    var out := Apply(reg, accounts, tx);
    var info := out.result.value[i].info;
    WrittenRecord(reg, accounts, tx, i);
    var slot := FindSlot(out.accounts, info.account).value;
    StoredBytes(info);
    SlotProofFolds(h, out.accounts, slot);
  }

  /** The record of an update is what its account's slot holds at the end. */
  lemma WrittenRecord(reg: Registry, accounts: seq<AccountInfo>, tx: Transaction, i: nat)
    requires WellFormedLedger(accounts) && Usable(reg) && Apply(reg, accounts, tx).result.Ok?
    requires i < |Apply(reg, accounts, tx).result.value|
    ensures var out := Apply(reg, accounts, tx);
            var info := out.result.value[i].info;
            && FindSlot(out.accounts, info.account).Some?
            && (!(tx.TransferTransaction? && tx.sender == tx.recipient && i == 0) ==>
                  out.accounts[FindSlot(out.accounts, info.account).value] == Stored(info))
  {
    hide WrapAll, Wrap, Regular, FindSlot;
    var out := Apply(reg, accounts, tx);
    ApplyKeepsWellFormed(reg, accounts, tx);
    var info := out.result.value[i].info;
    var k := reg.toIndex[tx.token];
    var at: nat;
    match tx {
      case DepositTransaction(account, _, amount, _) =>
        at := GetOrCreate(accounts, account, k + 1).slot;
      case WithdrawTransaction(account, _, amount, nonce, _) =>
        at := FindSlot(accounts, account).value;
      case TransferTransaction(sender, recipient, _, amount, nonce, _) =>
        var found := GetOrCreate(accounts, recipient, k + 1);
        at := if i == 0 then FindSlot(found.accounts, sender).value else found.slot;
    }
    assert out.accounts[at].account == info.account;
    FindsIt(out.accounts, at);
  }
}
