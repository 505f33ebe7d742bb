/** What the agreement of store, trie and account list means to a reader of the store or of a root. */
module StateFacts {
  import opened ByteStrings
  import opened Errors
  import opened Namespaces
  import opened PathBits
  import opened MerkleTree
  import opened TrieStore
  import opened SparseMerkleTrees
  import opened Proofs
  import opened TreeRuns
  import opened Abi
  import opened Accounts
  import opened Ledger
  import opened LedgerTheorems
  import opened StateSpec
  import opened StateSteps

  // ---------------------------------------------------------------- records and leaves

  /**
   Index agreement, for any key at all: it has a record exactly when it is the shortest form of a slot number below
   the number of accounts, the trie leaf of such a key is its record, and a key that selects no account's leaf
   reads the default value.
   */
  lemma RecordIsLeaf(h: Hasher, st: TreeState, accounts: seq<AccountInfo>, key: bytes)
    requires Agrees(h, st, accounts) && CollisionFree(h, st.recorded) && |accounts| <= ACCOUNT_LIMIT
    ensures var records, slot := Table(st.store, KEY_TO_ACCOUNT_INFO), FromBytes(key);
            var leaf := ReadKey(h, STATE_CONFIG, st.store, key, st.root);
            && (key in records <==> slot < |accounts| && key == ToBytes(slot))
            && (key in records ==> leaf == Ok(records[key]))
            && (|key| <= 32 && slot % ACCOUNT_LIMIT >= |accounts| ==> leaf == Ok(DEFAULT_VALUE))
            && (|key| > 32 ==> leaf == Err(KeyTooLong))
  {
    hide Tracks, WellFormedLedger, FindSlot, SerializeAccount, ToBytes, FromBytes, StateTree, SlotPath, Table,
      CollisionFree, Lookup, PathOf, CounterAgrees, AddressesAgree;
    var records, slot := Table(st.store, KEY_TO_ACCOUNT_INFO), FromBytes(key);
    if key in records {
      var i: nat :| i < |accounts| && key == ToBytes(i);
      SmallSlot(i);
      SlotBytes(i);
    }
    if |key| <= 32 {
      LeafOfKey(h, st, accounts, key);
    }
  }

  lemma LeafOfKey(h: Hasher, st: TreeState, accounts: seq<AccountInfo>, key: bytes)
    requires Tracks(h, STATE_CONFIG, st, StateTree(accounts), AllPaths(LEVELS)) && CollisionFree(h, st.recorded)
    requires |key| <= 32
    ensures var slot := FromBytes(key) % ACCOUNT_LIMIT;
            ReadKey(h, STATE_CONFIG, st.store, key, st.root) ==
            Ok(if slot < |accounts| then SerializeAccount(accounts[slot]) else DEFAULT_VALUE)
  {
    hide Tracks, FromBytes, StateTree, SlotPath, CollisionFree, SerializeAccount, Lookup, KeyPath, Perfect;
    var path := SlotPath(FromBytes(key));
    NumberKeyPath(h, key);
    assert path in AllPaths(LEVELS);
    ProofComplete(h, STATE_CONFIG, st, StateTree(accounts), AllPaths(LEVELS), path);
    SlotLeaf(accounts, FromBytes(key));
  }

  lemma SmallSlot(slot: nat)
    requires slot < ACCOUNT_LIMIT
    ensures slot % ACCOUNT_LIMIT == slot < UINT_LIMIT
  {
  }

  /** Addresses and slot keys determine each other. */
  lemma AddressesAndKeys(h: Hasher, st: TreeState, accounts: seq<AccountInfo>, a: bytes, b: bytes)
    requires Agrees(h, st, accounts)
    ensures var keys := Table(st.store, ACCOUNT_ADDRESS_TO_KEY);
            && (a in keys ==> FromBytes(keys[a]) < |accounts| && accounts[FromBytes(keys[a])].account == a)
            && (a in keys && b in keys && keys[a] == keys[b] ==> a == b)
    ensures forall i :: 0 <= i < |accounts| ==>
              accounts[i].account in Table(st.store, ACCOUNT_ADDRESS_TO_KEY) &&
              Table(st.store, ACCOUNT_ADDRESS_TO_KEY)[accounts[i].account] == ToBytes(i)
  {
    hide Tracks, Regular, FindSlot, SerializeAccount, ToBytes, FromBytes, Table, Distinct;
    if FindSlot(accounts, a).Some? {
      FromToBytes(FindSlot(accounts, a).value);
    }
    if FindSlot(accounts, b).Some? {
      FromToBytes(FindSlot(accounts, b).value);
    }
    forall i | 0 <= i < |accounts| ensures FindSlot(accounts, accounts[i].account) == Some(i) {
      FindsIt(accounts, i);
    }
  }

  // ---------------------------------------------------------------- roots

  lemma LeavesOfTree(accounts: seq<AccountInfo>, slot: nat)
    requires |accounts| <= ACCOUNT_LIMIT && slot < ACCOUNT_LIMIT
    ensures Get(StateTree(accounts), SlotPath(slot)) ==
            if slot < |accounts| then SerializeAccount(accounts[slot]) else DEFAULT_VALUE
  {
    hide StateTree, SlotPath, SerializeAccount;
    SlotLeaf(accounts, slot);
    SmallSlot(slot);
  }

  lemma RecordIsNotDefault(a: AccountInfo)
    requires Regular(a)
    ensures SerializeAccount(a) != DEFAULT_VALUE
  {
    AccountSize(a);
  }

  lemma SameTreeSameAccounts(a: seq<AccountInfo>, b: seq<AccountInfo>)
    requires WellFormedLedger(a) && WellFormedLedger(b) && |a| <= |b| <= ACCOUNT_LIMIT && StateTree(a) == StateTree(b)
    ensures a == b
  {
    hide StateTree, SlotPath, SerializeAccount, InRange, Distinct;
    if |a| < |b| {
      LeavesOfTree(a, |a|);
      LeavesOfTree(b, |a|);
      RecordIsNotDefault(b[|a|]);
    }
    forall i | 0 <= i < |a| ensures a[i] == b[i] {
      LeavesOfTree(a, i);
      LeavesOfTree(b, i);
      assert Regular(a[i]) && Regular(b[i]);
      AccountBytesInjective(a[i], b[i]);
      StoredInRange(a[i]);
      StoredInRange(b[i]);
    }
  }

  /**
   A state root commits to the account list: two lists with one root are the same list, or two different strings
   hashed into their trees have the same hash. The strings are returned.
   */
  lemma StateRootBinds(h: Hasher, a: seq<AccountInfo>, b: seq<AccountInfo>) returns (x: bytes, y: bytes)
    requires WellFormedLedger(a) && WellFormedLedger(b) && |a| <= ACCOUNT_LIMIT && |b| <= ACCOUNT_LIMIT
    requires StateRoot(h, a) == StateRoot(h, b)
    ensures a == b || (x in Preimages(h, StateTree(a)) && y in Preimages(h, StateTree(b)) && Collide(h, x, y))
  {
    hide StateTree, WellFormedLedger, Preimages, Preimage, Perfect;
    x, y := RootsBind(h, StateTree(a), StateTree(b), LEVELS);
    if StateTree(a) == StateTree(b) {
      if |a| <= |b| {
        SameTreeSameAccounts(a, b);
      } else {
        SameTreeSameAccounts(b, a);
      }
    }
  }

  // ---------------------------------------------------------------- restarting over an old store

  /** NewStateMachine over a store that carries the init marker: nothing is written and the root is the empty tree's. */
  function Reopened(h: Hasher, st: TreeState): TreeState {
    st.(root := DefaultNode(h, HASH_BITS - STATE_CONFIG.height))
  }

  lemma {:induction false} PreimagesRecorded(h: Hasher, rec: set<bytes>, t: Tree, levels: nat)
    requires Perfect(t, levels) && forall p: Path :: |p| == levels ==> OnPath(h, rec, t, p)
    ensures Preimages(h, t) <= rec
    decreases levels
  {
    var left: Path, right: Path := seq(levels, _ => false), seq(levels, _ => true);
    assert OnPath(h, rec, t, left) && OnPath(h, rec, t, right);
    if levels > 0 {
      forall p: Path | |p| == levels - 1
        ensures OnPath(h, rec, t.left, p) && OnPath(h, rec, t.right, p)
      {
        assert ([false] + p)[1..] == p && ([true] + p)[1..] == p;
        assert OnPath(h, rec, t, [false] + p) && OnPath(h, rec, t, [true] + p);
      }
      PreimagesRecorded(h, rec, t.left, levels - 1);
      PreimagesRecorded(h, rec, t.right, levels - 1);
    }
  }

  lemma TrackedIsRecorded(h: Hasher, st: TreeState, accounts: seq<AccountInfo>)
    requires Tracks(h, STATE_CONFIG, st, StateTree(accounts), AllPaths(LEVELS))
    ensures Preimages(h, StateTree(accounts)) <= st.recorded
  {
    hide StateTree, OnPath, Backed, Preimages;
    forall p: Path | |p| == LEVELS ensures OnPath(h, st.recorded, StateTree(accounts), p) {
      assert p in AllPaths(LEVELS);
    }
    PreimagesRecorded(h, st.recorded, StateTree(accounts), LEVELS);
  }

  lemma DefaultsRecorded(h: Hasher, rec: set<bytes>, height: nat, levels: nat)
    requires ToSet(DefaultWrites(h, height)) <= rec && levels < height
    ensures Preimage(h, DefaultTree(levels)) in rec
  {
    hide Preimage, DefaultTree;
    assert DefaultWrites(h, height)[height - 1 - levels] in ToSet(DefaultWrites(h, height));
  }

  lemma ReopenedTracks(h: Hasher, st: TreeState)
    requires Backed(h, Some(STATE_TRIE), st.store, st.recorded)
    requires ToSet(DefaultWrites(h, STATE_CONFIG.height)) <= st.recorded
    ensures Tracks(h, STATE_CONFIG, Reopened(h, st), StateTree([]), AllPaths(LEVELS))
  {
    hide Backed, StateTree, DefaultTree, Preimage, OnPath, DefaultWrites, Perfect, HashOf;
    EmptyStateTree();
    forall k: nat | k <= LEVELS ensures Preimage(h, DefaultTree(k)) in st.recorded {
      DefaultsRecorded(h, st.recorded, STATE_CONFIG.height, k);
    }
    forall p: Path | |p| == LEVELS ensures OnPath(h, st.recorded, DefaultTree(LEVELS), p) {
      DefaultOnPath(h, LEVELS, p, st.recorded);
    }
  }

  lemma EmptySnapshot(h: Hasher, slot: nat)
    ensures Snapshot(h, [], slot) == Err(if slot >= UINT_LIMIT then KeyTooLong else BadEncoding)
  {
  }

  lemma EmptyTreeOnly(h: Hasher, st: TreeState, accounts: seq<AccountInfo>)
    requires Tracks(h, STATE_CONFIG, st, StateTree([]), AllPaths(LEVELS))
    requires Tracks(h, STATE_CONFIG, st, StateTree(accounts), AllPaths(LEVELS))
    requires WellFormedLedger(accounts) && |accounts| <= ACCOUNT_LIMIT && CollisionFree(h, st.recorded)
    ensures accounts == []
  {
    hide Tracks, StateTree, WellFormedLedger, Preimages, StateRoot, CollisionFree, Perfect;
    NoAccountsWellFormed();
    RootOfState(h, st, []);
    RootOfState(h, st, accounts);
    var x, y := StateRootBinds(h, accounts, []);
    TrackedIsRecorded(h, st, accounts);
    TrackedIsRecorded(h, st, []);
    NoCollision(h, st.recorded, x, y);
  }

  lemma NoCollision(h: Hasher, rec: set<bytes>, x: bytes, y: bytes)
    requires CollisionFree(h, rec)
    ensures x in rec && y in rec ==> !Collide(h, x, y)
  {
  }

  lemma AgreesWhenNotEmptied(h: Hasher, st: TreeState, accounts: seq<AccountInfo>)
    requires Agrees(h, st, accounts) && CollisionFree(h, st.recorded) && |accounts| <= ACCOUNT_LIMIT
    requires ToSet(DefaultWrites(h, STATE_CONFIG.height)) <= st.recorded
    ensures Agrees(h, Reopened(h, st), accounts) <==> accounts == []
  {
    hide Tracks, IndexAgrees, StateTree, Backed, DefaultWrites, WellFormedLedger, DefaultNode, CollisionFree, ToSet,
      Perfect, OnPath;
    AgreesIsBacked(h, st, accounts);
    ReopenedTracks(h, st);
    if Agrees(h, Reopened(h, st), accounts) {
      EmptyTreeOnly(h, Reopened(h, st), accounts);
    }
  }

  lemma AgreesIsBacked(h: Hasher, st: TreeState, accounts: seq<AccountInfo>)
    requires Agrees(h, st, accounts)
    ensures Backed(h, Some(STATE_TRIE), st.store, st.recorded)
  {
  }

  /**
   What a restart finds: every account record is still answered as before, yet the trie is the empty one, so no slot
   has a snapshot any more. Store, trie and account list agree again if and only if there were no accounts.
   */
  lemma RestartForgets(h: Hasher, reg: Registry, st: TreeState, accounts: seq<AccountInfo>, address: EthAddress,
          slot: nat)
    requires StateValid(h, reg, st, accounts) && StateSteps.Sound(h, st, accounts)
    requires ToSet(DefaultWrites(h, STATE_CONFIG.height)) <= st.recorded
    ensures AccountRead(Reopened(h, st).store, address) == AccountAt(accounts, address)
    ensures SnapshotRead(h, Reopened(h, st), ToBytes(slot)) ==
            Err(if slot >= UINT_LIMIT then KeyTooLong else BadEncoding)
    ensures StateValid(h, reg, Reopened(h, st), accounts) <==> accounts == []
  {
    hide Agrees, Backed, DefaultWrites, AccountRead, AccountAt, SnapshotRead, Snapshot, Tracks, CollisionFree, ToSet,
      Perfect, StateTree, DefaultNode, RegistryAgrees, Usable, WellFormedLedger;
    AccountReadIsListed(h, st, accounts, address);
    ReopenedTracks(h, st);
    NoAccountsWellFormed();
    SnapshotIsListed(h, Reopened(h, st), [], slot);
    EmptySnapshot(h, slot);
    AgreesWhenNotEmptied(h, st, accounts);
  }

  lemma NoAccountsWellFormed()
    ensures WellFormedLedger([])
  {
  }

  // ---------------------------------------------------------------- the one entry that does not certify itself

  lemma SelfTransferRecords(reg: Registry, accounts: seq<AccountInfo>, tx: Transaction)
    requires WellFormedLedger(accounts) && Usable(reg) && Accepted(reg, accounts, tx) && SelfTransfer(tx)
    ensures var out := Apply(reg, accounts, tx);
            var slot := FindSlot(out.accounts, tx.sender);
            && |out.result.value| == 2 && out.result.value[0].info.account == tx.sender && slot.Some?
            && SerializeAccount(out.result.value[0].info) != SerializeAccount(out.accounts[slot.value])
  {
    hide Regular, FindSlot, SerializeAccount, Credit, Stored, Distinct, Storable, GetOrCreate, Apply, SameNonces;
    AcceptedIsMapped(reg, accounts, tx);
    var k := reg.toIndex[tx.token];
    var out := Apply(reg, accounts, tx);
    var found := GetOrCreate(accounts, tx.recipient, k + 1);
    var a := found.accounts[found.slot];
    var kept := Stored(Credit(a, k, tx.amount));
    GetOrCreateKeeps(accounts, tx.recipient, k + 1);
    ApplyKeepsWellFormed(reg, accounts, tx);
    SelfTransferAccounts(reg, accounts, tx);
    FindAfterCreate(accounts, tx.recipient, k + 1, tx.sender);
    CreditAccount(a, k, tx.amount);
    StoredAccount(Credit(a, k, tx.amount));
    FindAfterReplace(found.accounts, found.slot, kept, tx.sender);
    CreditKeepsNonces(a, k, tx.amount);
    FirstRecord(reg, accounts, tx);
    NoncesDiffer(a, out.result.value[0].info, kept, k, tx.nonce);
  }

  lemma FirstRecord(reg: Registry, accounts: seq<AccountInfo>, tx: Transaction)
    requires Accepted(reg, accounts, tx) && SelfTransfer(tx)
    ensures var k, updates := reg.toIndex[tx.token], Apply(reg, accounts, tx).result.value;
            var found := GetOrCreate(accounts, tx.recipient, k + 1);
            var a := found.accounts[found.slot];
            && |updates| == 2 && updates[0].info.account == tx.sender
            && k < |a.transferNonces| && a.transferNonces[k] == tx.nonce
               && At(updates[0].info.transferNonces, k) == tx.nonce + 1
  {
    hide FindSlot, Credit, Stored, GetOrCreate;
    AcceptedIsMapped(reg, accounts, tx);
    FindAfterCreate(accounts, tx.recipient, reg.toIndex[tx.token] + 1, tx.sender);
  }

  lemma NoncesDiffer(a: AccountInfo, first: AccountInfo, kept: AccountInfo, k: nat, nonce: int)
    requires Regular(a) && Storable(first) && Regular(kept)
    requires k < |a.transferNonces| && a.transferNonces[k] == nonce && At(first.transferNonces, k) == nonce + 1
    requires SameNonces(kept, a)
    ensures SerializeAccount(first) != SerializeAccount(kept)
  {
    hide SerializeAccount, Stored;
    AccountBytesInjective(first, kept);
    StoredInRange(kept);
    StoredNonces(first, k);
    assert At(kept.transferNonces, k) == At(a.transferNonces, k);
    NextIsOther(nonce);
  }

  lemma StoredNonces(a: AccountInfo, k: nat)
    ensures At(Stored(a).transferNonces, k) == Wrap(At(a.transferNonces, k))
  {
    hide WrapAll, Wrap;
    StoredAt(a.transferNonces, k);
  }

  lemma NextIsOther(nonce: int)
    requires 0 <= nonce < UINT_LIMIT
    ensures Wrap(nonce + 1) != nonce
  {
  }

  /**
   The sender's entry of an accepted self-transfer was overwritten before it was proved: it does not fold to the
   returned root, or the two foldings hash two different strings to one digest at the returned level.
   */
  lemma SelfTransferEntryFails(h: Hasher, reg: Registry, accounts: seq<AccountInfo>, tx: Transaction)
          returns (level: nat)
    requires WellFormedLedger(accounts) && Usable(reg) && SelfTransfer(tx)
    requires UpdateFor(h, reg, accounts, tx).Ok? && |Apply(reg, accounts, tx).accounts| <= ACCOUNT_LIMIT
    ensures level <= LEVELS && |UpdateFor(h, reg, accounts, tx).value.entries| == 2
    ensures var update := UpdateFor(h, reg, accounts, tx).value;
            var e, kept := update.entries[0], update.entries[1];
            && e.slotIndex == kept.slotIndex && e.inclusionProof == kept.inclusionProof && |e.inclusionProof| == LEVELS
            && (Folds(h, SlotPath(e.slotIndex), SerializeAccount(e.accountInfo), e.inclusionProof, update.stateRoot) ==>
                  var sides := FitAll(Reverse(e.inclusionProof));
                  Collide(h, FoldPreimages(h, SlotPath(e.slotIndex), SerializeAccount(e.accountInfo), sides)[level],
                             FoldPreimages(h, SlotPath(e.slotIndex), SerializeAccount(kept.accountInfo), sides)[level]))
  {
    hide StateTree, WellFormedLedger, FindSlot, SerializeAccount, FoldPreimages, StateRoot, SlotPath, FitAll, Apply,
      Stored;
    var out := Apply(reg, accounts, tx);
    SelfTransferRecords(reg, accounts, tx);
    EntriesCertifyThemselves(h, reg, accounts, tx, 1);
    SameEntries(h, reg, accounts, tx);
    WrittenRecord(reg, accounts, tx, 1);
    StoredBytes(out.result.value[1].info);
    var update := UpdateFor(h, reg, accounts, tx).value;
    var e, kept := update.entries[0], update.entries[1];
    level := 0;
    if Folds(h, SlotPath(e.slotIndex), SerializeAccount(e.accountInfo), e.inclusionProof, update.stateRoot) {
      var sides := FitAll(Reverse(e.inclusionProof));
      level := Binding(h, SlotPath(e.slotIndex), SerializeAccount(e.accountInfo), sides,
        SerializeAccount(kept.accountInfo), sides);
    }
  }

  lemma SameEntries(h: Hasher, reg: Registry, accounts: seq<AccountInfo>, tx: Transaction)
    requires SelfTransfer(tx) && UpdateFor(h, reg, accounts, tx).Ok?
    ensures var out := Apply(reg, accounts, tx);
            var update := UpdateFor(h, reg, accounts, tx).value;
            && |out.result.value| == 2 && |update.entries| == 2
            && update.entries[0].accountInfo == out.result.value[0].info
               && update.entries[1].accountInfo == out.result.value[1].info
            && out.result.value[1].info.account == tx.sender
            && update.entries[0].slotIndex == update.entries[1].slotIndex
            && update.entries[0].inclusionProof == update.entries[1].inclusionProof
  {
    hide StateRoot, SlotProof, FindSlot, Stored;
  }
}
