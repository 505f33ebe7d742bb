/**
 The account list a state machine maintains, as a function of the transactions: account i of the list
 has slot i. The methods of StateMachine are proved to compute exactly this.
 */
module Ledger {
  import opened ByteStrings
  import opened Errors
  import opened Abi
  import opened Accounts

  datatype Transaction =
    | DepositTransaction(account: EthAddress, token: EthAddress, amount: int, signature: bytes)
    | WithdrawTransaction(account: EthAddress, token: EthAddress, amount: int, nonce: int, signature: bytes)
    | TransferTransaction(sender: EthAddress, recipient: EthAddress, token: EthAddress, amount: int, nonce: int,
      signature: bytes)

  /** Token address to index, and index to token address, as two separate tables of the store. */
  datatype Registry = Registry(toIndex: map<EthAddress, nat>, toToken: map<nat, EthAddress>)

  /** Larger indices cannot be the length of a Go slice less one. */
  ghost predicate Usable(reg: Registry) {
    forall token :: token in reg.toIndex ==> reg.toIndex[token] < MAX_LENGTH - 1
  }

  /** AccountInfoUpdate: the record as computed, before storing cuts its numbers to 256 bits. */
  datatype AccountInfoUpdate = AccountInfoUpdate(info: AccountInfo, newAccount: bool)

  /** A rejected transaction can still have created an account. */
  datatype Outcome = Outcome(accounts: seq<AccountInfo>, result: Result<seq<AccountInfoUpdate>>)

  function FindSlot(accounts: seq<AccountInfo>, address: bytes): (r: Option<nat>)
    ensures r.Some? ==> r.value < |accounts| && accounts[r.value].account == address
    ensures r.None? ==> forall a :: a in accounts ==> a.account != address
  {
    if accounts == [] then None
    else
      var n := |accounts| - 1;
      match FindSlot(accounts[..n], address)
      case Some(i) => Some(i)
      case None => if accounts[n].account == address then Some(n) else None
  }

  function ZeroInts(n: nat): (z: seq<int>)
    ensures |z| == n && forall i :: 0 <= i < n ==> z[i] == 0
  {
    seq(n, _ => 0)
  }

  function ZeroAccount(address: bytes, numTokens: nat): AccountInfo {
    AccountInfo(address, ZeroInts(numTokens), ZeroInts(numTokens), ZeroInts(numTokens))
  }

  function Expand(a: AccountInfo, tokenIndex: nat): (r: AccountInfo)
    ensures tokenIndex < |r.balances|
  {
    if tokenIndex >= |a.balances| then
      var more := ZeroInts(tokenIndex + 1 - |a.balances|);
      AccountInfo(a.account, a.balances + more, a.transferNonces + more, a.withdrawNonces + more)
    else a
  }

  /** The array grew by that many zeros at its end. */
  predicate Filled(before: seq<int>, after: seq<int>, more: nat) {
    && |after| == |before| + more
    && (forall i :: 0 <= i < |before| ==> after[i] == before[i])
    && (forall i :: |before| <= i < |after| ==> after[i] == 0)
  }

  /** All three arrays grow alike, by zeros, exactly until the balances have an entry for the token. */
  predicate Widened(a: AccountInfo, wide: AccountInfo, tokenIndex: nat) {
    && wide.account == a.account
    && |wide.balances| == (if |a.balances| > tokenIndex then |a.balances| else tokenIndex + 1)
    && Filled(a.balances, wide.balances, |wide.balances| - |a.balances|)
    && Filled(a.transferNonces, wide.transferNonces, |wide.balances| - |a.balances|)
    && Filled(a.withdrawNonces, wide.withdrawNonces, |wide.balances| - |a.balances|)
  }

  lemma ExpandWidens(a: AccountInfo, tokenIndex: nat)
    ensures Widened(a, Expand(a, tokenIndex), tokenIndex)
  {
  }

  function Credit(a: AccountInfo, tokenIndex: nat, amount: int): AccountInfo {
    var wide := Expand(a, tokenIndex);
    wide.(balances := wide.balances[tokenIndex := wide.balances[tokenIndex] + amount])
  }

  datatype Located = Located(accounts: seq<AccountInfo>, slot: nat, isNew: bool)

  function GetOrCreate(accounts: seq<AccountInfo>, address: bytes, numTokens: nat): (r: Located)
    ensures r.slot < |r.accounts| && r.accounts[r.slot].account == address
  {
    match FindSlot(accounts, address)
    case Some(slot) => Located(accounts, slot, false)
    case None => Located(accounts + [ZeroAccount(address, numTokens)], |accounts|, true)
  }

  function ApplyDeposit(accounts: seq<AccountInfo>, tokenIndex: nat, address: bytes, amount: int): Outcome {
    var found := GetOrCreate(accounts, address, tokenIndex + 1);
    if amount < 0 then Outcome(found.accounts, Err(InvalidAmount))
    else
      var updated := Credit(found.accounts[found.slot], tokenIndex, amount);
      Outcome(found.accounts[found.slot := Stored(updated)], Ok([AccountInfoUpdate(updated, found.isNew)]))
  }

  function ApplyWithdraw(accounts: seq<AccountInfo>, tokenIndex: nat, address: bytes, amount: int,
          nonce: int): Outcome {
    match FindSlot(accounts, address)
    case None => Outcome(accounts, Err(AccountNotFound))
    case Some(slot) =>
      var a := accounts[slot];
      if amount < 0 then Outcome(accounts, Err(InvalidAmount))
      else if tokenIndex >= |a.balances| then Outcome(accounts, Err(InsufficientBalance))
      else if a.balances[tokenIndex] < amount then Outcome(accounts, Err(InsufficientBalance))
      else if tokenIndex >= |a.withdrawNonces| then Outcome(accounts, Err(Panic))
      else if a.withdrawNonces[tokenIndex] != nonce then Outcome(accounts, Err(InvalidNonce))
      else
        var updated := a.(balances := a.balances[tokenIndex := a.balances[tokenIndex] - amount],
                          withdrawNonces := a.withdrawNonces[tokenIndex := nonce + 1]);
        Outcome(accounts[slot := Stored(updated)], Ok([AccountInfoUpdate(updated, false)]))
  }

  /** Sender and recipient are separate copies; the recipient's is written last. */
  function ApplyTransfer(accounts: seq<AccountInfo>, tokenIndex: nat, sender: bytes, recipient: bytes, amount: int,
          nonce: int)
    : Outcome
  {
    var found := GetOrCreate(accounts, recipient, tokenIndex + 1);
    var base := found.accounts;
    match FindSlot(base, sender)
    case None => Outcome(base, Err(AccountNotFound))
    case Some(slot) =>
      var a := base[slot];
      if amount < 0 then Outcome(base, Err(InvalidAmount))
      else if tokenIndex > |a.balances| then Outcome(base, Err(SenderNoSuchToken))
      else if tokenIndex >= |a.transferNonces| then Outcome(base, Err(Panic))
      else if a.transferNonces[tokenIndex] != nonce then Outcome(base, Err(InvalidNonce))
      else if tokenIndex >= |a.balances| then Outcome(base, Err(Panic))
      else if a.balances[tokenIndex] < amount then Outcome(base, Err(InsufficientBalance))
      else
        var updatedSender := a.(balances := a.balances[tokenIndex := a.balances[tokenIndex] - amount],
                                transferNonces := a.transferNonces[tokenIndex := nonce + 1]);
        var updatedRecipient := Credit(base[found.slot], tokenIndex, amount);
        Outcome(base[slot := Stored(updatedSender)][found.slot := Stored(updatedRecipient)],
                Ok([AccountInfoUpdate(updatedSender, false), AccountInfoUpdate(updatedRecipient, found.isNew)]))
  }

  function Apply(reg: Registry, accounts: seq<AccountInfo>, tx: Transaction): Outcome {
    if tx.token !in reg.toIndex then Outcome(accounts, Err(TokenNotMapped))
    else
      var tokenIndex := reg.toIndex[tx.token];
      match tx
      case DepositTransaction(account, _, amount, _) => ApplyDeposit(accounts, tokenIndex, account, amount)
      case WithdrawTransaction(account, _, amount, nonce, _) => ApplyWithdraw(accounts, tokenIndex, account, amount,
        nonce)
      case TransferTransaction(sender, recipient, _, amount, nonce, _) =>
        ApplyTransfer(accounts, tokenIndex, sender, recipient, amount, nonce)
  }

  function Run(reg: Registry, txs: seq<Transaction>): seq<AccountInfo> {
    if txs == [] then [] else Apply(reg, Run(reg, txs[..|txs| - 1]), txs[|txs| - 1]).accounts
  }

  // ---------------------------------------------------------------- well-formed ledgers

  predicate Regular(a: AccountInfo) {
    && |a.account| == 20 && InRange(a)
    && |a.balances| == |a.transferNonces| == |a.withdrawNonces| < MAX_LENGTH
  }

  ghost predicate Distinct(accounts: seq<AccountInfo>) {
    forall i, j :: 0 <= i < j < |accounts| ==> accounts[i].account != accounts[j].account
  }

  ghost predicate WellFormedLedger(accounts: seq<AccountInfo>) {
    Distinct(accounts) && forall i :: 0 <= i < |accounts| ==> Regular(accounts[i])
  }

  lemma WellFormedIsDistinct(accounts: seq<AccountInfo>)
    requires WellFormedLedger(accounts)
    ensures Distinct(accounts)
  {
  }

  lemma StoredRegular(a: AccountInfo)
    requires |a.account| == 20 && |a.balances| == |a.transferNonces| == |a.withdrawNonces| < MAX_LENGTH
    ensures Regular(Stored(a))
  {
    hide Wrap, WrapAll;
    StoredInRange(a);
  }

  lemma ZeroRegular(address: bytes, n: nat)
    requires |address| == 20 && n < MAX_LENGTH
    ensures Regular(ZeroAccount(address, n)) && Stored(ZeroAccount(address, n)) == ZeroAccount(address, n)
  {
    hide Wrap, WrapAll;
    StoredInRange(ZeroAccount(address, n));
  }

  lemma ReplaceKeeps(accounts: seq<AccountInfo>, slot: nat, a: AccountInfo)
    requires WellFormedLedger(accounts) && slot < |accounts| && Regular(a) && a.account == accounts[slot].account
    ensures WellFormedLedger(accounts[slot := a])
  {
  }

  lemma AppendKeeps(accounts: seq<AccountInfo>, a: AccountInfo)
    requires WellFormedLedger(accounts) && Regular(a) && FindSlot(accounts, a.account).None?
    ensures WellFormedLedger(accounts + [a])
  {
    hide Regular, FindSlot;
    forall i | 0 <= i < |accounts| ensures accounts[i].account != a.account {
      assert accounts[i] in accounts;
    }
  }

  lemma GetOrCreateKeeps(accounts: seq<AccountInfo>, address: bytes, n: nat)
    requires WellFormedLedger(accounts) && |address| == 20 && n < MAX_LENGTH
    ensures WellFormedLedger(GetOrCreate(accounts, address, n).accounts)
  {
    hide Regular;
    ZeroRegular(address, n);
  }

  /** Addresses stay distinct, the three arrays of an account equally long, and stored numbers within 256 bits. */
  lemma ApplyKeepsWellFormed(reg: Registry, accounts: seq<AccountInfo>, tx: Transaction)
    requires WellFormedLedger(accounts) && Usable(reg)
    ensures WellFormedLedger(Apply(reg, accounts, tx).accounts)
    ensures Apply(reg, accounts, tx).result.Ok? ==>
              forall u :: u in Apply(reg, accounts, tx).result.value ==> Storable(u.info)
  {
    hide Stored, InRange, Wrap, WrapAll, FindSlot, Distinct;
    if tx.token in reg.toIndex {
      var k := reg.toIndex[tx.token];
      match tx
      case DepositTransaction(account, _, amount, _) =>
        var found := GetOrCreate(accounts, account, k + 1);
        GetOrCreateKeeps(accounts, account, k + 1);
        var updated := Credit(found.accounts[found.slot], k, amount);
        StoredRegular(updated);
        StoredAccount(updated);
        ReplaceKeeps(found.accounts, found.slot, Stored(updated));
      case WithdrawTransaction(account, _, amount, nonce, _) =>
        var out := ApplyWithdraw(accounts, k, account, amount, nonce);
        if out.result.Ok? {
          var updated := out.result.value[0].info;
          StoredRegular(updated);
          StoredAccount(updated);
          ReplaceKeeps(accounts, FindSlot(accounts, account).value, Stored(updated));
        }
      case TransferTransaction(sender, recipient, _, amount, nonce, _) =>
        TransferKeepsWellFormed(accounts, k, sender, recipient, amount, nonce);
    }
  }

  lemma StoredAccount(a: AccountInfo)
    ensures Stored(a).account == a.account
  {
  }

  lemma CreditAccount(a: AccountInfo, tokenIndex: nat, amount: int)
    ensures Credit(a, tokenIndex, amount).account == a.account
  {
  }

  lemma TransferKeepsWellFormed(accounts: seq<AccountInfo>, k: nat, sender: bytes, recipient: bytes, amount: int,
          nonce: int)
    requires WellFormedLedger(accounts) && |recipient| == 20 && k < MAX_LENGTH - 1
    ensures var out := ApplyTransfer(accounts, k, sender, recipient, amount, nonce);
            && WellFormedLedger(out.accounts)
            && (out.result.Ok? ==> forall u :: u in out.result.value ==> Storable(u.info))
  {
    hide Stored, InRange, Wrap, WrapAll;
    var found := GetOrCreate(accounts, recipient, k + 1);
    GetOrCreateKeeps(accounts, recipient, k + 1);
    var out := ApplyTransfer(accounts, k, sender, recipient, amount, nonce);
    if out.result.Ok? {
      var from, to := out.result.value[0].info, out.result.value[1].info;
      var slot := FindSlot(found.accounts, sender).value;
      StoredRegular(from);
      StoredRegular(to);
      StoredAccount(from);
      StoredAccount(to);
      ReplaceKeeps(found.accounts, slot, Stored(from));
      ReplaceKeeps(found.accounts[slot := Stored(from)], found.slot, Stored(to));
    }
  }

  // ---------------------------------------------------------------- finding accounts

  lemma FindAppended(accounts: seq<AccountInfo>, a: AccountInfo, b: bytes)
    requires FindSlot(accounts, a.account).None?
    ensures FindSlot(accounts + [a], b) == if b == a.account then Some(|accounts|) else FindSlot(accounts, b)
  {
    assert (accounts + [a])[..|accounts|] == accounts;
  }

  lemma FindAfterReplace(accounts: seq<AccountInfo>, slot: nat, a: AccountInfo, address: bytes)
    requires Distinct(accounts) && slot < |accounts| && a.account == accounts[slot].account
    ensures FindSlot(accounts[slot := a], address) == FindSlot(accounts, address)
  {
    var replaced := accounts[slot := a];
    var found, found' := FindSlot(accounts, address), FindSlot(replaced, address);
    assert Distinct(replaced);
    assert found.Some? ==> replaced[found.value].account == address && replaced[found.value] in replaced;
    assert found'.Some? ==> accounts[found'.value].account == address && accounts[found'.value] in accounts;
  }

  lemma FindsIt(accounts: seq<AccountInfo>, slot: nat)
    requires Distinct(accounts) && slot < |accounts|
    ensures FindSlot(accounts, accounts[slot].account) == Some(slot)
  {
    var found := FindSlot(accounts, accounts[slot].account);
    assert accounts[slot] in accounts;
  }

  lemma FindAfterCreate(accounts: seq<AccountInfo>, address: bytes, n: nat, other: bytes)
    ensures var found := GetOrCreate(accounts, address, n);
            FindSlot(found.accounts, other) ==
            if other == address then Some(found.slot) else FindSlot(accounts, other)
  {
    hide FindSlot, ZeroAccount;
    if FindSlot(accounts, address).None? {
      ZeroAddress(address, n);
      FindAppended(accounts, ZeroAccount(address, n), other);
    }
  }

  lemma ZeroAddress(address: bytes, n: nat)
    ensures ZeroAccount(address, n).account == address
  {
  }

  // ---------------------------------------------------------------- rejections

  /** The account a transaction creates when it is missing. */
  function Target(tx: Transaction): Option<EthAddress> {
    match tx
    case DepositTransaction(account, _, _, _) => Some(account)
    case WithdrawTransaction(_, _, _, _, _) => None
    case TransferTransaction(_, recipient, _, _, _, _) => Some(recipient)
  }

  predicate Creates(reg: Registry, accounts: seq<AccountInfo>, tx: Transaction) {
    tx.token in reg.toIndex && Target(tx).Some? && FindSlot(accounts, Target(tx).value).None?
  }

  /**
   A rejected transaction leaves every account as it was; it appends one all-zero account exactly when its target is
   missing.
   */
  lemma RejectionEffect(reg: Registry, accounts: seq<AccountInfo>, tx: Transaction)
    requires Apply(reg, accounts, tx).result.Err?
    ensures Apply(reg, accounts, tx).accounts ==
            if Creates(reg, accounts, tx) then accounts + [ZeroAccount(Target(tx).value, reg.toIndex[tx.token] + 1)]
              else accounts
  {
    hide Stored, Credit, FindSlot, Expand;
  }

  lemma KeepsAddress(accounts: seq<AccountInfo>, slot: nat, a: AccountInfo)
    requires slot < |accounts| && a.account == accounts[slot].account
    ensures forall i :: 0 <= i < |accounts| ==> accounts[slot := a][i].account == accounts[i].account
  {
  }

  /** An account appears exactly when a mapped token meets a missing target, accepted or not. */
  lemma CreatesGrows(reg: Registry, accounts: seq<AccountInfo>, tx: Transaction)
    ensures |Apply(reg, accounts, tx).accounts| == |accounts| + if Creates(reg, accounts, tx) then 1 else 0
    ensures forall i :: 0 <= i < |accounts| ==> Apply(reg, accounts, tx).accounts[i].account == accounts[i].account
  {
    hide Stored, Credit, FindSlot;
    var out := Apply(reg, accounts, tx);
    if out.result.Ok? {
      var k := reg.toIndex[tx.token];
      var first := out.result.value[0].info;
      StoredAccount(first);
      match tx
      case DepositTransaction(account, _, amount, _) =>
        var found := GetOrCreate(accounts, account, k + 1);
        CreditAccount(found.accounts[found.slot], k, amount);
        KeepsAddress(found.accounts, found.slot, Stored(first));
      case WithdrawTransaction(account, _, amount, nonce, _) =>
        KeepsAddress(accounts, FindSlot(accounts, account).value, Stored(first));
      case TransferTransaction(sender, recipient, _, amount, nonce, _) =>
        var found := GetOrCreate(accounts, recipient, k + 1);
        var second := out.result.value[1].info;
        var slot := FindSlot(found.accounts, sender).value;
        CreditAccount(found.accounts[found.slot], k, amount);
        StoredAccount(second);
        KeepsAddress(found.accounts, slot, Stored(first));
        KeepsAddress(found.accounts[slot := Stored(first)], found.slot, Stored(second));
    }
  }
}
