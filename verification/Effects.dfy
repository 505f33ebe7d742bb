/** What each transaction does to each account, without saying how: who is paid, who pays, and who is refused. */
module Effects {
  import opened ByteStrings
  import opened Errors
  import opened Abi
  import opened Accounts
  import opened Ledger
  import opened LedgerTheorems

  /** The record of an address; an address without an account holds nothing. */
  function Held(accounts: seq<AccountInfo>, address: bytes): AccountInfo {
    match FindSlot(accounts, address)
    case Some(slot) => accounts[slot]
    case None => AccountInfo(address, [], [], [])
  }

  function BalanceOf(accounts: seq<AccountInfo>, address: bytes, k: nat): int {
    At(Held(accounts, address).balances, k)
  }

  /** How many tokens an address has entries for. */
  function TokensOf(accounts: seq<AccountInfo>, address: bytes): nat {
    |Held(accounts, address).balances|
  }

  predicate IsListed(accounts: seq<AccountInfo>, address: bytes) {
    FindSlot(accounts, address).Some?
  }

  lemma NoncesHeld(accounts: seq<AccountInfo>, address: bytes, k: nat)
    ensures TransferNonce(accounts, address, k) == At(Held(accounts, address).transferNonces, k)
    ensures WithdrawNonce(accounts, address, k) == At(Held(accounts, address).withdrawNonces, k)
  {
    hide FindSlot;
  }

  lemma HeldIsRegular(accounts: seq<AccountInfo>, address: bytes)
    requires WellFormedLedger(accounts)
    ensures var a := Held(accounts, address);
            && a.account == address && InRange(a)
            && |a.balances| == |a.transferNonces| == |a.withdrawNonces|
  {
    hide FindSlot;
    if FindSlot(accounts, address).Some? {
      assert Regular(accounts[FindSlot(accounts, address).value]);
    }
  }

  lemma BalanceInRange(accounts: seq<AccountInfo>, address: bytes, k: nat)
    requires WellFormedLedger(accounts)
    ensures 0 <= BalanceOf(accounts, address, k) < UINT_LIMIT
    ensures k >= TokensOf(accounts, address) ==> BalanceOf(accounts, address, k) == 0
  {
    hide FindSlot, WellFormedLedger;
    HeldIsRegular(accounts, address);
  }

  // ---------------------------------------------------------------- who is accepted

  /**
   The payer of a withdrawal or a transfer: listed with the token and enough of it, and naming
   the next nonce. A transfer to oneself also opens an account with nothing in it.
   */
  predicate CanPay(accounts: seq<AccountInfo>, payer: bytes, isNew: bool, k: nat, amount: int, nonce: int,
          expected: int) {
    && (isNew || (IsListed(accounts, payer) && k < TokensOf(accounts, payer)))
    && 0 <= amount <= BalanceOf(accounts, payer, k) && nonce == expected
  }

  /** The transactions the node takes. */
  predicate Acceptable(reg: Registry, accounts: seq<AccountInfo>, tx: Transaction) {
    && tx.token in reg.toIndex
    && var k := reg.toIndex[tx.token];
       match tx
       case DepositTransaction(_, _, amount, _) => amount >= 0
       case WithdrawTransaction(account, _, amount, nonce, _) =>
         CanPay(accounts, account, false, k, amount, nonce, WithdrawNonce(accounts, account, k))
       case TransferTransaction(sender, recipient, _, amount, nonce, _) =>
         CanPay(accounts, sender, sender == recipient && !IsListed(accounts, recipient), k, amount, nonce,
                TransferNonce(accounts, sender, k))
  }

  lemma HeldAfterCreate(accounts: seq<AccountInfo>, address: bytes, n: nat, b: bytes)
    ensures var found := GetOrCreate(accounts, address, n);
            && Held(found.accounts, b) ==
               (if b == address && !IsListed(accounts, address) then ZeroAccount(address, n) else Held(accounts, b))
            && found.accounts[found.slot] == Held(found.accounts, address)
            && (IsListed(found.accounts, b) <==> b == address || IsListed(accounts, b))
            && FindSlot(found.accounts, address) == Some(found.slot)
  {
    hide FindSlot, ZeroAccount;
    FindAfterCreate(accounts, address, n, b);
    FindAfterCreate(accounts, address, n, address);
  }

  lemma HeldAfterReplace(accounts: seq<AccountInfo>, slot: nat, a: AccountInfo, b: bytes)
    requires Distinct(accounts) && slot < |accounts| && a.account == accounts[slot].account
    ensures Held(accounts[slot := a], b) == if b == a.account then a else Held(accounts, b)
  {
    hide FindSlot, Distinct;
    FindAfterReplace(accounts, slot, a, b);
    FindsIt(accounts, slot);
  }

  lemma WithdrawAcceptedIff(accounts: seq<AccountInfo>, k: nat, account: bytes, amount: int, nonce: int)
    requires WellFormedLedger(accounts)
    ensures ApplyWithdraw(accounts, k, account, amount, nonce).result.Ok? <==>
            CanPay(accounts, account, false, k, amount, nonce, WithdrawNonce(accounts, account, k))
  {
    hide Stored, FindSlot, WellFormedLedger;
    HeldIsRegular(accounts, account);
  }

  lemma TransferAcceptedIff(accounts: seq<AccountInfo>, k: nat, sender: bytes, recipient: bytes, amount: int,
          nonce: int)
    requires WellFormedLedger(accounts) && |recipient| == 20 && k < MAX_LENGTH - 1
    ensures ApplyTransfer(accounts, k, sender, recipient, amount, nonce).result.Ok? <==>
            CanPay(accounts, sender, sender == recipient && !IsListed(accounts, recipient), k, amount, nonce,
                   TransferNonce(accounts, sender, k))
  {
    hide Stored, FindSlot, WellFormedLedger, Credit, GetOrCreate, ZeroInts;
    HeldAfterCreate(accounts, recipient, k + 1, sender);
    GetOrCreateKeeps(accounts, recipient, k + 1);
    var found := GetOrCreate(accounts, recipient, k + 1);
    HeldIsRegular(found.accounts, sender);
    HeldIsRegular(accounts, sender);
    NoncesHeld(accounts, sender, k);
  }

  /** Acceptance, in terms of balances and nonces alone. */
  lemma AcceptedIff(reg: Registry, accounts: seq<AccountInfo>, tx: Transaction)
    requires WellFormedLedger(accounts) && Usable(reg)
    ensures Accepted(reg, accounts, tx) <==> Acceptable(reg, accounts, tx)
  {
    hide ApplyWithdraw, ApplyTransfer, WellFormedLedger, CanPay, FindSlot;
    if tx.token in reg.toIndex {
      var k := reg.toIndex[tx.token];
      match tx
      case DepositTransaction(_, _, _, _) =>
      case WithdrawTransaction(account, _, amount, nonce, _) => WithdrawAcceptedIff(accounts, k, account, amount,
        nonce);
      case TransferTransaction(sender, recipient, _, amount, nonce, _) =>
        TransferAcceptedIff(accounts, k, sender, recipient, amount, nonce);
    }
  }

  // ---------------------------------------------------------------- why others are refused

  /** Whose balance a transaction draws on. */
  function Payer(tx: Transaction): Option<EthAddress> {
    match tx
    case DepositTransaction(_, _, _, _) => None
    case WithdrawTransaction(account, _, _, _, _) => Some(account)
    case TransferTransaction(sender, _, _, _, _, _) => Some(sender)
  }

  /** A payer is unknown when it is not listed and the transaction does not create it either. */
  predicate UnknownPayer(accounts: seq<AccountInfo>, tx: Transaction) {
    Payer(tx).Some? && !IsListed(accounts, Payer(tx).value) && !(tx.TransferTransaction? && SelfTransfer(tx))
  }

  /** The entries a payer has when its balance is looked at. */
  function PayerTokens(reg: Registry, accounts: seq<AccountInfo>, tx: Transaction): nat
    requires tx.token in reg.toIndex && Payer(tx).Some?
  {
    if IsListed(accounts, Payer(tx).value) then TokensOf(accounts, Payer(tx).value) else reg.toIndex[tx.token] + 1
  }

  /** The checks in the order they are made: token, payer, sign, and then nonce and balance as each kind orders them. */
  predicate RefusedWith(reg: Registry, accounts: seq<AccountInfo>, tx: Transaction, error: Error) {
    if tx.token !in reg.toIndex then error == TokenNotMapped
    else if UnknownPayer(accounts, tx) then error == AccountNotFound
    else if tx.amount < 0 then error == InvalidAmount
    else
      var k := reg.toIndex[tx.token];
      match tx
      case DepositTransaction(_, _, _, _) => false
      case WithdrawTransaction(account, _, amount, nonce, _) =>
        if k >= TokensOf(accounts, account) || BalanceOf(accounts, account, k) < amount
        then error == InsufficientBalance
        else error == InvalidNonce && nonce != WithdrawNonce(accounts, account, k)
      case TransferTransaction(sender, _, _, amount, nonce, _) =>
        var n := PayerTokens(reg, accounts, tx);
        if k > n then error == SenderNoSuchToken
        else if k == n then error == Panic
        else if nonce != TransferNonce(accounts, sender, k) then error == InvalidNonce
        else error == InsufficientBalance && BalanceOf(accounts, sender, k) < amount
  }

  lemma WithdrawRefused(accounts: seq<AccountInfo>, k: nat, account: bytes, amount: int, nonce: int)
    requires WellFormedLedger(accounts)
    ensures var result := ApplyWithdraw(accounts, k, account, amount, nonce).result;
            result.Err? ==>
              if !IsListed(accounts, account) then result.error == AccountNotFound
              else if amount < 0 then result.error == InvalidAmount
              else if k >= TokensOf(accounts, account) || BalanceOf(accounts, account, k) < amount
                then result.error == InsufficientBalance
              else result.error == InvalidNonce && nonce != WithdrawNonce(accounts, account, k)
  {
    hide Stored, FindSlot, WellFormedLedger;
    HeldIsRegular(accounts, account);
  }

  lemma TransferRefused(accounts: seq<AccountInfo>, k: nat, sender: bytes, recipient: bytes, amount: int, nonce: int)
    requires WellFormedLedger(accounts) && |recipient| == 20 && k < MAX_LENGTH - 1
    ensures var result := ApplyTransfer(accounts, k, sender, recipient, amount, nonce).result;
            var n := if IsListed(accounts, sender) then TokensOf(accounts, sender) else k + 1;
            result.Err? ==>
              if !IsListed(accounts, sender) && sender != recipient then result.error == AccountNotFound
              else if amount < 0 then result.error == InvalidAmount
              else if k > n then result.error == SenderNoSuchToken
              else if k == n then result.error == Panic
              else if nonce != TransferNonce(accounts, sender, k) then result.error == InvalidNonce
              else result.error == InsufficientBalance && BalanceOf(accounts, sender, k) < amount
  {
    hide Stored, FindSlot, WellFormedLedger, Credit, GetOrCreate, ZeroInts;
    HeldAfterCreate(accounts, recipient, k + 1, sender);
    GetOrCreateKeeps(accounts, recipient, k + 1);
    var found := GetOrCreate(accounts, recipient, k + 1);
    HeldIsRegular(found.accounts, sender);
    HeldIsRegular(accounts, sender);
    NoncesHeld(accounts, sender, k);
  }

  /** Every refusal names the first check that failed. */
  lemma RefusedIff(reg: Registry, accounts: seq<AccountInfo>, tx: Transaction, error: Error)
    requires WellFormedLedger(accounts) && Usable(reg)
    ensures Apply(reg, accounts, tx).result == Err(error) <==>
            !Acceptable(reg, accounts, tx) && RefusedWith(reg, accounts, tx, error)
  {
    hide ApplyWithdraw, ApplyTransfer, WellFormedLedger, Acceptable, FindSlot, TokensOf, BalanceOf, TransferNonce,
      WithdrawNonce, IsListed;
    AcceptedIff(reg, accounts, tx);
    if tx.token in reg.toIndex {
      var k := reg.toIndex[tx.token];
      match tx
      case DepositTransaction(_, _, _, _) =>
      case WithdrawTransaction(account, _, amount, nonce, _) => WithdrawRefused(accounts, k, account, amount, nonce);
      case TransferTransaction(sender, recipient, _, amount, nonce, _) =>
        TransferRefused(accounts, k, sender, recipient, amount, nonce);
    }
  }

  // ---------------------------------------------------------------- what an accepted transaction moves

  /** The transaction is taken and moves token index k. */
  predicate Moves(reg: Registry, accounts: seq<AccountInfo>, tx: Transaction, k: nat) {
    Acceptable(reg, accounts, tx) && reg.toIndex[tx.token] == k
  }

  /** What comes in to an address: a deposit to it, or a transfer to it, its own included. */
  function CameIn(reg: Registry, accounts: seq<AccountInfo>, tx: Transaction, address: bytes, k: nat): int {
    if Moves(reg, accounts, tx, k) && Target(tx) == Some(address) then tx.amount else 0
  }

  /** What goes out of an address: a withdrawal from it, or a transfer from it to another. */
  function WentOut(reg: Registry, accounts: seq<AccountInfo>, tx: Transaction, address: bytes, k: nat): int {
    if Moves(reg, accounts, tx, k) && Payer(tx) == Some(address) && !SelfTransfer(tx) then tx.amount else 0
  }

  /** The entries an address has afterwards: enough for the token if the transaction is to be paid to it. */
  function TokensAfter(reg: Registry, accounts: seq<AccountInfo>, tx: Transaction, address: bytes): nat {
    var before := TokensOf(accounts, address);
    if tx.token !in reg.toIndex || Target(tx) != Some(address) then before
    else if !Acceptable(reg, accounts, tx) && IsListed(accounts, address) then before
    else if before > reg.toIndex[tx.token] then before
    else reg.toIndex[tx.token] + 1
  }

  lemma StoredBalances(a: AccountInfo, j: nat)
    ensures At(Stored(a).balances, j) == Wrap(At(a.balances, j)) && |Stored(a).balances| == |a.balances|
  {
    hide Wrap, WrapAll;
    StoredAt(a.balances, j);
  }

  lemma CreditedBalances(a: AccountInfo, k: nat, amount: int, j: nat)
    ensures At(Stored(Credit(a, k, amount)).balances, j) == Wrap(At(a.balances, j) + if j == k then amount else 0)
    ensures |Stored(Credit(a, k, amount)).balances| == if |a.balances| > k then |a.balances| else k + 1
  {
    hide Wrap, WrapAll, Stored;
    StoredBalances(Credit(a, k, amount), j);
    CreditAt(a, k, amount, j);
    ExpandWidens(a, k);
  }

  lemma ZeroHeld(address: bytes, n: nat, j: nat)
    ensures At(ZeroAccount(address, n).balances, j) == 0 && |ZeroAccount(address, n).balances| == n
  {
  }

  /** What is held after the target was created, if it was missing. */
  lemma HeldByTarget(accounts: seq<AccountInfo>, address: bytes, k: nat, b: bytes, j: nat)
    requires WellFormedLedger(accounts)
    ensures var found := GetOrCreate(accounts, address, k + 1);
            && At(Held(found.accounts, b).balances, j) == BalanceOf(accounts, b, j)
            && TokensOf(found.accounts, b) ==
               (if b == address && !IsListed(accounts, address) then k + 1 else TokensOf(accounts, b))
  {
    hide FindSlot, WellFormedLedger, ZeroAccount, GetOrCreate;
    HeldAfterCreate(accounts, address, k + 1, b);
    ZeroHeld(address, k + 1, j);
  }

  lemma DepositEffect(accounts: seq<AccountInfo>, k: nat, account: bytes, amount: int, b: bytes, j: nat)
    requires WellFormedLedger(accounts) && |account| == 20 && k < MAX_LENGTH - 1 && amount >= 0
    ensures var after := ApplyDeposit(accounts, k, account, amount).accounts;
            && BalanceOf(after, b, j) ==
               Wrap(BalanceOf(accounts, b, j) + if b == account && j == k then amount else 0)
            && TokensOf(after, b) ==
               (if b != account || TokensOf(accounts, b) > k then TokensOf(accounts, b) else k + 1)
  {
    hide FindSlot, WellFormedLedger, Credit, Stored, Wrap, GetOrCreate, Distinct;
    var found := GetOrCreate(accounts, account, k + 1);
    GetOrCreateKeeps(accounts, account, k + 1);
    HeldByTarget(accounts, account, k, b, j);
    HeldAfterCreate(accounts, account, k + 1, account);
    var a := found.accounts[found.slot];
    CreditAccount(a, k, amount);
    StoredAccount(Credit(a, k, amount));
    WellFormedIsDistinct(found.accounts);
    HeldAfterReplace(found.accounts, found.slot, Stored(Credit(a, k, amount)), b);
    CreditedBalances(a, k, amount, j);
    BalanceInRange(accounts, b, j);
    NotListedHolds(accounts, account);
  }

  lemma NotListedHolds(accounts: seq<AccountInfo>, address: bytes)
    ensures !IsListed(accounts, address) ==> TokensOf(accounts, address) == 0
  {
    hide FindSlot;
  }

  lemma WithdrawEffect(accounts: seq<AccountInfo>, k: nat, account: bytes, amount: int, nonce: int, b: bytes, j: nat)
    requires WellFormedLedger(accounts) && ApplyWithdraw(accounts, k, account, amount, nonce).result.Ok?
    ensures var after := ApplyWithdraw(accounts, k, account, amount, nonce).accounts;
            && BalanceOf(after, b, j) ==
               BalanceOf(accounts, b, j) - (if b == account && j == k then amount else 0)
            && TokensOf(after, b) == TokensOf(accounts, b)
  {
    hide FindSlot, WellFormedLedger, Stored, Wrap, Distinct;
    var slot := FindSlot(accounts, account).value;
    var updated := ApplyWithdraw(accounts, k, account, amount, nonce).result.value[0].info;
    StoredAccount(updated);
    WellFormedIsDistinct(accounts);
    HeldAfterReplace(accounts, slot, Stored(updated), b);
    StoredBalances(updated, j);
    BalanceInRange(accounts, b, j);
    BalanceInRange(accounts, account, j);
  }

  /** The records of an accepted transfer, as they are stored. */
  lemma TransferStores(accounts: seq<AccountInfo>, k: nat, sender: bytes, recipient: bytes, amount: int, nonce: int)
    requires ApplyTransfer(accounts, k, sender, recipient, amount, nonce).result.Ok?
    ensures var base := GetOrCreate(accounts, recipient, k + 1);
            var out := ApplyTransfer(accounts, k, sender, recipient, amount, nonce);
            && |out.result.value| == 2
            && var from, to := out.result.value[0].info, out.result.value[1].info;
            && FindSlot(base.accounts, sender).Some?
            && var slot := FindSlot(base.accounts, sender).value;
               && out.accounts == base.accounts[slot := Stored(from)][base.slot := Stored(to)]
               && from.account == base.accounts[slot].account && to == Credit(base.accounts[base.slot], k, amount)
               && |from.balances| == |base.accounts[slot].balances|
               && forall j: nat :: At(from.balances, j) ==
                                   At(base.accounts[slot].balances, j) - if j == k then amount else 0
  {
    hide FindSlot, Stored, Credit, GetOrCreate;
  }

  lemma TransferEffect(accounts: seq<AccountInfo>, k: nat, sender: bytes, recipient: bytes, amount: int, nonce: int,
          b: bytes, j: nat)
    requires WellFormedLedger(accounts) && |recipient| == 20 && k < MAX_LENGTH - 1
    requires ApplyTransfer(accounts, k, sender, recipient, amount, nonce).result.Ok?
    ensures var after := ApplyTransfer(accounts, k, sender, recipient, amount, nonce).accounts;
            && BalanceOf(after, b, j) ==
               Wrap(BalanceOf(accounts, b, j)
                      + (if b == recipient && j == k then amount else 0)
                      - (if b == sender != recipient && j == k then amount else 0))
            && TokensOf(after, b) ==
               (if b != recipient || TokensOf(accounts, b) > k then TokensOf(accounts, b) else k + 1)
  {
    hide FindSlot, WellFormedLedger, Credit, Stored, Wrap, GetOrCreate, Distinct, ApplyTransfer;
    TransferStores(accounts, k, sender, recipient, amount, nonce);
    var base := GetOrCreate(accounts, recipient, k + 1);
    var out := ApplyTransfer(accounts, k, sender, recipient, amount, nonce);
    var from, to := out.result.value[0].info, out.result.value[1].info;
    var slot := FindSlot(base.accounts, sender).value;
    GetOrCreateKeeps(accounts, recipient, k + 1);
    WellFormedIsDistinct(base.accounts);
    HeldByTarget(accounts, recipient, k, b, j);
    HeldAfterCreate(accounts, recipient, k + 1, sender);
    StoredAccount(from);
    CreditAccount(base.accounts[base.slot], k, amount);
    StoredAccount(to);
    DistinctReplaced(base.accounts, slot, Stored(from));
    HeldAfterReplace(base.accounts, slot, Stored(from), b);
    HeldAfterReplace(base.accounts[slot := Stored(from)], base.slot, Stored(to), b);
    CreditedBalances(base.accounts[base.slot], k, amount, j);
    StoredBalances(from, j);
    NotListedHolds(accounts, recipient);
    BalanceInRange(accounts, b, j);
  }

  lemma DistinctReplaced(accounts: seq<AccountInfo>, slot: nat, a: AccountInfo)
    requires Distinct(accounts) && slot < |accounts| && a.account == accounts[slot].account
    ensures Distinct(accounts[slot := a])
  {
  }

  lemma NothingMoves(reg: Registry, accounts: seq<AccountInfo>, tx: Transaction, b: bytes, j: nat)
    requires WellFormedLedger(accounts) && Usable(reg) && !Acceptable(reg, accounts, tx)
    ensures var after := Apply(reg, accounts, tx).accounts;
            BalanceOf(after, b, j) == BalanceOf(accounts, b, j) && TokensOf(after, b) ==
              TokensAfter(reg, accounts, tx, b)
  {
    hide FindSlot, WellFormedLedger, Apply, ZeroAccount, Acceptable;
    AcceptedIff(reg, accounts, tx);
    RejectionEffect(reg, accounts, tx);
    if Creates(reg, accounts, tx) {
      HeldByTarget(accounts, Target(tx).value, reg.toIndex[tx.token], b, j);
    }
    if Target(tx) == Some(b) {
      NotListedHolds(accounts, b);
    }
  }

  /**
   Who is paid and who pays: after any transaction every address holds, of every token, what it held and what came
   in less what went out, as 256 bits hold it; nothing goes out that was not there. An address has entries for
   tokens up to the one it was paid in, and otherwise as many as before.
   */
  lemma BalanceStep(reg: Registry, accounts: seq<AccountInfo>, tx: Transaction, address: bytes, k: nat)
    requires WellFormedLedger(accounts) && Usable(reg)
    ensures var after := Apply(reg, accounts, tx).accounts;
            && BalanceOf(after, address, k) ==
               Wrap(BalanceOf(accounts, address, k) + CameIn(reg, accounts, tx, address, k)
                    - WentOut(reg, accounts, tx, address, k))
            && TokensOf(after, address) == TokensAfter(reg, accounts, tx, address)
    ensures 0 <= WentOut(reg, accounts, tx, address, k) <= BalanceOf(accounts, address, k)
    ensures 0 <= CameIn(reg, accounts, tx, address, k)
  {
    hide FindSlot, WellFormedLedger, ApplyDeposit, ApplyWithdraw, ApplyTransfer, Wrap, BalanceOf, TokensOf, IsListed,
      TransferNonce, WithdrawNonce;
    AcceptedIff(reg, accounts, tx);
    BalanceInRange(accounts, address, k);
    if Acceptable(reg, accounts, tx) {
      var t := reg.toIndex[tx.token];
      match tx
      case DepositTransaction(account, _, amount, _) => DepositEffect(accounts, t, account, amount, address, k);
      case WithdrawTransaction(account, _, amount, nonce, _) =>
        WithdrawEffect(accounts, t, account, amount, nonce, address, k);
      case TransferTransaction(sender, recipient, _, amount, nonce, _) =>
        TransferEffect(accounts, t, sender, recipient, amount, nonce, address, k);
    } else {
      NothingMoves(reg, accounts, tx, address, k);
    }
  }

  /**
   A transfer between two addresses, spelt out: the sender's balance of the token falls by the amount, the
   recipient's rises by it, and every other balance is untouched.
   */
  lemma TransferPays(reg: Registry, accounts: seq<AccountInfo>, tx: Transaction, address: bytes, k: nat)
    requires WellFormedLedger(accounts) && Usable(reg) && Accepted(reg, accounts, tx)
    requires tx.TransferTransaction? && tx.sender != tx.recipient
    ensures tx.token in reg.toIndex
    ensures var after, t := Apply(reg, accounts, tx).accounts, reg.toIndex[tx.token];
            && BalanceOf(after, tx.sender, t) == BalanceOf(accounts, tx.sender, t) - tx.amount
            && BalanceOf(after, tx.recipient, t) == Wrap(BalanceOf(accounts, tx.recipient, t) + tx.amount)
            && (k != t || (address != tx.sender && address != tx.recipient) ==>
                  BalanceOf(after, address, k) == BalanceOf(accounts, address, k))
  {
    hide FindSlot, WellFormedLedger, Apply, BalanceOf, Wrap, CanPay, TransferNonce, IsListed;
    AcceptedIff(reg, accounts, tx);
    var t := reg.toIndex[tx.token];
    BalanceStep(reg, accounts, tx, tx.sender, t);
    BalanceStep(reg, accounts, tx, tx.recipient, t);
    BalanceStep(reg, accounts, tx, address, k);
    BalanceInRange(accounts, tx.sender, t);
    BalanceInRange(accounts, address, k);
  }

  // ---------------------------------------------------------------- the laws decide the ledger

  /** The transaction is taken and uses up the address's nonce of the token. */
  predicate UsesTransferNonce(reg: Registry, accounts: seq<AccountInfo>, tx: Transaction, address: bytes, k: nat) {
    Moves(reg, accounts, tx, k) && tx.TransferTransaction? && tx.sender == address && !SelfTransfer(tx)
  }

  predicate UsesWithdrawNonce(reg: Registry, accounts: seq<AccountInfo>, tx: Transaction, address: bytes, k: nat) {
    Moves(reg, accounts, tx, k) && tx.WithdrawTransaction? && tx.account == address
  }

  /** What becomes of one address and one token. */
  predicate LawsAt(reg: Registry, accounts: seq<AccountInfo>, tx: Transaction, after: seq<AccountInfo>,
          address: bytes, k: nat) {
    && BalanceOf(after, address, k) ==
       Wrap(BalanceOf(accounts, address, k) + CameIn(reg, accounts, tx, address, k)
            - WentOut(reg, accounts, tx, address, k))
    && TokensOf(after, address) == TokensAfter(reg, accounts, tx, address)
    && TransferNonce(after, address, k) ==
       Wrap(TransferNonce(accounts, address, k) + if UsesTransferNonce(reg, accounts, tx, address, k) then 1 else 0)
    && WithdrawNonce(after, address, k) ==
       Wrap(WithdrawNonce(accounts, address, k) + if UsesWithdrawNonce(reg, accounts, tx, address, k) then 1 else 0)
  }

  /** Nobody leaves or moves, the target joins last if it was missing, and the laws hold of every address and token. */
  ghost predicate FollowsLaws(reg: Registry, accounts: seq<AccountInfo>, tx: Transaction, after: seq<AccountInfo>) {
    && |after| == |accounts| + (if Creates(reg, accounts, tx) then 1 else 0)
    && (forall i :: 0 <= i < |accounts| ==> after[i].account == accounts[i].account)
    && (Creates(reg, accounts, tx) ==> after[|accounts|].account == Target(tx).value)
    && forall b: bytes, k: nat :: LawsAt(reg, accounts, tx, after, b, k)
  }

  lemma NonceInRange(accounts: seq<AccountInfo>, address: bytes, k: nat)
    requires WellFormedLedger(accounts)
    ensures Wrap(TransferNonce(accounts, address, k)) == TransferNonce(accounts, address, k)
    ensures Wrap(WithdrawNonce(accounts, address, k)) == WithdrawNonce(accounts, address, k)
  {
    hide FindSlot, WellFormedLedger, TransferNonce, WithdrawNonce, Wrap;
    NoncesHeld(accounts, address, k);
    HeldIsRegular(accounts, address);
  }

  lemma StepFollowsLaws(reg: Registry, accounts: seq<AccountInfo>, tx: Transaction, b: bytes, k: nat)
    requires WellFormedLedger(accounts) && Usable(reg)
    ensures LawsAt(reg, accounts, tx, Apply(reg, accounts, tx).accounts, b, k)
  {
    hide FindSlot, WellFormedLedger, Apply, BalanceOf, TokensOf, Wrap, TransferNonce, WithdrawNonce, CameIn, WentOut,
      TokensAfter, Acceptable;
    AcceptedIff(reg, accounts, tx);
    BalanceStep(reg, accounts, tx, b, k);
    StepNonces(reg, accounts, tx, b, k);
    NonceInRange(accounts, b, k);
  }

  lemma SameArrays(a: seq<int>, b: seq<int>)
    requires |a| == |b| && forall k: nat :: At(a, k) == At(b, k)
    ensures a == b
  {
    forall i | 0 <= i < |a| ensures a[i] == b[i] {
      assert At(a, i) == At(b, i);
    }
  }

  ghost predicate SameNumbers(a: AccountInfo, b: AccountInfo) {
    && |a.balances| == |b.balances|
    && (forall k: nat :: At(a.balances, k) == At(b.balances, k))
    && (forall k: nat :: At(a.transferNonces, k) == At(b.transferNonces, k))
    && (forall k: nat :: At(a.withdrawNonces, k) == At(b.withdrawNonces, k))
  }

  lemma SameRecords(a: AccountInfo, b: AccountInfo)
    requires Regular(a) && Regular(b) && a.account == b.account && SameNumbers(a, b)
    ensures a == b
  {
    hide At;
    SameArrays(a.balances, b.balances);
    SameArrays(a.transferNonces, b.transferNonces);
    SameArrays(a.withdrawNonces, b.withdrawNonces);
  }

  /** Ledgers with the same addresses in the same order and the same numbers are the same. */
  lemma SameLedgers(a: seq<AccountInfo>, b: seq<AccountInfo>)
    requires WellFormedLedger(a) && WellFormedLedger(b) && |a| == |b|
    requires forall i :: 0 <= i < |a| ==> a[i].account == b[i].account
    requires forall address: bytes :: SameNumbers(Held(a, address), Held(b, address))
    ensures a == b
  {
    hide SameNumbers, Regular, FindSlot;
    forall i | 0 <= i < |a| ensures a[i] == b[i] {
      FindsIt(a, i);
      FindsIt(b, i);
      assert SameNumbers(Held(a, a[i].account), Held(b, a[i].account));
      SameRecords(a[i], b[i]);
    }
  }

  lemma LawsDetermine(reg: Registry, accounts: seq<AccountInfo>, tx: Transaction, a: seq<AccountInfo>,
          b: seq<AccountInfo>, address: bytes)
    requires forall k: nat :: LawsAt(reg, accounts, tx, a, address, k)
    requires forall k: nat :: LawsAt(reg, accounts, tx, b, address, k)
    ensures SameNumbers(Held(a, address), Held(b, address))
  {
    hide FindSlot, TransferNonce, WithdrawNonce, CameIn, WentOut, TokensAfter, Held, At, Wrap, UsesTransferNonce,
      UsesWithdrawNonce;
    forall k: nat
      ensures At(Held(a, address).balances, k) == At(Held(b, address).balances, k)
      ensures At(Held(a, address).transferNonces, k) == At(Held(b, address).transferNonces, k)
      ensures At(Held(a, address).withdrawNonces, k) == At(Held(b, address).withdrawNonces, k)
    {
      assert LawsAt(reg, accounts, tx, a, address, k) && LawsAt(reg, accounts, tx, b, address, k);
      NoncesHeld(a, address, k);
      NoncesHeld(b, address, k);
    }
    assert LawsAt(reg, accounts, tx, a, address, 0) && LawsAt(reg, accounts, tx, b, address, 0);
  }

  /**
   The laws say everything: of all well-formed ledgers, the one a transaction leads to is the one that follows
   them. Neither acceptance nor the laws mention how a transaction is applied.
   */
  lemma LedgerDecided(reg: Registry, accounts: seq<AccountInfo>, tx: Transaction, after: seq<AccountInfo>)
    requires WellFormedLedger(accounts) && Usable(reg)
    ensures WellFormedLedger(after) && FollowsLaws(reg, accounts, tx, after) <==>
            after == Apply(reg, accounts, tx).accounts
  {
    hide Apply, WellFormedLedger, LawsAt, Creates, FindSlot, Held, SameNumbers;
    var out := Apply(reg, accounts, tx).accounts;
    ApplyKeepsWellFormed(reg, accounts, tx);
    CreatesGrows(reg, accounts, tx);
    if Creates(reg, accounts, tx) {
      CreatedLast(reg, accounts, tx);
    }
    forall b: bytes, k: nat ensures LawsAt(reg, accounts, tx, out, b, k) {
      StepFollowsLaws(reg, accounts, tx, b, k);
    }
    if WellFormedLedger(after) && FollowsLaws(reg, accounts, tx, after) {
      forall address: bytes ensures SameNumbers(Held(after, address), Held(out, address)) {
        LawsDetermine(reg, accounts, tx, after, out, address);
      }
      SameLedgers(after, out);
    }
  }

  // ---------------------------------------------------------------- over runs

  function TotalIn(reg: Registry, txs: seq<Transaction>, address: bytes, k: nat): int {
    if txs == [] then 0
    else
      var init, tx := txs[..|txs| - 1], txs[|txs| - 1];
      TotalIn(reg, init, address, k) + CameIn(reg, Run(reg, init), tx, address, k)
  }

  function TotalOut(reg: Registry, txs: seq<Transaction>, address: bytes, k: nat): int {
    if txs == [] then 0
    else
      var init, tx := txs[..|txs| - 1], txs[|txs| - 1];
      TotalOut(reg, init, address, k) + WentOut(reg, Run(reg, init), tx, address, k)
  }

  lemma WrapAgain(n: int, m: int)
    ensures Wrap(Wrap(n) + m) == Wrap(n + m)
  {
    var q := n / UINT_LIMIT;
    assert n == UINT_LIMIT * q + Wrap(n);
    if q >= 0 {
      MultiplesVanish(Wrap(n) + m, q);
    } else {
      MultiplesVanish(n + m, -q);
    }
  }

  lemma NothingHeld(address: bytes, k: nat)
    ensures BalanceOf([], address, k) == 0 && Wrap(0) == 0
  {
  }

  /**
   Over every run an address holds, of every token and as 256 bits hold it, what came in to it less what went out.
   While all that came in stays below 2^256 the balance is that difference itself.
   */
  lemma {:induction false} BalanceOverRun(reg: Registry, txs: seq<Transaction>, address: bytes, k: nat)
    requires Usable(reg)
    ensures BalanceOf(Run(reg, txs), address, k) == Wrap(TotalIn(reg, txs, address, k) - TotalOut(reg, txs, address, k))
    ensures TotalIn(reg, txs, address, k) >= 0 && TotalOut(reg, txs, address, k) >= 0
    ensures TotalIn(reg, txs, address, k) < UINT_LIMIT ==>
              BalanceOf(Run(reg, txs), address, k) ==
                TotalIn(reg, txs, address, k) - TotalOut(reg, txs, address, k)
  {
    hide Apply, BalanceOf, CameIn, WentOut, Wrap, WellFormedLedger;
    if txs == [] {
      NothingHeld(address, k);
    } else {
      var init, tx := txs[..|txs| - 1], txs[|txs| - 1];
      BalanceOverRun(reg, init, address, k);
      RunKeepsWellFormed(reg, init);
      BalanceStep(reg, Run(reg, init), tx, address, k);
      WrapAgain(TotalIn(reg, init, address, k) - TotalOut(reg, init, address, k),
                CameIn(reg, Run(reg, init), tx, address, k) - WentOut(reg, Run(reg, init), tx, address, k));
    }
  }
}
