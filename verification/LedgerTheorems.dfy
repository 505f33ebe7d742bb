/** Conservation and nonce discipline over every run of transactions. */
module LedgerTheorems {
  import opened ByteStrings
  import opened Errors
  import opened Abi
  import opened Accounts
  import opened Ledger

  function At(ns: seq<int>, k: nat): int {
    if k < |ns| then ns[k] else 0
  }

  function Total(accounts: seq<AccountInfo>, k: nat): int {
    if accounts == [] then 0
    else Total(accounts[..|accounts| - 1], k) + At(accounts[|accounts| - 1].balances, k)
  }

  lemma {:induction false} TotalReplaced(accounts: seq<AccountInfo>, slot: nat, a: AccountInfo, k: nat)
    requires slot < |accounts|
    ensures Total(accounts[slot := a], k) == Total(accounts, k) - At(accounts[slot].balances, k) + At(a.balances, k)
  {
    var n := |accounts| - 1;
    if slot == n {
      assert accounts[slot := a][..n] == accounts[..n];
    } else {
      TotalReplaced(accounts[..n], slot, a, k);
      assert accounts[slot := a][..n] == accounts[..n][slot := a];
    }
  }

  lemma TotalAppended(accounts: seq<AccountInfo>, a: AccountInfo, k: nat)
    ensures Total(accounts + [a], k) == Total(accounts, k) + At(a.balances, k)
  {
    assert (accounts + [a])[..|accounts|] == accounts;
  }

  /** No stored balance is negative, so no balance exceeds the total. */
  lemma {:induction false} BalanceWithinTotal(accounts: seq<AccountInfo>, k: nat, slot: nat)
    requires WellFormedLedger(accounts)
    ensures 0 <= Total(accounts, k)
    ensures slot < |accounts| ==> 0 <= At(accounts[slot].balances, k) <= Total(accounts, k)
    decreases |accounts|
  {
    if accounts != [] {
      var n := |accounts| - 1;
      assert Regular(accounts[n]);
      assert WellFormedLedger(accounts[..n]);
      BalanceWithinTotal(accounts[..n], k, slot);
    }
  }

  lemma StoredAt(ns: seq<int>, k: nat)
    ensures At(WrapAll(ns), k) == Wrap(At(ns, k))
  {
    hide WrapAll;
  }

  /** Storing a number takes off this many multiples of 2^256. */
  function Excess(n: int): (e: nat)
    ensures n >= 0 ==> n == UINT_LIMIT * e + Wrap(n)
    ensures n >= 0 ==> (e == 0 <==> n < UINT_LIMIT)
  {
    if n < UINT_LIMIT then 0 else n / UINT_LIMIT
  }

  lemma CreditAt(a: AccountInfo, tokenIndex: nat, amount: int, k: nat)
    ensures At(Credit(a, tokenIndex, amount).balances, k) == At(a.balances, k) + if k == tokenIndex then amount else 0
  {
  }

  // ---------------------------------------------------------------- conservation

  predicate Accepted(reg: Registry, accounts: seq<AccountInfo>, tx: Transaction) {
    Apply(reg, accounts, tx).result.Ok?
  }

  predicate SelfTransfer(tx: Transaction) {
    tx.TransferTransaction? && tx.sender == tx.recipient
  }

  /** Amount of token index k a step brings in by deposit, takes out by withdrawal, and makes up by self-transfer. */
  function Deposited(reg: Registry, accounts: seq<AccountInfo>, tx: Transaction, k: nat): (n: nat) {
    if Accepted(reg, accounts, tx) && tx.DepositTransaction? && reg.toIndex[tx.token] == k then
      AcceptedIsMapped(reg, accounts, tx); tx.amount
    else 0
  }

  function Withdrawn(reg: Registry, accounts: seq<AccountInfo>, tx: Transaction, k: nat): (n: nat) {
    if Accepted(reg, accounts, tx) && tx.WithdrawTransaction? && reg.toIndex[tx.token] == k then
      AcceptedIsMapped(reg, accounts, tx); tx.amount
    else 0
  }

  function MadeUp(reg: Registry, accounts: seq<AccountInfo>, tx: Transaction, k: nat): (n: nat) {
    if Accepted(reg, accounts, tx) && SelfTransfer(tx) && reg.toIndex[tx.token] == k then
      AcceptedIsMapped(reg, accounts, tx); tx.amount
    else 0
  }

  lemma AcceptedIsMapped(reg: Registry, accounts: seq<AccountInfo>, tx: Transaction)
    requires Accepted(reg, accounts, tx)
    ensures tx.token in reg.toIndex && tx.amount >= 0
  {
    hide Wrap, WrapAll;
  }

  /** As computed, before storing: no balance of token index k left the 256-bit range. */
  ghost predicate NoOverflow(result: Result<seq<AccountInfoUpdate>>, k: nat) {
    result.Ok? ==> forall u :: u in result.value ==> 0 <= At(u.info.balances, k) < UINT_LIMIT
  }

  /** Multiples of 2^256 of token index k that a step loses when the record it writes last is stored. */
  function Overflow(reg: Registry, accounts: seq<AccountInfo>, tx: Transaction, k: nat): nat {
    OverflowOf(Apply(reg, accounts, tx).result, k)
  }

  function OverflowOf(result: Result<seq<AccountInfoUpdate>>, k: nat): nat {
    if result.Err? || result.value == [] then 0
    else Excess(At(result.value[|result.value| - 1].info.balances, k))
  }

  lemma DepositTotal(accounts: seq<AccountInfo>, tokenIndex: nat, address: bytes, amount: int, k: nat)
    requires WellFormedLedger(accounts) && amount >= 0
    ensures var out := ApplyDeposit(accounts, tokenIndex, address, amount);
            && Total(out.accounts, k) + UINT_LIMIT * OverflowOf(out.result, k) ==
               Total(accounts, k) + (if k == tokenIndex then amount else 0)
            && (NoOverflow(out.result, k) <==> OverflowOf(out.result, k) == 0)
  {
    hide WrapAll, Wrap, Excess, Credit, Regular, Total, Distinct, FindSlot, GetOrCreate;
    var found := GetOrCreate(accounts, address, tokenIndex + 1);
    FoundTotal(accounts, address, tokenIndex + 1, k);
    var updated := Credit(found.accounts[found.slot], tokenIndex, amount);
    CreditAt(found.accounts[found.slot], tokenIndex, amount, k);
    StoredAt(updated.balances, k);
    TotalReplaced(found.accounts, found.slot, Stored(updated), k);
  }

  lemma FoundTotal(accounts: seq<AccountInfo>, address: bytes, n: nat, k: nat)
    requires WellFormedLedger(accounts)
    ensures var found := GetOrCreate(accounts, address, n);
            && Total(found.accounts, k) == Total(accounts, k)
            && forall i :: 0 <= i < |found.accounts| ==> 0 <= At(found.accounts[i].balances, k) <= Total(accounts, k)
  {
    hide Regular;
    TotalAppended(accounts, ZeroAccount(address, n), k);
    BalanceWithinTotal(accounts, k, 0);
    forall i | 0 <= i < |accounts| ensures 0 <= At(accounts[i].balances, k) <= Total(accounts, k) {
      BalanceWithinTotal(accounts, k, i);
    }
  }

  lemma WithdrawTotal(accounts: seq<AccountInfo>, tokenIndex: nat, address: bytes, amount: int, nonce: int, k: nat)
    requires WellFormedLedger(accounts)
    ensures var out := ApplyWithdraw(accounts, tokenIndex, address, amount, nonce);
            && Total(out.accounts, k) == Total(accounts, k) - (if out.result.Ok? && k == tokenIndex then amount else 0)
            && NoOverflow(out.result, k) && OverflowOf(out.result, k) == 0
  {
    hide WrapAll, Wrap, Excess, Regular, Total, FindSlot;
    var out := ApplyWithdraw(accounts, tokenIndex, address, amount, nonce);
    if out.result.Ok? {
      var slot, updated := FindSlot(accounts, address).value, out.result.value[0].info;
      StoredBalance(accounts, slot, k);
      StoredAt(updated.balances, k);
      TotalReplaced(accounts, slot, Stored(updated), k);
    }
  }

  lemma StoredBalance(accounts: seq<AccountInfo>, slot: nat, k: nat)
    requires WellFormedLedger(accounts) && slot < |accounts|
    ensures 0 <= At(accounts[slot].balances, k) < UINT_LIMIT
  {
    assert Regular(accounts[slot]);
  }

  lemma TransferTotal(accounts: seq<AccountInfo>, tokenIndex: nat, sender: bytes, recipient: bytes, amount: int,
          nonce: int, k: nat)
    requires WellFormedLedger(accounts) && |recipient| == 20 && tokenIndex < MAX_LENGTH - 1
    ensures var out := ApplyTransfer(accounts, tokenIndex, sender, recipient, amount, nonce);
            && Total(out.accounts, k) + UINT_LIMIT * OverflowOf(out.result, k) ==
               Total(accounts, k) + (if out.result.Ok? && k == tokenIndex && sender == recipient then amount else 0)
            && (NoOverflow(out.result, k) <==> OverflowOf(out.result, k) == 0)
  {
    hide WrapAll, Wrap, Excess, Credit, Regular, Total, Distinct, FindSlot, GetOrCreate, Stored, WellFormedLedger;
    var out := ApplyTransfer(accounts, tokenIndex, sender, recipient, amount, nonce);
    var found := GetOrCreate(accounts, recipient, tokenIndex + 1);
    FoundTotal(accounts, recipient, tokenIndex + 1, k);
    if out.result.Ok? {
      var slot := FindSlot(found.accounts, sender).value;
      GetOrCreateKeeps(accounts, recipient, tokenIndex + 1);
      CreditAt(found.accounts[found.slot], tokenIndex, amount, k);
      SameSlot(accounts, recipient, tokenIndex + 1, sender);
      StoredBalance(found.accounts, slot, k);
      StoredBalance(found.accounts, found.slot, k);
      BothReplaced(found.accounts, slot, out.result.value[0].info, found.slot, out.result.value[1].info, k);
    }
  }

  lemma BothReplaced(accounts: seq<AccountInfo>, slot: nat, a: AccountInfo, other: nat, b: AccountInfo, k: nat)
    requires slot < |accounts| && other < |accounts|
    requires 0 <= At(a.balances, k) < UINT_LIMIT && 0 <= At(b.balances, k)
    ensures Total(accounts[slot := Stored(a)][other := Stored(b)], k) + UINT_LIMIT * Excess(At(b.balances, k)) ==
            Total(accounts, k) + At(b.balances, k) - At(accounts[other].balances, k) +
            (if slot == other then 0 else At(a.balances, k) - At(accounts[slot].balances, k))
  {
    hide WrapAll, Wrap, Excess, Total, At;
    StoredAt(a.balances, k);
    StoredAt(b.balances, k);
    TotalReplaced(accounts, slot, Stored(a), k);
    TotalReplaced(accounts[slot := Stored(a)], other, Stored(b), k);
  }

  /** Sender and recipient are one slot exactly when they are one address. */
  lemma SameSlot(accounts: seq<AccountInfo>, recipient: bytes, n: nat, sender: bytes)
    requires WellFormedLedger(accounts)
    ensures var found := GetOrCreate(accounts, recipient, n);
            FindSlot(found.accounts, sender).Some? ==>
              (FindSlot(found.accounts, sender).value == found.slot <==> sender == recipient)
  {
    hide Regular;
    var found := GetOrCreate(accounts, recipient, n);
    assert Distinct(found.accounts);
  }

  /** One step: what is held afterwards, with what storing cut off, is what was held and what flowed. */
  lemma StepTotal(reg: Registry, accounts: seq<AccountInfo>, tx: Transaction, k: nat)
    requires WellFormedLedger(accounts) && Usable(reg)
    ensures Total(Apply(reg, accounts, tx).accounts, k) + UINT_LIMIT * Overflow(reg, accounts, tx, k) ==
            Total(accounts, k) + Deposited(reg, accounts, tx, k) + MadeUp(reg, accounts, tx, k)
              - Withdrawn(reg, accounts, tx, k)
    ensures NoOverflow(Apply(reg, accounts, tx).result, k) <==> Overflow(reg, accounts, tx, k) == 0
  {
    hide WellFormedLedger, Total, Credit, NoOverflow, OverflowOf, GetOrCreate, FindSlot, Stored;
    if tx.token in reg.toIndex {
      var tokenIndex := reg.toIndex[tx.token];
      match tx
      case DepositTransaction(account, _, amount, _) =>
        if amount >= 0 {
          DepositTotal(accounts, tokenIndex, account, amount, k);
        } else {
          FoundTotal(accounts, account, tokenIndex + 1, k);
          RejectedNoOverflow(reg, accounts, tx, k);
        }
      case WithdrawTransaction(account, _, amount, nonce, _) =>
        WithdrawTotal(accounts, tokenIndex, account, amount, nonce, k);
      case TransferTransaction(sender, recipient, _, amount, nonce, _) =>
        TransferTotal(accounts, tokenIndex, sender, recipient, amount, nonce, k);
    } else {
      RejectedNoOverflow(reg, accounts, tx, k);
    }
  }

  lemma RejectedNoOverflow(reg: Registry, accounts: seq<AccountInfo>, tx: Transaction, k: nat)
    requires !Accepted(reg, accounts, tx)
    ensures NoOverflow(Apply(reg, accounts, tx).result, k) && Overflow(reg, accounts, tx, k) == 0
  {
  }

  /** Over a run: what came in, what self-transfers made up, what went out, and how often 2^256 was cut off. */
  datatype Flows = Flows(deposits: nat, madeUp: nat, withdrawals: nat, overflows: nat)

  function RunFlows(reg: Registry, txs: seq<Transaction>, k: nat): Flows {
    if txs == [] then Flows(0, 0, 0, 0)
    else
      var n := |txs| - 1;
      var f, accounts := RunFlows(reg, txs[..n], k), Run(reg, txs[..n]);
      Flows(f.deposits + Deposited(reg, accounts, txs[n], k),
            f.madeUp + MadeUp(reg, accounts, txs[n], k),
            f.withdrawals + Withdrawn(reg, accounts, txs[n], k),
            f.overflows + Overflow(reg, accounts, txs[n], k))
  }

  lemma {:induction false} RunKeepsWellFormed(reg: Registry, txs: seq<Transaction>)
    requires Usable(reg)
    ensures WellFormedLedger(Run(reg, txs))
  {
    hide Apply, Regular;
    if txs != [] {
      RunKeepsWellFormed(reg, txs[..|txs| - 1]);
      ApplyKeepsWellFormed(reg, Run(reg, txs[..|txs| - 1]), txs[|txs| - 1]);
    }
  }

  /** Every step of the run stored what it computed. */
  ghost predicate NeverOverflows(reg: Registry, txs: seq<Transaction>, k: nat) {
    forall i :: 0 <= i < |txs| ==> NoOverflow(Apply(reg, Run(reg, txs[..i]), txs[i]).result, k)
  }

  lemma NeverOverflowsNext(reg: Registry, txs: seq<Transaction>, k: nat)
    requires txs != []
    ensures var n := |txs| - 1;
            NeverOverflows(reg, txs, k) <==>
            NeverOverflows(reg, txs[..n], k) && NoOverflow(Apply(reg, Run(reg, txs[..n]), txs[n]).result, k)
  {
    hide Apply, NoOverflow, Run;
    var n := |txs| - 1;
    var init := txs[..n];
    forall i | 0 <= i < n ensures init[..i] == txs[..i] && init[i] == txs[i] {
    }
    if NeverOverflows(reg, txs, k) {
      forall i | 0 <= i < n ensures NoOverflow(Apply(reg, Run(reg, init[..i]), init[i]).result, k) {
        assert NoOverflow(Apply(reg, Run(reg, txs[..i]), txs[i]).result, k);
      }
    }
    if NeverOverflows(reg, init, k) && NoOverflow(Apply(reg, Run(reg, txs[..n]), txs[n]).result, k) {
      forall i | 0 <= i < |txs| ensures NoOverflow(Apply(reg, Run(reg, txs[..i]), txs[i]).result, k) {
        if i < n {
          assert NoOverflow(Apply(reg, Run(reg, init[..i]), init[i]).result, k);
        }
      }
    }
  }

  /**
   Conservation over every run, whatever the amounts: what the accounts hold of a token and the multiples of 2^256
   that storing cut off add up to deposits plus self-transferred amounts less withdrawals. Nothing was cut off exactly
   when no balance ever left the 256-bit range.
   */
  lemma {:induction false} Conservation(reg: Registry, txs: seq<Transaction>, k: nat)
    requires Usable(reg)
    ensures var f := RunFlows(reg, txs, k);
            Total(Run(reg, txs), k) + UINT_LIMIT * f.overflows == f.deposits + f.madeUp - f.withdrawals
    ensures Total(Run(reg, txs), k) >= 0
    ensures RunFlows(reg, txs, k).overflows == 0 <==> NeverOverflows(reg, txs, k)
  {
    hide Apply, WellFormedLedger, NoOverflow, Deposited, Withdrawn, MadeUp, Overflow, NeverOverflows;
    RunKeepsWellFormed(reg, txs);
    BalanceWithinTotal(Run(reg, txs), k, 0);
    if txs == [] {
      NothingOverflows(reg, k);
    } else {
      var n := |txs| - 1;
      Conservation(reg, txs[..n], k);
      RunKeepsWellFormed(reg, txs[..n]);
      StepTotal(reg, Run(reg, txs[..n]), txs[n], k);
      NeverOverflowsNext(reg, txs, k);
    }
  }

  lemma NothingOverflows(reg: Registry, k: nat)
    ensures NeverOverflows(reg, [], k)
  {
  }

  /** In the arithmetic of the chain, modulo 2^256, the balances always add up. */
  lemma ConservationModulo(reg: Registry, txs: seq<Transaction>, k: nat)
    requires Usable(reg)
    ensures var f := RunFlows(reg, txs, k);
            Total(Run(reg, txs), k) % UINT_LIMIT == (f.deposits + f.madeUp - f.withdrawals) % UINT_LIMIT
  {
    hide Run, Total, RunFlows;
    Conservation(reg, txs, k);
    MultiplesVanish(Total(Run(reg, txs), k), RunFlows(reg, txs, k).overflows);
  }

  lemma {:induction false} MultiplesVanish(n: int, times: nat)
    ensures (n + UINT_LIMIT * times) % UINT_LIMIT == n % UINT_LIMIT
  {
    if times > 0 {
      MultiplesVanish(n, times - 1);
      assert n + UINT_LIMIT * times == n + UINT_LIMIT * (times - 1) + UINT_LIMIT;
    }
  }

  /**
   While what was deposited, and what self-transfers made up, stays below 2^256, the balances add up as integers and
   none ever overflowed.
   */
  lemma ConservedBelowLimit(reg: Registry, txs: seq<Transaction>, k: nat)
    requires Usable(reg)
    requires RunFlows(reg, txs, k).deposits + RunFlows(reg, txs, k).madeUp < UINT_LIMIT
    ensures var f := RunFlows(reg, txs, k);
            Total(Run(reg, txs), k) == f.deposits + f.madeUp - f.withdrawals >= 0
    ensures NeverOverflows(reg, txs, k)
  {
    hide Run, Total, RunFlows, NeverOverflows;
    Conservation(reg, txs, k);
  }

  /** Deposits less withdrawals are exactly what the accounts hold if and only if self-transfers moved nothing. */
  lemma ConservedIffNoSelfTransfers(reg: Registry, txs: seq<Transaction>, k: nat)
    requires Usable(reg)
    requires RunFlows(reg, txs, k).deposits + RunFlows(reg, txs, k).madeUp < UINT_LIMIT
    ensures Total(Run(reg, txs), k) == RunFlows(reg, txs, k).deposits - RunFlows(reg, txs, k).withdrawals
            <==> RunFlows(reg, txs, k).madeUp == 0
  {
    hide Run, Total, RunFlows, NeverOverflows;
    ConservedBelowLimit(reg, txs, k);
  }

  // ---------------------------------------------------------------- nonces

  function TransferNonce(accounts: seq<AccountInfo>, address: bytes, k: nat): int {
    match FindSlot(accounts, address) case None => 0 case Some(slot) => At(accounts[slot].transferNonces, k)
  }

  function WithdrawNonce(accounts: seq<AccountInfo>, address: bytes, k: nat): int {
    match FindSlot(accounts, address) case None => 0 case Some(slot) => At(accounts[slot].withdrawNonces, k)
  }

  /** A transaction that consumes a transfer nonce of an account for token index k. */
  predicate SpendsTransferNonce(reg: Registry, accounts: seq<AccountInfo>, tx: Transaction, address: bytes, k: nat) {
    Accepted(reg, accounts, tx) && tx.TransferTransaction? && !SelfTransfer(tx) && tx.sender == address
      && reg.toIndex[tx.token] == k
  }

  predicate SpendsWithdrawNonce(reg: Registry, accounts: seq<AccountInfo>, tx: Transaction, address: bytes, k: nat) {
    Accepted(reg, accounts, tx) && tx.WithdrawTransaction? && tx.account == address && reg.toIndex[tx.token] == k
  }

  lemma CreateKeepsNonces(accounts: seq<AccountInfo>, target: bytes, n: nat, address: bytes, k: nat)
    ensures var found := GetOrCreate(accounts, target, n).accounts;
            TransferNonce(found, address, k) == TransferNonce(accounts, address, k) &&
            WithdrawNonce(found, address, k) == WithdrawNonce(accounts, address, k)
  {
    hide FindSlot;
    FindAfterCreate(accounts, target, n, address);
  }

  lemma RegularNonces(a: AccountInfo, k: nat)
    requires Regular(a)
    ensures Wrap(At(a.transferNonces, k)) == At(a.transferNonces, k)
            && Wrap(At(a.withdrawNonces, k)) == At(a.withdrawNonces, k)
  {
    hide Wrap;
  }

  ghost predicate SameNonces(a: AccountInfo, b: AccountInfo) {
    forall k: nat :: At(a.transferNonces, k) == At(b.transferNonces, k)
      && At(a.withdrawNonces, k) == At(b.withdrawNonces, k)
  }

  lemma CreditKeepsNonces(a: AccountInfo, tokenIndex: nat, amount: int)
    requires Regular(a)
    ensures SameNonces(Stored(Credit(a, tokenIndex, amount)), a)
  {
    hide Wrap, WrapAll;
    var c := Credit(a, tokenIndex, amount);
    forall k: nat ensures At(c.transferNonces, k) == At(a.transferNonces, k)
      && At(c.withdrawNonces, k) == At(a.withdrawNonces, k)
    {
    }
    forall k: nat
      ensures At(WrapAll(c.transferNonces), k) == At(a.transferNonces, k)
              && At(WrapAll(c.withdrawNonces), k) == At(a.withdrawNonces, k)
    {
      StoredAt(c.transferNonces, k);
      StoredAt(c.withdrawNonces, k);
      RegularNonces(a, k);
    }
  }

  lemma DepositNonces(accounts: seq<AccountInfo>, tokenIndex: nat, target: bytes, amount: int, address: bytes, k: nat)
    requires WellFormedLedger(accounts) && |target| == 20 && tokenIndex < MAX_LENGTH - 1
    ensures var out := ApplyDeposit(accounts, tokenIndex, target, amount).accounts;
            TransferNonce(out, address, k) == TransferNonce(accounts, address, k) &&
            WithdrawNonce(out, address, k) == WithdrawNonce(accounts, address, k)
  {
    hide WrapAll, Wrap, Credit, Regular, Stored;
    var found := GetOrCreate(accounts, target, tokenIndex + 1);
    FindAfterCreate(accounts, target, tokenIndex + 1, address);
    GetOrCreateKeeps(accounts, target, tokenIndex + 1);
    if amount >= 0 {
      var a := found.accounts[found.slot];
      CreditKeepsNonces(a, tokenIndex, amount);
      CreditAccount(a, tokenIndex, amount);
      StoredAccount(Credit(a, tokenIndex, amount));
      FindAfterReplace(found.accounts, found.slot, Stored(Credit(a, tokenIndex, amount)), address);
    }
  }

  lemma WithdrawNonces(accounts: seq<AccountInfo>, tokenIndex: nat, target: bytes, amount: int, nonce: int,
          address: bytes, k: nat)
    requires WellFormedLedger(accounts)
    ensures var out := ApplyWithdraw(accounts, tokenIndex, target, amount, nonce);
            && TransferNonce(out.accounts, address, k) == TransferNonce(accounts, address, k)
            && (out.result.Ok? ==> nonce == WithdrawNonce(accounts, target, tokenIndex))
            && WithdrawNonce(out.accounts, address, k) ==
               if out.result.Ok? && address == target
                 && k == tokenIndex then Wrap(nonce + 1) else WithdrawNonce(accounts, address, k)
  {
    hide WrapAll, Wrap, Regular;
    var out := ApplyWithdraw(accounts, tokenIndex, target, amount, nonce);
    if out.result.Ok? {
      var slot, updated := FindSlot(accounts, target).value, out.result.value[0].info;
      RegularNonces(accounts[slot], k);
      StoredAt(updated.transferNonces, k);
      StoredAt(updated.withdrawNonces, k);
      FindAfterReplace(accounts, slot, Stored(updated), address);
    }
  }

  lemma FindAfterBoth(accounts: seq<AccountInfo>, slot: nat, a: AccountInfo, other: nat, b: AccountInfo, address: bytes)
    requires Distinct(accounts) && slot < |accounts| && other < |accounts|
    requires a.account == accounts[slot].account && b.account == accounts[other].account
    ensures FindSlot(accounts[slot := a][other := b], address) == FindSlot(accounts, address)
  {
    hide FindSlot;
    FindAfterReplace(accounts, slot, a, address);
    FindAfterReplace(accounts[slot := a], other, b, address);
  }

  /** The two records of an accepted transfer, the sender's nonces advanced and the recipient's kept. */
  lemma TransferRecords(accounts: seq<AccountInfo>, tokenIndex: nat, sender: bytes, recipient: bytes, amount: int,
          nonce: int,
                        k: nat) returns (slot: nat, from: AccountInfo, to: AccountInfo)
    requires ApplyTransfer(accounts, tokenIndex, sender, recipient, amount, nonce).result.Ok?
    requires WellFormedLedger(GetOrCreate(accounts, recipient, tokenIndex + 1).accounts)
    ensures var found := GetOrCreate(accounts, recipient, tokenIndex + 1);
            && FindSlot(found.accounts, sender) == Some(slot) && slot < |found.accounts|
            && ApplyTransfer(accounts, tokenIndex, sender, recipient, amount, nonce).accounts ==
               found.accounts[slot := from][found.slot := to]
            && from.account == sender && to.account == recipient
            && nonce == At(found.accounts[slot].transferNonces, tokenIndex)
            && At(from.transferNonces, k) ==
               (if k == tokenIndex then Wrap(nonce + 1) else At(found.accounts[slot].transferNonces, k))
            && At(from.withdrawNonces, k) == At(found.accounts[slot].withdrawNonces, k)
            && SameNonces(to, found.accounts[found.slot])
  {
    hide WrapAll, Wrap, Credit, Regular, Distinct, FindSlot, GetOrCreate;
    var found := GetOrCreate(accounts, recipient, tokenIndex + 1);
    var out := ApplyTransfer(accounts, tokenIndex, sender, recipient, amount, nonce);
    var updated := out.result.value[0].info;
    slot, from, to := FindSlot(found.accounts, sender).value, Stored(updated), Stored(out.result.value[1].info);
    RegularNonces(found.accounts[slot], k);
    StoredAt(updated.transferNonces, k);
    StoredAt(updated.withdrawNonces, k);
    CreditKeepsNonces(found.accounts[found.slot], tokenIndex, amount);
    CreditAccount(found.accounts[found.slot], tokenIndex, amount);
  }

  lemma TransferNonces(accounts: seq<AccountInfo>, tokenIndex: nat, sender: bytes, recipient: bytes, amount: int,
          nonce: int,
                       address: bytes, k: nat)
    requires WellFormedLedger(accounts) && |recipient| == 20 && tokenIndex < MAX_LENGTH - 1
    ensures var out := ApplyTransfer(accounts, tokenIndex, sender, recipient, amount, nonce);
            && WithdrawNonce(out.accounts, address, k) == WithdrawNonce(accounts, address, k)
            && (out.result.Ok? ==> nonce == TransferNonce(accounts, sender, tokenIndex))
            && TransferNonce(out.accounts, address, k) ==
               if out.result.Ok? && sender != recipient && address == sender && k == tokenIndex then Wrap(nonce + 1)
               else TransferNonce(accounts, address, k)
  {
    hide Wrap, Regular, Distinct, FindSlot, GetOrCreate, Credit, Stored;
    var out := ApplyTransfer(accounts, tokenIndex, sender, recipient, amount, nonce);
    var found := GetOrCreate(accounts, recipient, tokenIndex + 1);
    CreateKeepsNonces(accounts, recipient, tokenIndex + 1, address, k);
    CreateKeepsNonces(accounts, recipient, tokenIndex + 1, sender, tokenIndex);
    GetOrCreateKeeps(accounts, recipient, tokenIndex + 1);
    if out.result.Ok? {
      var slot, from, to := TransferRecords(accounts, tokenIndex, sender, recipient, amount, nonce, k);
      FindAfterBoth(found.accounts, slot, from, found.slot, to, address);
      SameSlot(accounts, recipient, tokenIndex + 1, sender);
      SameSlot(accounts, recipient, tokenIndex + 1, address);
    }
  }

  /** One step moves exactly the spender's nonce, by one, and only after checking it. */
  lemma StepNonces(reg: Registry, accounts: seq<AccountInfo>, tx: Transaction, address: bytes, k: nat)
    requires WellFormedLedger(accounts) && Usable(reg)
    ensures var after := Apply(reg, accounts, tx).accounts;
            && TransferNonce(after, address, k) ==
               (if SpendsTransferNonce(reg, accounts, tx, address, k) then Wrap(tx.nonce + 1)
                 else TransferNonce(accounts, address, k))
            && WithdrawNonce(after, address, k) ==
               (if SpendsWithdrawNonce(reg, accounts, tx, address, k) then Wrap(tx.nonce + 1)
                 else WithdrawNonce(accounts, address, k))
    ensures Accepted(reg, accounts, tx) && tx.TransferTransaction? ==>
            tx.nonce == TransferNonce(accounts, tx.sender, reg.toIndex[tx.token])
    ensures Accepted(reg, accounts, tx) && tx.WithdrawTransaction? ==>
            tx.nonce == WithdrawNonce(accounts, tx.account, reg.toIndex[tx.token])
  {
    hide WellFormedLedger, Credit, TransferNonce, WithdrawNonce, Wrap, WrapAll, FindSlot;
    if tx.token in reg.toIndex {
      var tokenIndex := reg.toIndex[tx.token];
      match tx
      case DepositTransaction(account, _, amount, _) =>
        DepositNonces(accounts, tokenIndex, account, amount, address, k);
      case WithdrawTransaction(account, _, amount, nonce, _) =>
        WithdrawNonces(accounts, tokenIndex, account, amount, nonce, address, k);
      case TransferTransaction(sender, recipient, _, amount, nonce, _) =>
        TransferNonces(accounts, tokenIndex, sender, recipient, amount, nonce, address, k);
    }
  }

  function TransfersSpent(reg: Registry, txs: seq<Transaction>, address: bytes, k: nat): nat {
    if txs == [] then 0
    else
      TransfersSpent(reg, txs[..|txs| - 1], address, k) +
      if SpendsTransferNonce(reg, Run(reg, txs[..|txs| - 1]), txs[|txs| - 1], address, k) then 1 else 0
  }

  function WithdrawalsSpent(reg: Registry, txs: seq<Transaction>, address: bytes, k: nat): nat {
    if txs == [] then 0
    else
      WithdrawalsSpent(reg, txs[..|txs| - 1], address, k) +
      if SpendsWithdrawNonce(reg, Run(reg, txs[..|txs| - 1]), txs[|txs| - 1], address, k) then 1 else 0
  }

  lemma WrapNext(c: nat)
    ensures Wrap(Wrap(c) + 1) == Wrap(c + 1)
  {
  }

  /** Over every run a stored nonce is the number of accepted spends of it, modulo 2^256. */
  lemma {:induction false} NonceCounts(reg: Registry, txs: seq<Transaction>, address: bytes, k: nat)
    requires Usable(reg)
    ensures TransferNonce(Run(reg, txs), address, k) == Wrap(TransfersSpent(reg, txs, address, k))
    ensures WithdrawNonce(Run(reg, txs), address, k) == Wrap(WithdrawalsSpent(reg, txs, address, k))
  {
    hide Apply, Wrap, TransferNonce, WithdrawNonce, SpendsTransferNonce, SpendsWithdrawNonce, WellFormedLedger;
    if txs == [] {
      EmptyNonces(address, k);
    } else {
      var init, tx := txs[..|txs| - 1], txs[|txs| - 1];
      NonceCounts(reg, init, address, k);
      RunKeepsWellFormed(reg, init);
      StepNonces(reg, Run(reg, init), tx, address, k);
      SpenderNonce(reg, Run(reg, init), tx, address, k);
      WrapNext(TransfersSpent(reg, init, address, k));
      WrapNext(WithdrawalsSpent(reg, init, address, k));
    }
  }

  lemma EmptyNonces(address: bytes, k: nat)
    ensures TransferNonce([], address, k) == WithdrawNonce([], address, k) == 0 == Wrap(0)
  {
  }

  lemma SpenderNonce(reg: Registry, accounts: seq<AccountInfo>, tx: Transaction, address: bytes, k: nat)
    requires WellFormedLedger(accounts) && Usable(reg)
    ensures SpendsTransferNonce(reg, accounts, tx, address, k) ==> tx.nonce == TransferNonce(accounts, address, k)
    ensures SpendsWithdrawNonce(reg, accounts, tx, address, k) ==> tx.nonce == WithdrawNonce(accounts, address, k)
  {
    hide Apply, Wrap, TransferNonce, WithdrawNonce, WellFormedLedger;
    StepNonces(reg, accounts, tx, address, k);
  }

  lemma {:induction false} SpentGrows(reg: Registry, txs: seq<Transaction>, i: nat, address: bytes, k: nat)
    requires i <= |txs|
    ensures TransfersSpent(reg, txs[..i], address, k) <= TransfersSpent(reg, txs, address, k) <= |txs|
    ensures WithdrawalsSpent(reg, txs[..i], address, k) <= WithdrawalsSpent(reg, txs, address, k) <= |txs|
  {
    hide SpendsTransferNonce, SpendsWithdrawNonce, Run;
    if i < |txs| {
      assert txs[..|txs| - 1][..i] == txs[..i];
      SpentGrows(reg, txs[..|txs| - 1], i, address, k);
    } else {
      TakeAllTxs(txs);
      if txs != [] { SpentGrows(reg, txs[..|txs| - 1], 0, address, k); }
    }
  }

  lemma TakeAllTxs(txs: seq<Transaction>)
    ensures txs[..|txs|] == txs
  {
  }

  /**
   Nonce discipline: the spend of a nonce carries the number of earlier spends, so no two accepted transfers,
   and no two accepted withdrawals, of one account and token share a nonce.
   */
  lemma NoReplay(reg: Registry, txs: seq<Transaction>, i: nat, j: nat, address: bytes, k: nat)
    requires Usable(reg) && i < j < |txs| < UINT_LIMIT
    ensures SpendsTransferNonce(reg, Run(reg, txs[..i]), txs[i], address, k) ==>
              txs[i].nonce == TransfersSpent(reg, txs[..i], address, k)
    ensures SpendsWithdrawNonce(reg, Run(reg, txs[..i]), txs[i], address, k) ==>
              txs[i].nonce == WithdrawalsSpent(reg, txs[..i], address, k)
    ensures (SpendsTransferNonce(reg, Run(reg, txs[..i]), txs[i], address, k) &&
             SpendsTransferNonce(reg, Run(reg, txs[..j]), txs[j], address, k)) ==> txs[i].nonce < txs[j].nonce
    ensures (SpendsWithdrawNonce(reg, Run(reg, txs[..i]), txs[i], address, k) &&
             SpendsWithdrawNonce(reg, Run(reg, txs[..j]), txs[j], address, k)) ==> txs[i].nonce < txs[j].nonce
  {
    hide Apply, TransferNonce, WithdrawNonce, SpendsTransferNonce, SpendsWithdrawNonce, Run;
    var upto := txs[..i + 1];
    assert upto[..i] == txs[..i] && upto[i] == txs[i];
    assert txs[..j][..i + 1] == upto;
    NonceCounts(reg, txs[..i], address, k);
    NonceCounts(reg, txs[..j], address, k);
    RunKeepsWellFormed(reg, txs[..i]);
    RunKeepsWellFormed(reg, txs[..j]);
    SpenderNonce(reg, Run(reg, txs[..i]), txs[i], address, k);
    SpenderNonce(reg, Run(reg, txs[..j]), txs[j], address, k);
    SpentGrows(reg, txs[..i], 0, address, k);
    SpentGrows(reg, txs[..j], i + 1, address, k);
  }

  /** Both records of a self-transfer go to one slot, where only the second stays. */
  lemma SelfTransferAccounts(reg: Registry, accounts: seq<AccountInfo>, tx: Transaction)
    requires Accepted(reg, accounts, tx) && SelfTransfer(tx)
    ensures var k := reg.toIndex[tx.token];
            var found := GetOrCreate(accounts, tx.recipient, k + 1);
            Apply(reg, accounts, tx).accounts ==
              found.accounts[found.slot := Stored(Credit(found.accounts[found.slot], k, tx.amount))]
  {
    hide Stored, Credit, FindSlot, GetOrCreate;
    FindAfterCreate(accounts, tx.recipient, reg.toIndex[tx.token] + 1, tx.sender);
  }

  /** What a self-transfer of an existing account checks. */
  lemma SelfTransferChecks(reg: Registry, accounts: seq<AccountInfo>, tx: Transaction, slot: nat)
    requires SelfTransfer(tx) && FindSlot(accounts, tx.sender) == Some(slot) && tx.token in reg.toIndex
    ensures var a, k := accounts[slot], reg.toIndex[tx.token];
            Accepted(reg, accounts, tx) <==>
            && 0 <= tx.amount && k < |a.transferNonces| && a.transferNonces[k] == tx.nonce
            && k < |a.balances| && a.balances[k] >= tx.amount
  {
    hide Stored, Credit, FindSlot;
  }

  /** Creating the account first changes nothing about whether a self-transfer is accepted. */
  lemma SelfTransferCreates(reg: Registry, accounts: seq<AccountInfo>, tx: Transaction)
    requires Accepted(reg, accounts, tx) && SelfTransfer(tx)
    ensures var found := GetOrCreate(accounts, tx.recipient, reg.toIndex[tx.token] + 1);
            FindSlot(found.accounts, tx.sender) == Some(found.slot) && Accepted(reg, found.accounts, tx)
  {
    hide Stored, Credit, FindSlot, ZeroAccount;
    FindAfterCreate(accounts, tx.recipient, reg.toIndex[tx.token] + 1, tx.sender);
  }

  /** A self-transfer spends nothing: accepted once, it is accepted again, and each time adds its amount. */
  lemma SelfTransferRepeats(reg: Registry, accounts: seq<AccountInfo>, tx: Transaction)
    requires WellFormedLedger(accounts) && Usable(reg) && Accepted(reg, accounts, tx) && SelfTransfer(tx)
    requires Total(accounts, reg.toIndex[tx.token]) + tx.amount < UINT_LIMIT
    ensures var after := Apply(reg, accounts, tx).accounts;
            Accepted(reg, after, tx) && Total(after, reg.toIndex[tx.token]) ==
              Total(accounts, reg.toIndex[tx.token]) + tx.amount
  {
    hide Stored, Regular, Total, FindSlot, Credit, Distinct, Apply, GetOrCreate, Accepted;
    AcceptedIsMapped(reg, accounts, tx);
    var k := reg.toIndex[tx.token];
    var found := GetOrCreate(accounts, tx.recipient, k + 1);
    var a := found.accounts[found.slot];
    var updated := Stored(Credit(a, k, tx.amount));
    GetOrCreateKeeps(accounts, tx.recipient, k + 1);
    FoundTotal(accounts, tx.recipient, k + 1, k);
    StepTotal(reg, accounts, tx, k);
    ApplyKeepsWellFormed(reg, accounts, tx);
    BalanceWithinTotal(Apply(reg, accounts, tx).accounts, k, 0);
    SelfTransferCreates(reg, accounts, tx);
    SelfTransferChecks(reg, found.accounts, tx, found.slot);
    CreditedAgain(a, k, tx.amount);
    SelfTransferAccounts(reg, accounts, tx);
    FindAfterReplace(found.accounts, found.slot, updated, tx.sender);
    SelfTransferChecks(reg, found.accounts[found.slot := updated], tx, found.slot);
  }

  lemma CreditedAgain(a: AccountInfo, k: nat, amount: nat)
    requires Regular(a) && k < |a.balances| && a.balances[k] + amount < UINT_LIMIT
    ensures var b := Stored(Credit(a, k, amount));
            && |b.balances| == |a.balances| && b.account == a.account && b.balances[k] == a.balances[k] + amount
            && |b.transferNonces| == |a.transferNonces| && b.transferNonces[k] == a.transferNonces[k]
  {
    hide WrapAll, Wrap;
    StoredAt(Credit(a, k, amount).balances, k);
    CreditKeepsNonces(a, k, amount);
    assert At(Stored(Credit(a, k, amount)).transferNonces, k) == At(a.transferNonces, k);
  }

  // ---------------------------------------------------------------- created accounts

  lemma CreatedLast(reg: Registry, accounts: seq<AccountInfo>, tx: Transaction)
    requires Creates(reg, accounts, tx)
    ensures |Apply(reg, accounts, tx).accounts| == |accounts| + 1
    ensures Apply(reg, accounts, tx).accounts[|accounts|].account == Target(tx).value
  {
    hide Stored, Credit, FindSlot;
    var k := reg.toIndex[tx.token];
    var created := ZeroAccount(Target(tx).value, k + 1);
    CreditAccount(created, k, tx.amount);
    StoredAccount(Credit(created, k, tx.amount));
    if tx.TransferTransaction? && Accepted(reg, accounts, tx) {
      StoredAccount(Apply(reg, accounts, tx).result.value[0].info);
    }
  }

  // ---------------------------------------------------------------- panics

  /** The sender's length check lets an index equal to the length through, and the access behind it is out of range. */
  predicate TransferPanics(accounts: seq<AccountInfo>, tokenIndex: nat, sender: bytes, amount: int) {
    var slot := FindSlot(accounts, sender);
    slot.Some? && amount >= 0 && tokenIndex == |accounts[slot.value].balances|
  }

  /**
   A transfer panics exactly when its sender has all tokens before this one, decided before the recipient is created.
   */
  lemma TransferPanicsIff(accounts: seq<AccountInfo>, k: nat, sender: bytes, recipient: bytes, amount: int, nonce: int)
    requires WellFormedLedger(accounts) && |recipient| == 20 && k < MAX_LENGTH - 1
    ensures ApplyTransfer(accounts, k, sender, recipient, amount, nonce).result == Err(Panic) <==>
            TransferPanics(GetOrCreate(accounts, recipient, k + 1).accounts, k, sender, amount)
    ensures TransferPanics(GetOrCreate(accounts, recipient, k + 1).accounts, k, sender, amount) <==>
            TransferPanics(accounts, k, sender, amount)
  {
    hide InRange, Distinct, FindSlot, Credit, Stored;
    var found := GetOrCreate(accounts, recipient, k + 1);
    GetOrCreateKeeps(accounts, recipient, k + 1);
    FindAfterCreate(accounts, recipient, k + 1, sender);
    if FindSlot(found.accounts, sender).Some? {
      assert Regular(found.accounts[FindSlot(found.accounts, sender).value]);
    }
  }

  lemma WithdrawNeverPanics(accounts: seq<AccountInfo>, k: nat, address: bytes, amount: int, nonce: int)
    requires WellFormedLedger(accounts)
    ensures ApplyWithdraw(accounts, k, address, amount, nonce).result != Err(Panic)
  {
    hide InRange, Distinct, FindSlot, Stored;
    if FindSlot(accounts, address).Some? {
      assert Regular(accounts[FindSlot(accounts, address).value]);
    }
  }

  /** Exactly when a transaction panics; deposits and withdrawals never do. */
  predicate Panics(reg: Registry, accounts: seq<AccountInfo>, tx: Transaction) {
    tx.TransferTransaction? && tx.token in reg.toIndex
      && TransferPanics(accounts, reg.toIndex[tx.token], tx.sender, tx.amount)
  }

  lemma PanicsIff(reg: Registry, accounts: seq<AccountInfo>, tx: Transaction)
    requires WellFormedLedger(accounts) && Usable(reg)
    ensures Apply(reg, accounts, tx).result == Err(Panic) <==> Panics(reg, accounts, tx)
  {
    hide WellFormedLedger, ApplyWithdraw, ApplyTransfer, TransferPanics;
    if tx.token in reg.toIndex {
      var k := reg.toIndex[tx.token];
      match tx
      case DepositTransaction(_, _, _, _) =>
      case WithdrawTransaction(account, _, amount, nonce, _) =>
        WithdrawNeverPanics(accounts, k, account, amount, nonce);
      case TransferTransaction(sender, recipient, _, amount, nonce, _) =>
        TransferPanicsIff(accounts, k, sender, recipient, amount, nonce);
    }
  }

  /** One input: after a first deposit of the first of two tokens, any transfer of the second by that account panics. */
  lemma SecondTokenPanics(a: EthAddress, b: EthAddress, first: EthAddress, second: EthAddress,
                          deposit: nat, amount: nat, nonce: int)
    requires first != second
    ensures var reg := Registry(map[first := 0, second := 1], map[0 := first, 1 := second]);
            var accounts := Run(reg, [DepositTransaction(a, first, deposit, [])]);
            Apply(reg, accounts, TransferTransaction(a, b, second, amount, nonce, [])).result == Err(Panic)
  {
    hide Stored, WellFormedLedger, ApplyTransfer;
    var reg := Registry(map[first := 0, second := 1], map[0 := first, 1 := second]);
    var txs := [DepositTransaction(a, first, deposit, [])];
    RunKeepsWellFormed(reg, txs);
    OneDeposit(reg, a, first, deposit);
    PanicsIff(reg, Run(reg, txs), TransferTransaction(a, b, second, amount, nonce, []));
  }

  lemma OneDeposit(reg: Registry, a: EthAddress, token: EthAddress, deposit: nat)
    requires token in reg.toIndex && reg.toIndex[token] == 0
    ensures var accounts := Run(reg, [DepositTransaction(a, token, deposit, [])]);
            |accounts| == 1 && FindSlot(accounts, a) == Some(0) && |accounts[0].balances| == 1
  {
    var tx := DepositTransaction(a, token, deposit, []);
    assert [tx][..0] == [];
    var out := Apply(reg, [], tx).accounts;
    assert Run(reg, [tx]) == out;
    FindAfterCreate([], a, 1, a);
    assert |out| == 1 && out[0].account == a;
    assert out[..0] == [];
  }

  /** One input on which 2^256 is cut off: a full balance and one more. */
  lemma FullBalanceOverflows(reg: Registry, a: EthAddress, token: EthAddress)
    requires Usable(reg) && token in reg.toIndex
    ensures var full, one := DepositTransaction(a, token, UINT_LIMIT - 1, []), DepositTransaction(a, token, 1, []);
            && Total(Run(reg, [full, one]), reg.toIndex[token]) == 0
            && RunFlows(reg, [full, one], reg.toIndex[token]).overflows == 1
  {
    hide Overflow, WellFormedLedger, FindSlot, MadeUp, Withdrawn, Apply, Creates;
    var full, one := DepositTransaction(a, token, UINT_LIMIT - 1, []), DepositTransaction(a, token, 1, []);
    var txs, k := [full, one], reg.toIndex[token];
    assert txs[..1] == [full] && [full][..0] == [];
    var first, both := Run(reg, [full]), Run(reg, txs);
    DepositFlows(reg, [], full, k);
    DepositFlows(reg, first, one, k);
    assert Run(reg, []) == [] && RunFlows(reg, [], k) == Flows(0, 0, 0, 0);
    assert RunFlows(reg, [full], k).deposits == UINT_LIMIT - 1;
    assert RunFlows(reg, txs, k).deposits == UINT_LIMIT;
    OnlyAccount(reg, a, token);
    Conservation(reg, txs, k);
    RunKeepsWellFormed(reg, txs);
    StoredBalance(both, 0, k);
    assert both[..0] == [];
  }

  lemma DepositFlows(reg: Registry, accounts: seq<AccountInfo>, tx: Transaction, k: nat)
    requires tx.DepositTransaction? && tx.token in reg.toIndex && reg.toIndex[tx.token] == k && tx.amount >= 0
    ensures Deposited(reg, accounts, tx, k) == tx.amount
    ensures MadeUp(reg, accounts, tx, k) == 0 && Withdrawn(reg, accounts, tx, k) == 0
  {
    hide Stored, Credit, GetOrCreate;
  }

  lemma OnlyAccount(reg: Registry, a: EthAddress, token: EthAddress)
    requires token in reg.toIndex
    ensures |Run(reg, [DepositTransaction(a, token, UINT_LIMIT - 1, []), DepositTransaction(a, token, 1, [])])| == 1
  {
    hide Apply, FindSlot;
    var full, one := DepositTransaction(a, token, UINT_LIMIT - 1, []), DepositTransaction(a, token, 1, []);
    assert [full, one][..1] == [full] && [full][..0] == [];
    assert Run(reg, []) == [];
    var first := Apply(reg, [], full).accounts;
    assert Run(reg, [full]) == first;
    assert Run(reg, [full, one]) == Apply(reg, first, one).accounts;
    NobodyListed(a);
    CreatesGrows(reg, [], full);
    CreatesGrows(reg, first, one);
    CreatedAddressListed(reg, full);
  }

  lemma NobodyListed(a: bytes)
    ensures FindSlot([], a).None?
  {
  }

  lemma CreatedAddressListed(reg: Registry, tx: Transaction)
    requires tx.DepositTransaction? && tx.token in reg.toIndex
    ensures FindSlot(Apply(reg, [], tx).accounts, tx.account).Some?
  {
    hide Stored, Credit, ZeroAccount;
    var n := reg.toIndex[tx.token];
    var found := GetOrCreate([], tx.account, n + 1);
    ZeroAddress(tx.account, n + 1);
    CreditAccount(found.accounts[found.slot], n, tx.amount);
    StoredAccount(Credit(found.accounts[found.slot], n, tx.amount));
    var out := Apply(reg, [], tx).accounts;
    assert |out| == 1 && out[0].account == tx.account && out[0] in out;
  }
}
