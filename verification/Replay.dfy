/** The validator replaying what an aggregator published, over whole runs. */
module Replay {
  import opened ByteStrings
  import opened Errors
  import opened Accounts
  import opened Ledger
  import opened LedgerTheorems
  import opened StateSpec
  import opened Transitions
  import opened Sealing
  import opened Validation

  /** Both token tables describe one one-to-one mapping. */
  ghost predicate OneToOne(reg: Registry) {
    forall token :: token in reg.toIndex ==>
      reg.toIndex[token] in reg.toToken && reg.toToken[reg.toIndex[token]] == token
  }

  /** An account that comes into being without a transition saying so, or with one the validator cannot read. */
  predicate Unpublished(reg: Registry, accounts: seq<AccountInfo>, tx: Transaction) {
    Creates(reg, accounts, tx) && (!Accepted(reg, accounts, tx) || SelfTransfer(tx))
  }

  // ---------------------------------------------------------------- one step

  lemma KeptSlot(reg: Registry, accounts: seq<AccountInfo>, tx: Transaction, slot: nat)
    requires WellFormedLedger(accounts) && Usable(reg) && slot < |accounts|
    ensures slot < |Apply(reg, accounts, tx).accounts|
    ensures FindSlot(Apply(reg, accounts, tx).accounts, accounts[slot].account) == Some(slot)
  {
    hide Apply, Regular, FindSlot;
    CreatesGrows(reg, accounts, tx);
    ApplyKeepsWellFormed(reg, accounts, tx);
    FindsIt(Apply(reg, accounts, tx).accounts, slot);
  }

  lemma SnapshotOfSlot(h: Hasher, accounts: seq<AccountInfo>, slot: nat)
    requires WellFormedLedger(accounts) && slot < |accounts| <= ACCOUNT_LIMIT
    ensures Snapshot(h, accounts, slot).Ok? && Owner(Some(Snapshot(h, accounts, slot).value)) == accounts[slot].account
  {
    hide StateRoot, SlotProof;
    assert Regular(accounts[slot]);
    AddressIsItself(accounts[slot].account);
  }

  /** Updates name the transaction's accounts in order, and say of the target whether it was missing. */
  predicate NamesAccounts(accounts: seq<AccountInfo>, tx: Transaction, updates: seq<AccountInfoUpdate>) {
    match tx
    case DepositTransaction(account, _, _, _) =>
      |updates| == 1 && updates[0].info.account == account && updates[0].newAccount == FindSlot(accounts, account).None?
    case WithdrawTransaction(account, _, _, _, _) =>
      |updates| == 1 && updates[0].info.account == account && FindSlot(accounts, account).Some?
    case TransferTransaction(sender, recipient, _, _, _, _) =>
      && |updates| == 2 && updates[0].info.account == sender && updates[1].info.account == recipient
      && updates[1].newAccount == FindSlot(accounts, recipient).None?
      && (sender != recipient ==> FindSlot(accounts, sender).Some?)
  }

  lemma AcceptedNamesAccounts(reg: Registry, accounts: seq<AccountInfo>, tx: Transaction)
    requires Accepted(reg, accounts, tx)
    ensures tx.token in reg.toIndex && NamesAccounts(accounts, tx, Apply(reg, accounts, tx).result.value)
  {
    hide Stored, FindSlot;
    if tx.TransferTransaction? && tx.sender != tx.recipient {
      FindAfterCreate(accounts, tx.recipient, reg.toIndex[tx.token] + 1, tx.sender);
    }
  }

  lemma EntryFields(h: Hasher, accounts: seq<AccountInfo>, update: AccountInfoUpdate)
    ensures EntryFor(h, accounts, update).newAccount == update.newAccount
    ensures EntryFor(h, accounts, update).accountInfo == update.info
  {
    hide SlotProof, FindSlot;
  }

  /** An existing account's entry names its slot, and the snapshot of that slot names the account. */
  lemma EntryOfExisting(h: Hasher, reg: Registry, accounts: seq<AccountInfo>, tx: Transaction,
          update: AccountInfoUpdate)
    requires WellFormedLedger(accounts) && Usable(reg) && |accounts| <= ACCOUNT_LIMIT
    requires FindSlot(accounts, update.info.account).Some? && |update.info.account| == 20
    ensures var entry := EntryFor(h, Apply(reg, accounts, tx).accounts, update);
            var snapshot := Snapshot(h, accounts, entry.slotIndex);
            snapshot.Ok? && Owner(Some(snapshot.value)) == update.info.account
  {
    hide Apply, FindSlot, SlotProof, Snapshot, WellFormedLedger;
    var slot := FindSlot(accounts, update.info.account).value;
    KeptSlot(reg, accounts, tx, slot);
    SnapshotOfSlot(h, accounts, slot);
  }

  /** The validator rebuilds exactly the transaction a transition was made from, whatever its posted root. */
  lemma StepRebuilds(h: Hasher, reg: Registry, fraudTransfer: bool, accounts: seq<AccountInfo>, tx: Transaction)
    requires WellFormedLedger(accounts) && Usable(reg) && OneToOne(reg) && |accounts| <= ACCOUNT_LIMIT
    requires Accepted(reg, accounts, tx) && !Unpublished(reg, accounts, tx)
    ensures var t := Emitted(h, reg, fraudTransfer, accounts, tx);
            t.Ok? && Reconstructed(h, reg, accounts, t.value) == Ok(tx)
  {
    hide Apply, FindSlot, Snapshot, EntryFor, StateRoot, WellFormedLedger, Owner;
    AcceptedIsEmitted(h, reg, fraudTransfer, accounts, tx);
    AcceptedNamesAccounts(reg, accounts, tx);
    var out := Apply(reg, accounts, tx);
    var updates := out.result.value;
    EntryFields(h, out.accounts, updates[0]);
    match tx
    case DepositTransaction(account, _, _, _) =>
      if FindSlot(accounts, account).Some? {
        EntryOfExisting(h, reg, accounts, tx, updates[0]);
      }
      AddressIsItself(account);
    case WithdrawTransaction(account, _, _, _, _) =>
      EntryOfExisting(h, reg, accounts, tx, updates[0]);
    case TransferTransaction(sender, recipient, _, _, _, _) =>
      if FindSlot(accounts, recipient).Some? {
        EntryOfExisting(h, reg, accounts, tx, updates[1]);
      }
      EntryFields(h, out.accounts, updates[1]);
      EntryOfExisting(h, reg, accounts, tx, updates[0]);
      AddressIsItself(recipient);
  }

  lemma PostedRoot(h: Hasher, reg: Registry, fraudTransfer: bool, accounts: seq<AccountInfo>, tx: Transaction)
    requires Emitted(h, reg, fraudTransfer, accounts, tx).Ok?
    ensures Emitted(h, reg, fraudTransfer, accounts, tx).value.stateRoot ==
            if fraudTransfer && tx.TransferTransaction? then Zeros(32)
              else StateRoot(h, Apply(reg, accounts, tx).accounts)
  {
    hide Apply, EntryFor, StateRoot;
  }

  /**
   The replay of a published transition ends in the aggregator's own state, and finds its root unless the root was
   blanked.
   */
  lemma StepReplays(h: Hasher, reg: Registry, fraudTransfer: bool, accounts: seq<AccountInfo>, tx: Transaction)
    requires WellFormedLedger(accounts) && Usable(reg) && OneToOne(reg) && |accounts| <= ACCOUNT_LIMIT
    requires Accepted(reg, accounts, tx) && !Unpublished(reg, accounts, tx)
    ensures Emitted(h, reg, fraudTransfer, accounts, tx).Ok?
    ensures var after := Apply(reg, accounts, tx).accounts;
            var judged := Judge(h, reg, accounts, Emitted(h, reg, fraudTransfer, accounts, tx).value);
            && judged.accounts == after
            && (judged.verdict == Matched || judged.verdict == Mismatched)
            && (judged.verdict == Mismatched <==>
                  fraudTransfer && tx.TransferTransaction? && StateRoot(h, after) != Zeros(32))
  {
    hide Apply, Emitted, Reconstructed, StateRoot, WellFormedLedger, Creates;
    StepRebuilds(h, reg, fraudTransfer, accounts, tx);
    PostedRoot(h, reg, fraudTransfer, accounts, tx);
  }

  // ---------------------------------------------------------------- whole runs

  /** The validator's account list after a list of transitions. */
  function Replayed(h: Hasher, reg: Registry, ts: seq<Transition>): seq<AccountInfo> {
    if ts == [] then [] else Judge(h, reg, Replayed(h, reg, ts[..|ts| - 1]), ts[|ts| - 1]).accounts
  }

  function VerdictAt(h: Hasher, reg: Registry, ts: seq<Transition>, k: nat): Verdict
    requires k < |ts|
  {
    Judge(h, reg, Replayed(h, reg, ts[..k]), ts[k]).verdict
  }

  lemma ReplayedNext(h: Hasher, reg: Registry, ts: seq<Transition>, t: Transition)
    ensures Replayed(h, reg, ts + [t]) == Judge(h, reg, Replayed(h, reg, ts), t).accounts
    ensures VerdictAt(h, reg, ts + [t], |ts|) == Judge(h, reg, Replayed(h, reg, ts), t).verdict
    ensures forall k: nat :: k < |ts| ==> VerdictAt(h, reg, ts + [t], k) == VerdictAt(h, reg, ts, k)
  {
    hide Judge;
    assert (ts + [t])[..|ts|] == ts;
    forall k: nat | k < |ts| ensures VerdictAt(h, reg, ts + [t], k) == VerdictAt(h, reg, ts, k) {
      assert (ts + [t])[..k] == ts[..k];
    }
  }

  /** Everything the aggregator published, sealed or pending. */
  function Published(h: Hasher, reg: Registry, fraudTransfer: bool, subs: seq<Submission>): seq<Transition> {
    TransitionsOf(Additions(h, reg, fraudTransfer, subs))
  }

  function AcceptedOf(reg: Registry, txs: seq<Transaction>): seq<Transaction> {
    if txs == [] then []
    else
      var init, tx := txs[..|txs| - 1], txs[|txs| - 1];
      AcceptedOf(reg, init) + if Accepted(reg, Run(reg, init), tx) then [tx] else []
  }

  lemma PublishedNext(h: Hasher, reg: Registry, fraudTransfer: bool, subs: seq<Submission>)
    requires subs != []
    ensures var init, last := subs[..|subs| - 1], subs[|subs| - 1];
            var emitted := Emitted(h, reg, fraudTransfer, Run(reg, TransactionsOf(init)), last.tx);
            && TransactionsOf(subs)[..|subs| - 1] == TransactionsOf(init) && TransactionsOf(subs)[|subs| - 1] == last.tx
            && Published(h, reg, fraudTransfer, subs) ==
               Published(h, reg, fraudTransfer, init) + if emitted.Ok? then [emitted.value] else []
  {
    hide Emitted, TransitionsOf;
    var init, last := subs[..|subs| - 1], subs[|subs| - 1];
    var emitted := Emitted(h, reg, fraudTransfer, Run(reg, TransactionsOf(init)), last.tx);
    assert TransactionsOf(subs)[..|subs| - 1] == TransactionsOf(init);
    if emitted.Ok? {
      TransitionsAppend(Additions(h, reg, fraudTransfer, init), Addition(emitted.value, last.proposed));
    } else {
      assert Published(h, reg, fraudTransfer, init) + [] == Published(h, reg, fraudTransfer, init);
    }
  }

  /** No step of the run creates an account it does not publish. */
  ghost predicate AllPublished(reg: Registry, txs: seq<Transaction>) {
    forall i :: 0 <= i < |txs| ==> !Unpublished(reg, Run(reg, txs[..i]), txs[i])
  }

  lemma AllPublishedBefore(reg: Registry, txs: seq<Transaction>)
    requires txs != [] && AllPublished(reg, txs)
    ensures AllPublished(reg, txs[..|txs| - 1])
    ensures !Unpublished(reg, Run(reg, txs[..|txs| - 1]), txs[|txs| - 1])
  {
    hide Unpublished;
    var init := txs[..|txs| - 1];
    forall i | 0 <= i < |init| ensures !Unpublished(reg, Run(reg, init[..i]), init[i]) {
      assert init[..i] == txs[..i];
    }
  }

  lemma PublishedPrefix(reg: Registry, part: seq<Submission>, subs: seq<Submission>)
    requires part <= subs && AllPublished(reg, TransactionsOf(subs))
    ensures AllPublished(reg, TransactionsOf(part))
  {
    hide Unpublished;
    forall i | 0 <= i < |part|
      ensures !Unpublished(reg, Run(reg, TransactionsOf(part)[..i]), TransactionsOf(part)[i])
    {
      assert TransactionsOf(part)[..i] == TransactionsOf(subs)[..i];
      assert TransactionsOf(part)[i] == TransactionsOf(subs)[i];
    }
  }

  /**
   Transition k is rebuilt into the transaction it came from, and it is matched, except that a transfer with a
   blanked root is mismatched (unless the true root is blank too).
   */
  ghost predicate ReplaysAt(h: Hasher, reg: Registry, fraudTransfer: bool, ts: seq<Transition>, k: nat, tx: Transaction)
    requires k < |ts|
  {
    var before := Replayed(h, reg, ts[..k]);
    var judged := Judge(h, reg, before, ts[k]);
    && Reconstructed(h, reg, before, ts[k]) == Ok(tx)
    && judged.verdict ==
       if fraudTransfer && tx.TransferTransaction? && StateRoot(h, judged.accounts) != Zeros(32) then Mismatched
       else Matched
  }

  ghost predicate ReplaysExactly(h: Hasher, reg: Registry, fraudTransfer: bool, ts: seq<Transition>,
          txs: seq<Transaction>) {
    |ts| == |txs| && forall k :: 0 <= k < |ts| ==> ReplaysAt(h, reg, fraudTransfer, ts, k, txs[k])
  }

  lemma ReplaysNext(h: Hasher, reg: Registry, fraudTransfer: bool, ts: seq<Transition>, txs: seq<Transaction>,
          t: Transition, tx: Transaction)
    requires ReplaysExactly(h, reg, fraudTransfer, ts, txs)
    requires ReplaysAt(h, reg, fraudTransfer, ts + [t], |ts|, tx)
    ensures ReplaysExactly(h, reg, fraudTransfer, ts + [t], txs + [tx])
  {
    forall k | 0 <= k < |ts|
      ensures ReplaysAt(h, reg, fraudTransfer, ts + [t], k, txs[k])
    {
      hide Judge, Reconstructed, Replayed, StateRoot;
      assert ReplaysAt(h, reg, fraudTransfer, ts, k, txs[k]);
      assert (ts + [t])[..k] == ts[..k];
    }
    hide ReplaysAt;
  }

  lemma AllMatched(h: Hasher, reg: Registry, ts: seq<Transition>, txs: seq<Transaction>, k: nat)
    requires ReplaysExactly(h, reg, false, ts, txs) && k < |ts|
    ensures VerdictAt(h, reg, ts, k).Matched?
  {
    hide Judge, Reconstructed, Replayed, StateRoot;
    assert ReplaysAt(h, reg, false, ts, k, txs[k]);
  }

  lemma {:induction false} SubmissionsReplay(h: Hasher, reg: Registry, fraudTransfer: bool, subs: seq<Submission>)
    requires Usable(reg) && OneToOne(reg) && AllPublished(reg, TransactionsOf(subs))
    requires |Run(reg, TransactionsOf(subs))| <= ACCOUNT_LIMIT
    ensures Replayed(h, reg, Published(h, reg, fraudTransfer, subs)) == Run(reg, TransactionsOf(subs))
    ensures ReplaysExactly(h, reg, fraudTransfer, Published(h, reg, fraudTransfer, subs),
            AcceptedOf(reg, TransactionsOf(subs)))
  {
    hide Emitted, Apply, Unpublished, Usable, OneToOne, AllPublished, Judge, Reconstructed, ReplaysExactly, Published,
      Accepted, WellFormedLedger;
    if subs == [] {
      NothingPublished(h, reg, fraudTransfer);
    } else {
      var init, last := subs[..|subs| - 1], subs[|subs| - 1];
      var txs, before := TransactionsOf(subs), Run(reg, TransactionsOf(init));
      PublishedNext(h, reg, fraudTransfer, subs);
      AllPublishedBefore(reg, txs);
      CreatesGrows(reg, before, last.tx);
      SubmissionsReplay(h, reg, fraudTransfer, init);
      RunKeepsWellFormed(reg, TransactionsOf(init));
      LastReplays(h, reg, fraudTransfer, before, last.tx, Published(h, reg, fraudTransfer, init),
        AcceptedOf(reg, TransactionsOf(init)));
    }
  }

  lemma NothingPublished(h: Hasher, reg: Registry, fraudTransfer: bool)
    ensures Published(h, reg, fraudTransfer, []) == [] && TransactionsOf([]) == []
    ensures ReplaysExactly(h, reg, fraudTransfer, [], [])
  {
  }

  lemma LastReplays(h: Hasher, reg: Registry, fraudTransfer: bool, before: seq<AccountInfo>, tx: Transaction,
                    ts: seq<Transition>, txs: seq<Transaction>)
    requires WellFormedLedger(before) && Usable(reg) && OneToOne(reg) && |before| <= ACCOUNT_LIMIT
    requires !Unpublished(reg, before, tx)
    requires Replayed(h, reg, ts) == before && ReplaysExactly(h, reg, fraudTransfer, ts, txs)
    ensures var emitted := Emitted(h, reg, fraudTransfer, before, tx);
            var ts' := ts + if emitted.Ok? then [emitted.value] else [];
            && Replayed(h, reg, ts') == Apply(reg, before, tx).accounts
            && ReplaysExactly(h, reg, fraudTransfer, ts', txs + if Accepted(reg, before, tx) then [tx] else [])
  {
    hide Emitted, Apply, Judge, Reconstructed, ReplaysExactly, WellFormedLedger, Usable, OneToOne, Replayed, Creates,
      StateRoot;
    AcceptedIsEmitted(h, reg, fraudTransfer, before, tx);
    if Accepted(reg, before, tx) {
      var t := Emitted(h, reg, fraudTransfer, before, tx).value;
      StepRebuilds(h, reg, fraudTransfer, before, tx);
      StepReplays(h, reg, fraudTransfer, before, tx);
      ReplayedNext(h, reg, ts, t);
      assert (ts + [t])[..|ts|] == ts;
      ReplaysNext(h, reg, fraudTransfer, ts, txs, t, tx);
    } else {
      CreatesGrows(reg, before, tx);
      RejectionEffect(reg, before, tx);
      assert ts + [] == ts && txs + [] == txs;
    }
  }

  /**
   Honest replay: over every run that publishes each account it creates, the validator rebuilds exactly the
   accepted transactions, in order, and ends with the aggregator's accounts; with fraudTransfer off it finds
   every posted root and reports nothing, with fraudTransfer on it reports exactly the blanked transfers. A
   submission that ends the aggregator's process ends the run.
   */
  lemma HonestReplay(h: Hasher, reg: Registry, fraudTransfer: bool, n: int, subs: seq<Submission>)
    requires Usable(reg) && OneToOne(reg) && AllPublished(reg, TransactionsOf(Handled(reg, subs)))
    requires |AggregatorRun(h, reg, fraudTransfer, n, subs).accounts| <= ACCOUNT_LIMIT
    ensures var end := AggregatorRun(h, reg, fraudTransfer, n, subs);
            && Replayed(h, reg, Posted(end)) == end.accounts
            && ReplaysExactly(h, reg, fraudTransfer, Posted(end), AcceptedOf(reg, TransactionsOf(Handled(reg, subs))))
  {
    hide AggregatorRun, Posted, Additions, Seal, Handled, EndsInPanic, TransactionsOf, AllPublished, ReplaysExactly,
      Replayed, Run, AcceptedOf;
    AggregatorRunSeals(h, reg, fraudTransfer, n, subs);
    RunLosesNothing(h, reg, fraudTransfer, n, subs);
    SubmissionsReplay(h, reg, fraudTransfer, Handled(reg, subs));
  }
}
