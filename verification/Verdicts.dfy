/** Exactly when the validator skips a transition, crashes on it, or reports it. */
module Verdicts {
  import opened ByteStrings
  import opened Errors
  import opened Abi
  import opened Accounts
  import opened Ledger
  import opened LedgerTheorems
  import opened Effects
  import opened StateSpec
  import opened Transitions
  import opened Validation

  /** The slots whose accounts a transition is read from. */
  function NamedSlots(t: Transition): seq<int> {
    match t
    case CreateAndDepositTransition(_, _, _, _, _, _, _) => []
    case DepositTransition(_, _, slot, _, _, _) => [slot]
    case WithdrawTransition(_, _, slot, _, _, _, _) => [slot]
    case CreateAndTransferTransition(_, _, from, _, _, _, _, _, _) => [from]
    case TransferTransition(_, _, from, to, _, _, _, _) => [from, to]
  }

  /** A slot number of at most 256 bits whose leaf, modulo 2^159, holds an account. */
  predicate NamesAccount(accounts: seq<AccountInfo>, slot: int) {
    Magnitude(slot) < UINT_LIMIT && Magnitude(slot) % ACCOUNT_LIMIT < |accounts|
  }

  /** The token is known and every named slot holds an account. */
  predicate Rebuildable(reg: Registry, accounts: seq<AccountInfo>, t: Transition) {
    Magnitude(t.tokenIndex) in reg.toToken && forall slot :: slot in NamedSlots(t) ==> NamesAccount(accounts, slot)
  }

  lemma SnapshotIff(h: Hasher, accounts: seq<AccountInfo>, slot: int)
    ensures Snapshot(h, accounts, Magnitude(slot)).Ok? <==> NamesAccount(accounts, slot)
  {
    hide StateRoot, SlotProof;
  }

  lemma InputsIff(h: Hasher, accounts: seq<AccountInfo>, t: Transition)
    ensures InputSnapshots(h, accounts, t).Ok? <==> forall slot :: slot in NamedSlots(t) ==>
            NamesAccount(accounts, slot)
  {
    hide Snapshot, NamesAccount;
    match t
    case CreateAndDepositTransition(_, _, _, _, _, _, _) =>
    case DepositTransition(_, _, slot, _, _, _) =>
      SnapshotIff(h, accounts, slot);
      assert NamedSlots(t)[0] == slot;
    case WithdrawTransition(_, _, slot, _, _, _, _) =>
      SnapshotIff(h, accounts, slot);
      assert NamedSlots(t)[0] == slot;
    case CreateAndTransferTransition(_, _, from, _, _, _, _, _, _) =>
      SnapshotIff(h, accounts, from);
      assert NamedSlots(t)[0] == from;
    case TransferTransition(_, _, from, to, _, _, _, _) =>
      SnapshotIff(h, accounts, from);
      SnapshotIff(h, accounts, to);
      assert NamedSlots(t)[0] == from && NamedSlots(t)[1] == to;
  }

  lemma ReconstructedIff(h: Hasher, reg: Registry, accounts: seq<AccountInfo>, t: Transition)
    ensures Reconstructed(h, reg, accounts, t).Ok? <==> Rebuildable(reg, accounts, t)
  {
    hide InputSnapshots, NamesAccount, Owner;
    InputsIff(h, accounts, t);
  }

  /** A transition is skipped exactly when its token is unknown or a slot it names holds no account. */
  lemma SkippedIff(h: Hasher, reg: Registry, accounts: seq<AccountInfo>, t: Transition)
    ensures Judge(h, reg, accounts, t).verdict.Skipped? <==> !Rebuildable(reg, accounts, t)
    ensures !Rebuildable(reg, accounts, t) ==> Judge(h, reg, accounts, t).accounts == accounts
  {
    hide Reconstructed, Rebuildable, Apply, StateRoot;
    ReconstructedIff(h, reg, accounts, t);
  }

  // ---------------------------------------------------------------- crashes

  /** A rebuildable transfer whose sender has every token before this one and not this one. */
  predicate CrashesValidator(reg: Registry, accounts: seq<AccountInfo>, t: Transition) {
    && (t.CreateAndTransferTransition? || t.TransferTransition?)
    && Rebuildable(reg, accounts, t)
    && var token := reg.toToken[Magnitude(t.tokenIndex)];
       && token in reg.toIndex && t.amount >= 0
       && var slot := Magnitude(t.senderSlotIndex) % ACCOUNT_LIMIT;
          slot < |accounts| && |accounts[slot].balances| == reg.toIndex[token]
  }

  lemma OwnerOfSlot(h: Hasher, accounts: seq<AccountInfo>, slot: int)
    requires WellFormedLedger(accounts) && NamesAccount(accounts, slot)
    ensures Snapshot(h, accounts, Magnitude(slot)).Ok?
    ensures var owner := Owner(Some(Snapshot(h, accounts, Magnitude(slot)).value));
            FindSlot(accounts, owner) == Some(Magnitude(slot) % ACCOUNT_LIMIT)
  {
    hide StateRoot, SlotProof, FindSlot;
    var i := Magnitude(slot) % ACCOUNT_LIMIT;
    assert Regular(accounts[i]);
    AddressIsItself(accounts[i].account);
    FindsIt(accounts, i);
  }

  lemma RebuiltTransfer(h: Hasher, reg: Registry, accounts: seq<AccountInfo>, t: Transition)
    requires WellFormedLedger(accounts) && Rebuildable(reg, accounts, t)
    requires t.CreateAndTransferTransition? || t.TransferTransition?
    ensures var tx := Reconstructed(h, reg, accounts, t);
            && tx.Ok? && tx.value.TransferTransaction? && tx.value.amount == t.amount
            && tx.value.token == reg.toToken[Magnitude(t.tokenIndex)]
            && NamesAccount(accounts, t.senderSlotIndex)
            && FindSlot(accounts, tx.value.sender) == Some(Magnitude(t.senderSlotIndex) % ACCOUNT_LIMIT)
  {
    hide Snapshot, NamesAccount, WellFormedLedger, FindSlot, Owner;
    ReconstructedIff(h, reg, accounts, t);
    assert NamedSlots(t)[0] == t.senderSlotIndex;
    OwnerOfSlot(h, accounts, t.senderSlotIndex);
  }

  /** Exactly when replaying a transition ends the validator's process. */
  lemma CrashedIff(h: Hasher, reg: Registry, accounts: seq<AccountInfo>, t: Transition)
    requires WellFormedLedger(accounts) && Usable(reg)
    ensures Judge(h, reg, accounts, t).verdict.Crashed? <==> CrashesValidator(reg, accounts, t)
  {
    hide Reconstructed, Rebuildable, Apply, StateRoot, WellFormedLedger, FindSlot, Usable;
    ReconstructedIff(h, reg, accounts, t);
    var tx := Reconstructed(h, reg, accounts, t);
    if tx.Ok? {
      PanicsIff(reg, accounts, tx.value);
      if t.CreateAndTransferTransition? || t.TransferTransition? {
        RebuiltTransfer(h, reg, accounts, t);
        NamedIsThere(accounts, t.senderSlotIndex);
      } else {
        RebuiltKind(h, reg, accounts, t);
      }
    }
  }

  lemma NamedIsThere(accounts: seq<AccountInfo>, slot: int)
    requires NamesAccount(accounts, slot)
    ensures Magnitude(slot) % ACCOUNT_LIMIT < |accounts|
  {
  }

  lemma RebuiltKind(h: Hasher, reg: Registry, accounts: seq<AccountInfo>, t: Transition)
    requires Reconstructed(h, reg, accounts, t).Ok?
    ensures Reconstructed(h, reg, accounts, t).value.TransferTransaction? <==>
            t.CreateAndTransferTransition? || t.TransferTransition?
  {
    hide Snapshot, Owner;
  }

  // ---------------------------------------------------------------- what is rebuilt, and how it is judged

  /** The account a slot number selects. */
  function AddressAt(accounts: seq<AccountInfo>, slot: int): bytes
    requires NamesAccount(accounts, slot)
  {
    accounts[Magnitude(slot) % ACCOUNT_LIMIT].account
  }

  /** A transaction says what a transition says, slots and token index read as the validator reads them. */
  predicate Says(reg: Registry, accounts: seq<AccountInfo>, t: Transition, tx: Transaction) {
    && Rebuildable(reg, accounts, t) && tx.token == reg.toToken[Magnitude(t.tokenIndex)]
    && tx.amount == t.amount && tx.signature == t.signature
    && match t
       case CreateAndDepositTransition(_, _, _, account, _, _, _) =>
         tx.DepositTransaction? && tx.account == ToAddress(account)
       case DepositTransition(_, _, slot, _, _, _) =>
         slot in NamedSlots(t) && tx.DepositTransaction? && tx.account == AddressAt(accounts, slot)
       case WithdrawTransition(_, _, slot, _, _, nonce, _) =>
         && slot in NamedSlots(t) && tx.WithdrawTransaction?
         && tx.account == AddressAt(accounts, slot) && tx.nonce == nonce
       case CreateAndTransferTransition(_, _, from, _, recipient, _, _, nonce, _) =>
         && from in NamedSlots(t) && tx.TransferTransaction? && tx.sender == AddressAt(accounts, from)
         && tx.recipient == ToAddress(recipient) && tx.nonce == nonce
       case TransferTransition(_, _, from, to, _, _, nonce, _) =>
         && from in NamedSlots(t) && to in NamedSlots(t) && tx.TransferTransaction?
         && tx.sender == AddressAt(accounts, from) && tx.recipient == AddressAt(accounts, to) && tx.nonce == nonce
  }

  lemma OwnerIs(h: Hasher, accounts: seq<AccountInfo>, slot: int)
    requires WellFormedLedger(accounts) && NamesAccount(accounts, slot)
    ensures Snapshot(h, accounts, Magnitude(slot)).Ok?
    ensures Owner(Some(Snapshot(h, accounts, Magnitude(slot)).value)) == AddressAt(accounts, slot)
  {
    hide StateRoot, SlotProof;
    var i := Magnitude(slot) % ACCOUNT_LIMIT;
    assert Regular(accounts[i]);
    AddressIsItself(accounts[i].account);
  }

  /** The rebuilt transaction is the one that says what the transition says. */
  lemma ReconstructedIs(h: Hasher, reg: Registry, accounts: seq<AccountInfo>, t: Transition, tx: Transaction)
    requires WellFormedLedger(accounts)
    ensures Reconstructed(h, reg, accounts, t) == Ok(tx) <==> Says(reg, accounts, t, tx)
  {
    hide Snapshot, NamesAccount, WellFormedLedger, Owner, AddressAt, ToAddress;
    ReconstructedIff(h, reg, accounts, t);
    if Rebuildable(reg, accounts, t) {
      match t
      case CreateAndDepositTransition(_, _, _, _, _, _, _) =>
      case DepositTransition(_, _, slot, _, _, _) =>
        assert NamedSlots(t)[0] == slot;
        OwnerIs(h, accounts, slot);
      case WithdrawTransition(_, _, slot, _, _, _, _) =>
        assert NamedSlots(t)[0] == slot;
        OwnerIs(h, accounts, slot);
      case CreateAndTransferTransition(_, _, from, _, _, _, _, _, _) =>
        assert NamedSlots(t)[0] == from;
        OwnerIs(h, accounts, from);
      case TransferTransition(_, _, from, to, _, _, _, _) =>
        assert NamedSlots(t)[0] == from && NamedSlots(t)[1] == to;
        OwnerIs(h, accounts, from);
        OwnerIs(h, accounts, to);
    }
  }

  /**
   Judgement of a transition that can be rebuilt, in terms of acceptance alone: rejected when the transaction is
   not acceptable and does not crash the process, and otherwise matched or mismatched by the root it leads to.
   */
  lemma JudgedIff(h: Hasher, reg: Registry, accounts: seq<AccountInfo>, t: Transition, tx: Transaction)
    requires WellFormedLedger(accounts) && Usable(reg) && Says(reg, accounts, t, tx)
    ensures var judged, after := Judge(h, reg, accounts, t), Apply(reg, accounts, tx).accounts;
            && judged.accounts == after
            && (judged.verdict.Rejected? <==> !Acceptable(reg, accounts, tx) && !Panics(reg, accounts, tx))
            && (judged.verdict.Crashed? <==> Panics(reg, accounts, tx))
            && (judged.verdict.Matched? <==> Acceptable(reg, accounts, tx) && t.stateRoot == StateRoot(h, after))
            && (judged.verdict.Mismatched? <==> Acceptable(reg, accounts, tx) && t.stateRoot != StateRoot(h, after))
  {
    hide Reconstructed, Says, Apply, StateRoot, WellFormedLedger, Usable, Acceptable, Panics;
    ReconstructedIs(h, reg, accounts, t, tx);
    AcceptedIff(reg, accounts, tx);
    PanicsIff(reg, accounts, tx);
  }

  // ---------------------------------------------------------------- wrong roots

  /**
   A transition whose posted root is not the one the replay ends with is reported exactly when it can be rebuilt
   and does not crash the replay.
   */
  lemma WrongRootReportedIff(h: Hasher, reg: Registry, accounts: seq<AccountInfo>, t: Transition)
    requires WellFormedLedger(accounts) && Usable(reg)
    requires t.stateRoot != StateRoot(h, Judge(h, reg, accounts, t).accounts)
    ensures Reported(Judge(h, reg, accounts, t).verdict) <==>
            Rebuildable(reg, accounts, t) && !CrashesValidator(reg, accounts, t)
  {
    hide Reconstructed, Rebuildable, CrashesValidator, Apply, StateRoot, WellFormedLedger, Usable;
    SkippedIff(h, reg, accounts, t);
    CrashedIff(h, reg, accounts, t);
  }

  /** What a transition posts as its root decides nothing but whether a replayed one is matched. */
  lemma SkippedIsUnchecked(h: Hasher, reg: Registry, accounts: seq<AccountInfo>, t: Transition, root: bytes)
    requires !Rebuildable(reg, accounts, t)
    ensures Judge(h, reg, accounts, t.(stateRoot := root)) == Judge(h, reg, accounts, t)
    ensures Judge(h, reg, accounts, t).accounts == accounts && !Reported(Judge(h, reg, accounts, t).verdict)
  {
    hide StateRoot, Snapshot, Apply, NamesAccount;
    SkippedIff(h, reg, accounts, t);
  }
}
