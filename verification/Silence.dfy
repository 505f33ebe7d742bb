/** What a validator's silence says about a list of transitions nobody vouches for. */
module Silence {
  import opened ByteStrings
  import opened Errors
  import opened Accounts
  import opened Ledger
  import opened LedgerTheorems
  import opened StateSpec
  import opened Transitions
  import opened Blocks
  import opened Sealing
  import opened Validation
  import opened Verdicts
  import opened Replay
  import opened ReplayExactness
  import opened FraudProofs

  // ---------------------------------------------------------------- every replay is a run of the ledger

  /** The transactions rebuilt from the transitions that can be rebuilt, in order. */
  function RebuiltOf(h: Hasher, reg: Registry, ts: seq<Transition>): seq<Transaction> {
    if ts == [] then []
    else
      var init := ts[..|ts| - 1];
      var tx := Reconstructed(h, reg, Replayed(h, reg, init), ts[|ts| - 1]);
      RebuiltOf(h, reg, init) + if tx.Ok? then [tx.value] else []
  }

  lemma RunNext(reg: Registry, txs: seq<Transaction>, tx: Transaction)
    ensures Run(reg, txs + [tx]) == Apply(reg, Run(reg, txs), tx).accounts
  {
    hide Apply;
    assert (txs + [tx])[..|txs|] == txs;
  }

  /** Whatever a list of transitions says, replaying it is one run of the ledger. */
  lemma {:induction false} ReplayIsRun(h: Hasher, reg: Registry, ts: seq<Transition>)
    ensures Replayed(h, reg, ts) == Run(reg, RebuiltOf(h, reg, ts))
  {
    hide Apply, Reconstructed, StateRoot, Run;
    if ts == [] {
      NothingRun(reg);
    } else {
      var init := ts[..|ts| - 1];
      ReplayIsRun(h, reg, init);
      var tx := Reconstructed(h, reg, Replayed(h, reg, init), ts[|ts| - 1]);
      if tx.Ok? {
        RunNext(reg, RebuiltOf(h, reg, init), tx.value);
      } else {
        assert RebuiltOf(h, reg, ts) == RebuiltOf(h, reg, init);
      }
    }
  }

  lemma NothingRun(reg: Registry)
    ensures Run(reg, []) == []
  {
  }

  lemma {:induction false} RebuiltPrefix(h: Hasher, reg: Registry, ts: seq<Transition>, n: nat)
    requires n <= |ts|
    ensures RebuiltOf(h, reg, ts[..n]) <= RebuiltOf(h, reg, ts)
    decreases |ts|
  {
    hide Reconstructed, Replayed;
    if n == |ts| {
      assert ts[..n] == ts;
    } else {
      var init := ts[..|ts| - 1];
      assert init[..n] == ts[..n];
      RebuiltPrefix(h, reg, init, n);
    }
  }

  /** The root of the ledger run of the first n transitions of a list. */
  function RootAfter(h: Hasher, reg: Registry, ts: seq<Transition>, n: nat): Digest
    requires n <= |ts|
  {
    StateRoot(h, Run(reg, RebuiltOf(h, reg, ts[..n])))
  }

  /**
   Every verdict in terms of that one run. A transition is skipped exactly when it adds nothing to the run, and matched
   exactly when the transaction it adds is accepted there and the posted root is the root of the run so far.
   */
  lemma VerdictOfRun(h: Hasher, reg: Registry, ts: seq<Transition>, k: nat)
    requires k < |ts|
    ensures var before, through := RebuiltOf(h, reg, ts[..k]), RebuiltOf(h, reg, ts[..k + 1]);
            var verdict := VerdictAt(h, reg, ts, k);
            && before <= through <= RebuiltOf(h, reg, ts) && |through| <= |before| + 1
            && (verdict.Skipped? <==> through == before)
            && (verdict.Matched? <==>
                  && |through| == |before| + 1 && Accepted(reg, Run(reg, before), through[|before|])
                  && ts[k].stateRoot == RootAfter(h, reg, ts, k + 1))
  {
    hide Apply, Reconstructed, StateRoot, Run, Replayed;
    var part := ts[..k + 1];
    assert part[..k] == ts[..k];
    ReplayIsRun(h, reg, ts[..k]);
    ReplayIsRun(h, reg, part);
    RebuiltPrefix(h, reg, ts, k + 1);
    var tx := Reconstructed(h, reg, Replayed(h, reg, ts[..k]), ts[k]);
    if tx.Ok? {
      RunNext(reg, RebuiltOf(h, reg, ts[..k]), tx.value);
    }
  }

  /**
   What silence guarantees: of a list that raises nothing, every posted root of a transition that was not skipped
   is the root of one and the same ledger run, in which every transaction is accepted.
   */
  lemma {:induction false} QuietIsOneRun(h: Hasher, reg: Registry, ts: seq<Transition>)
    requires Quiet(h, reg, ts)
    ensures Replayed(h, reg, ts) == Run(reg, RebuiltOf(h, reg, ts))
    ensures AcceptedOf(reg, RebuiltOf(h, reg, ts)) == RebuiltOf(h, reg, ts)
    ensures forall k: nat :: k < |ts| && !VerdictAt(h, reg, ts, k).Skipped? ==>
              ts[k].stateRoot == RootAfter(h, reg, ts, k + 1)
  {
    hide VerdictAt, Run, Replayed, RebuiltOf, RootAfter, Accepted;
    ReplayIsRun(h, reg, ts);
    forall k: nat | k < |ts| && !VerdictAt(h, reg, ts, k).Skipped?
      ensures ts[k].stateRoot == RootAfter(h, reg, ts, k + 1)
    {
      VerdictOfRun(h, reg, ts, k);
    }
    QuietAccepts(h, reg, ts);
  }

  lemma {:induction false} QuietAccepts(h: Hasher, reg: Registry, ts: seq<Transition>)
    requires Quiet(h, reg, ts)
    ensures AcceptedOf(reg, RebuiltOf(h, reg, ts)) == RebuiltOf(h, reg, ts)
  {
    hide VerdictAt, Run, Replayed, RootAfter, Accepted, Reconstructed;
    if ts != [] {
      var n := |ts| - 1;
      QuietPrefix(h, reg, ts, n);
      QuietAccepts(h, reg, ts[..n]);
      VerdictOfRun(h, reg, ts, n);
      assert ts[..n + 1] == ts;
      var before, through := RebuiltOf(h, reg, ts[..n]), RebuiltOf(h, reg, ts);
      if |through| > |before| {
        assert through[..|before|] == before;
      }
    }
  }

  // ---------------------------------------------------------------- silence over blocks

  /** Every block is validated to its end. */
  ghost predicate Completes(h: Hasher, reg: Registry, stored: imap<bytes, bytes>, blocks: seq<RollupBlock>)
    requires NumbersFit(blocks)
  {
    blocks == [] ||
    var init, block := blocks[..|blocks| - 1], blocks[|blocks| - 1];
    var v := ValidateBlocks(h, reg, stored, init);
    && Completes(h, reg, stored, init)
    && ValidateUpTo(h, reg, StoredWith(v.stored, block), v.accounts, block, |block.transitions|).stopped.None?
  }

  lemma {:induction false} SilentInBlock(h: Hasher, reg: Registry, stored: imap<bytes, bytes>, ts: seq<Transition>,
          block: RollupBlock, j: nat)
    requires block.blockNumber < UINT64_LIMIT && j <= |block.transitions| && Quiet(h, reg, ts)
    requires ValidateUpTo(h, reg, stored, Replayed(h, reg, ts), block, j).stopped.None?
    requires ValidateUpTo(h, reg, stored, Replayed(h, reg, ts), block, j).submitted == []
    ensures Quiet(h, reg, ts + block.transitions[..j])
    ensures ValidateUpTo(h, reg, stored, Replayed(h, reg, ts), block, j).accounts ==
            Replayed(h, reg, ts + block.transitions[..j])
  {
    hide Judge, Replayed, ContractProof, InputSnapshots;
    if j == 0 {
      assert ts + block.transitions[..0] == ts;
    } else {
      SilentInBlock(h, reg, stored, ts, block, j - 1);
      var init, t := ts + block.transitions[..j - 1], block.transitions[j - 1];
      assert ts + block.transitions[..j] == init + [t];
      QuietNext(h, reg, init, t);
    }
  }

  lemma QuietNext(h: Hasher, reg: Registry, ts: seq<Transition>, t: Transition)
    requires Quiet(h, reg, ts)
    ensures var verdict := Judge(h, reg, Replayed(h, reg, ts), t).verdict;
            Quiet(h, reg, ts + [t]) <==> !Reported(verdict) && !verdict.Crashed?
    ensures Replayed(h, reg, ts + [t]) == Judge(h, reg, Replayed(h, reg, ts), t).accounts
  {
    hide Judge, Replayed, VerdictAt;
    ReplayedNext(h, reg, ts, t);
    if Quiet(h, reg, ts + [t]) {
      assert !Reported(VerdictAt(h, reg, ts + [t], |ts|)) && !VerdictAt(h, reg, ts + [t], |ts|).Crashed?;
    }
  }

  lemma {:induction false} QuietCompletes(h: Hasher, reg: Registry, stored: imap<bytes, bytes>,
          blocks: seq<RollupBlock>)
    requires NumbersFit(blocks) && Quiet(h, reg, Flat(blocks))
    ensures Completes(h, reg, stored, blocks)
  {
    hide Judge, Replayed, Quiet, ValidateUpTo, ValidateBlocks, StoredWith, StoredAfter, Flat;
    if blocks != [] {
      var init, block := blocks[..|blocks| - 1], blocks[|blocks| - 1];
      FlatNext(blocks);
      assert Flat(blocks)[..|Flat(init)|] == Flat(init);
      QuietPrefix(h, reg, Flat(blocks), |Flat(init)|);
      QuietCompletes(h, reg, stored, init);
      QuietBlocks(h, reg, stored, init);
      var n := |block.transitions|;
      assert block.transitions[..n] == block.transitions && block in blocks;
      QuietInBlock(h, reg, StoredWith(StoredAfter(stored, init), block), Flat(init), block, n);
    }
  }

  /** A validator that gets through every block and submits nothing has found nothing to report, and conversely. */
  lemma {:induction false} SilentIffQuiet(h: Hasher, reg: Registry, stored: imap<bytes, bytes>,
          blocks: seq<RollupBlock>)
    requires NumbersFit(blocks)
    ensures Completes(h, reg, stored, blocks) && ValidateBlocks(h, reg, stored, blocks).submitted == []
            <==> Quiet(h, reg, Flat(blocks))
  {
    hide Judge, Replayed, Quiet, ValidateUpTo, StoredWith, StoredAfter, Flat;
    if Quiet(h, reg, Flat(blocks)) {
      QuietCompletes(h, reg, stored, blocks);
      QuietBlocks(h, reg, stored, blocks);
    } else if Completes(h, reg, stored, blocks) && ValidateBlocks(h, reg, stored, blocks).submitted == [] {
      SilentIsQuiet(h, reg, stored, blocks);
    }
  }

  lemma {:induction false} SilentIsQuiet(h: Hasher, reg: Registry, stored: imap<bytes, bytes>,
          blocks: seq<RollupBlock>)
    requires NumbersFit(blocks)
    requires Completes(h, reg, stored, blocks) && ValidateBlocks(h, reg, stored, blocks).submitted == []
    ensures Quiet(h, reg, Flat(blocks))
    ensures ValidateBlocks(h, reg, stored, blocks).accounts == Replayed(h, reg, Flat(blocks))
    ensures !ValidateBlocks(h, reg, stored, blocks).crashed
  {
    hide Judge, Replayed, Quiet, ValidateUpTo, StoredWith, Flat;
    if blocks == [] {
      NothingQuiet(h, reg);
    } else {
      var init, block := blocks[..|blocks| - 1], blocks[|blocks| - 1];
      assert block in blocks;
      FlatNext(blocks);
      SilentIsQuiet(h, reg, stored, init);
      var v, n := ValidateBlocks(h, reg, stored, init), |block.transitions|;
      assert block.transitions[..n] == block.transitions;
      SilentInBlock(h, reg, StoredWith(v.stored, block), Flat(init), block, n);
    }
  }

  lemma NothingQuiet(h: Hasher, reg: Registry)
    ensures Flat([]) == [] && Quiet(h, reg, []) && Replayed(h, reg, []) == []
  {
  }

  // ---------------------------------------------------------------- which matched transitions an aggregator could post

  ghost predicate CouldEmit(h: Hasher, reg: Registry, accounts: seq<AccountInfo>, t: Transition) {
    exists tx :: Emitted(h, reg, false, accounts, tx) == Ok(t)
  }

  /**
   The type word names the kind, the token index is the token's own, existing accounts are named by their slots and
   created ones by the next, and only missing accounts are said to be created.
   */
  predicate Canonical(reg: Registry, accounts: seq<AccountInfo>, t: Transition) {
    && t.transitionType == KindOf(t)
    && Magnitude(t.tokenIndex) in reg.toToken && reg.toToken[Magnitude(t.tokenIndex)] in reg.toIndex
    && t.tokenIndex == reg.toIndex[reg.toToken[Magnitude(t.tokenIndex)]]
    && match t
       case CreateAndDepositTransition(_, _, slot, account, _, _, _) =>
         slot == |accounts| && |account| == 20 && FindSlot(accounts, account).None?
       case DepositTransition(_, _, slot, _, _, _) => 0 <= slot < |accounts|
       case WithdrawTransition(_, _, slot, _, _, _, _) => 0 <= slot < |accounts|
       case CreateAndTransferTransition(_, _, from, to, recipient, _, _, _, _) =>
         0 <= from < |accounts| && to == |accounts| && |recipient| == 20 && FindSlot(accounts, recipient).None?
       case TransferTransition(_, _, from, to, _, _, _, _) => 0 <= from < |accounts| && 0 <= to < |accounts|
  }

  /** The slot an account has after a transaction that wrote it: its own, or the next. */
  function SlotOrNext(accounts: seq<AccountInfo>, address: bytes): nat {
    match FindSlot(accounts, address) case Some(slot) => slot case None => |accounts|
  }

  /** An emitted transition written out over the accounts before the transaction. */
  function Straight(reg: Registry, accounts: seq<AccountInfo>, tx: Transaction, root: bytes): Transition
    requires tx.token in reg.toIndex
  {
    var k := reg.toIndex[tx.token];
    match tx
    case DepositTransaction(account, _, amount, signature) =>
      var slot := SlotOrNext(accounts, account);
      if FindSlot(accounts, account).None? then
        CreateAndDepositTransition(CREATE_AND_DEPOSIT, root, slot, account, k, amount, signature)
      else DepositTransition(DEPOSIT, root, slot, k, amount, signature)
    case WithdrawTransaction(account, _, amount, nonce, signature) =>
      WithdrawTransition(WITHDRAW, root, SlotOrNext(accounts, account), k, amount, nonce, signature)
    case TransferTransaction(sender, recipient, _, amount, nonce, signature) =>
      var from, to := SlotOrNext(accounts, sender), SlotOrNext(accounts, recipient);
      if FindSlot(accounts, recipient).None? then
        CreateAndTransferTransition(CREATE_AND_TRANSFER, root, from, to, recipient, k, amount, nonce, signature)
      else TransferTransition(TRANSFER, root, from, to, k, amount, nonce, signature)
  }

  lemma SlotAfterwards(reg: Registry, accounts: seq<AccountInfo>, tx: Transaction, address: bytes)
    requires WellFormedLedger(accounts) && Usable(reg)
    requires FindSlot(accounts, address).Some? || (Creates(reg, accounts, tx) && address == Target(tx).value)
    ensures FindSlot(Apply(reg, accounts, tx).accounts, address) == Some(SlotOrNext(accounts, address))
  {
    hide Apply, FindSlot, WellFormedLedger, Creates;
    ApplyKeepsWellFormed(reg, accounts, tx);
    if FindSlot(accounts, address).Some? {
      KeptSlot(reg, accounts, tx, FindSlot(accounts, address).value);
    } else {
      CreatedLast(reg, accounts, tx);
      var after := Apply(reg, accounts, tx).accounts;
      WellFormedIsDistinct(after);
      FindsIt(after, |accounts|);
    }
  }

  lemma EntrySlot(h: Hasher, accounts: seq<AccountInfo>, update: AccountInfoUpdate)
    requires FindSlot(accounts, update.info.account).Some?
    ensures EntryFor(h, accounts, update).slotIndex == FindSlot(accounts, update.info.account).value
  {
    hide FindSlot, SlotProof;
  }

  /** What an accepted transaction leaves in the pending block; fraudTransfer blanks the root of transfers only. */
  lemma EmittedIsStraight(h: Hasher, reg: Registry, fraudTransfer: bool, accounts: seq<AccountInfo>, tx: Transaction)
    requires WellFormedLedger(accounts) && Usable(reg) && Accepted(reg, accounts, tx)
    ensures tx.token in reg.toIndex
    ensures Emitted(h, reg, fraudTransfer, accounts, tx) ==
            Ok(Straight(reg, accounts, tx, if fraudTransfer && tx.TransferTransaction? then Zeros(32)
                                           else StateRoot(h, Apply(reg, accounts, tx).accounts)))
  {
    hide Apply, FindSlot, EntryFor, StateRoot, WellFormedLedger, Usable;
    AcceptedIsEmitted(h, reg, fraudTransfer, accounts, tx);
    AcceptedNamesAccounts(reg, accounts, tx);
    var out := Apply(reg, accounts, tx);
    var updates := out.result.value;
    EntryFields(h, out.accounts, updates[0]);
    SlotAfterwards(reg, accounts, tx, updates[0].info.account);
    EntrySlot(h, out.accounts, updates[0]);
    if tx.TransferTransaction? {
      EntryFields(h, out.accounts, updates[1]);
      SlotAfterwards(reg, accounts, tx, updates[1].info.account);
      EntrySlot(h, out.accounts, updates[1]);
    }
  }

  lemma NamedSlot(accounts: seq<AccountInfo>, slot: int)
    requires NamesAccount(accounts, slot) && |accounts| <= ACCOUNT_LIMIT
    ensures Magnitude(slot) % ACCOUNT_LIMIT == slot <==> 0 <= slot < |accounts|
  {
  }

  lemma OwnerSlot(h: Hasher, accounts: seq<AccountInfo>, slot: int)
    requires WellFormedLedger(accounts) && NamesAccount(accounts, slot) && |accounts| <= ACCOUNT_LIMIT
    ensures Snapshot(h, accounts, Magnitude(slot)).Ok?
    ensures var owner := Owner(Some(Snapshot(h, accounts, Magnitude(slot)).value));
            FindSlot(accounts, owner).Some? && (SlotOrNext(accounts, owner) == slot <==> 0 <= slot < |accounts|)
  {
    hide Snapshot, FindSlot, NamesAccount, WellFormedLedger, Owner;
    OwnerOfSlot(h, accounts, slot);
    NamedSlot(accounts, slot);
  }

  lemma AddressOrNot(b: bytes)
    ensures ToAddress(b) == b <==> |b| == 20
  {
    if |b| == 20 {
      AddressIsItself(b);
    }
  }

  /** Writing the rebuilt transaction out again gives the transition back exactly when it is canonical. */
  lemma StraightIffCanonical(h: Hasher, reg: Registry, accounts: seq<AccountInfo>, t: Transition)
    requires WellFormedLedger(accounts) && |accounts| <= ACCOUNT_LIMIT
    requires Reconstructed(h, reg, accounts, t).Ok? && Reconstructed(h, reg, accounts, t).value.token in reg.toIndex
    ensures Straight(reg, accounts, Reconstructed(h, reg, accounts, t).value, t.stateRoot) == t <==>
            Canonical(reg, accounts, t)
  {
    hide Snapshot, FindSlot, NamesAccount, WellFormedLedger, Owner, ToAddress, SlotOrNext;
    ReconstructedIff(h, reg, accounts, t);
    match t
    case CreateAndDepositTransition(_, _, slot, account, _, _, _) =>
      AddressOrNot(account);
      NextSlot(accounts, ToAddress(account));
    case DepositTransition(_, _, slot, _, _, _) =>
      assert slot in NamedSlots(t);
      OwnerSlot(h, accounts, slot);
    case WithdrawTransition(_, _, slot, _, _, _, _) =>
      assert slot in NamedSlots(t);
      OwnerSlot(h, accounts, slot);
    case CreateAndTransferTransition(_, _, from, to, recipient, _, _, _, _) =>
      assert from in NamedSlots(t);
      OwnerSlot(h, accounts, from);
      AddressOrNot(recipient);
      NextSlot(accounts, ToAddress(recipient));
    case TransferTransition(_, _, from, to, _, _, _, _) =>
      assert from in NamedSlots(t) && to in NamedSlots(t);
      OwnerSlot(h, accounts, from);
      OwnerSlot(h, accounts, to);
  }

  lemma NextSlot(accounts: seq<AccountInfo>, address: bytes)
    ensures FindSlot(accounts, address).None? ==> SlotOrNext(accounts, address) == |accounts|
  {
    hide FindSlot;
  }

  /** A rebuilt transaction never creates its own sender. */
  lemma RebuiltIsPublished(h: Hasher, reg: Registry, accounts: seq<AccountInfo>, t: Transition)
    requires WellFormedLedger(accounts) && Reconstructed(h, reg, accounts, t).Ok?
    requires Accepted(reg, accounts, Reconstructed(h, reg, accounts, t).value)
    ensures !Unpublished(reg, accounts, Reconstructed(h, reg, accounts, t).value)
  {
    hide WellFormedLedger, Accepted, FindSlot, NamesAccount, Rebuildable;
    if t.CreateAndTransferTransition? || t.TransferTransition? {
      ReconstructedIff(h, reg, accounts, t);
      RebuiltTransfer(h, reg, accounts, t);
    } else {
      RebuiltKind(h, reg, accounts, t);
    }
  }

  /**
   A matched transition is one that an honest aggregator with the same accounts could have posted exactly when it is
   canonical; the slot of a created account and the choice of kind are never checked.
   */
  lemma MatchedEmittedIff(h: Hasher, reg: Registry, accounts: seq<AccountInfo>, t: Transition)
    requires WellFormedLedger(accounts) && Usable(reg) && OneToOne(reg) && |accounts| < ACCOUNT_LIMIT
    requires Judge(h, reg, accounts, t).verdict.Matched?
    ensures CouldEmit(h, reg, accounts, t) <==> Canonical(reg, accounts, t)
  {
    hide Apply, Emitted, Reconstructed, Canonical, Straight, StateRoot, WellFormedLedger, Usable, OneToOne,
      Unpublished;
    var tx := Reconstructed(h, reg, accounts, t).value;
    EmittedIsStraight(h, reg, false, accounts, tx);
    StraightIffCanonical(h, reg, accounts, t);
    if Canonical(reg, accounts, t) {
      assert Emitted(h, reg, false, accounts, tx) == Ok(t);
    }
    if CouldEmit(h, reg, accounts, t) {
      var other :| Emitted(h, reg, false, accounts, other) == Ok(t);
      AcceptedIsEmitted(h, reg, false, accounts, other);
      EmitterIsRebuilt(h, reg, accounts, t, other);
    }
  }

  lemma EmitterIsRebuilt(h: Hasher, reg: Registry, accounts: seq<AccountInfo>, t: Transition, tx: Transaction)
    requires WellFormedLedger(accounts) && Usable(reg) && OneToOne(reg) && |accounts| < ACCOUNT_LIMIT
    requires Emitted(h, reg, false, accounts, tx) == Ok(t) && Accepted(reg, accounts, tx)
    requires !Judge(h, reg, accounts, t).verdict.Skipped?
    ensures Reconstructed(h, reg, accounts, t) == Ok(tx)
  {
    hide Apply, Emitted, Reconstructed, StateRoot, WellFormedLedger, Usable, OneToOne, Creates;
    if Unpublished(reg, accounts, tx) {
      SelfCreationSkipped(h, reg, false, accounts, tx, accounts);
    } else {
      StepRebuilds(h, reg, false, accounts, tx);
    }
  }

  /** Another slot for the account a transition says it creates. */
  function WithCreatedSlot(t: Transition, slot: int): Transition {
    match t
    case CreateAndDepositTransition(ty, root, _, account, token, amount, signature) =>
      CreateAndDepositTransition(ty, root, slot, account, token, amount, signature)
    case CreateAndTransferTransition(ty, root, from, _, recipient, token, amount, nonce, signature) =>
      CreateAndTransferTransition(ty, root, from, slot, recipient, token, amount, nonce, signature)
    case _ => t
  }

  /** The input: with any other slot for the account it creates, a matched transition is matched but never emitted. */
  lemma CreatedSlotUnchecked(h: Hasher, reg: Registry, accounts: seq<AccountInfo>, t: Transition, slot: int)
    requires WellFormedLedger(accounts) && Usable(reg) && OneToOne(reg) && |accounts| < ACCOUNT_LIMIT
    requires CreatesAccount(t)
    ensures var t' := WithCreatedSlot(t, slot);
            && Judge(h, reg, accounts, t') == Judge(h, reg, accounts, t)
            && (Judge(h, reg, accounts, t).verdict.Matched? && slot != |accounts| ==> !CouldEmit(h, reg, accounts, t'))
  {
    hide Apply, CouldEmit, StateRoot, WellFormedLedger, Usable, OneToOne, Snapshot, FindSlot;
    if Judge(h, reg, accounts, t).verdict.Matched? {
      MatchedEmittedIff(h, reg, accounts, WithCreatedSlot(t, slot));
    }
  }

  /** Nor is the kind checked: a creating deposit into an account that exists is judged as a plain deposit is. */
  lemma KindUnchecked(h: Hasher, reg: Registry, accounts: seq<AccountInfo>, i: nat, root: bytes, slot: int,
          tokenIndex: int, amount: int, signature: bytes)
    requires WellFormedLedger(accounts) && i < |accounts| <= ACCOUNT_LIMIT
    ensures var creating := CreateAndDepositTransition(CREATE_AND_DEPOSIT, root, slot, accounts[i].account, tokenIndex,
                                                       amount, signature);
            && Judge(h, reg, accounts, creating) ==
               Judge(h, reg, accounts, DepositTransition(DEPOSIT, root, i, tokenIndex, amount, signature))
            && !Canonical(reg, accounts, creating)
  {
    hide Apply, StateRoot, WellFormedLedger, FindSlot, Snapshot;
    SnapshotOfSlot(h, accounts, i);
    WellFormedIsDistinct(accounts);
    FindsIt(accounts, i);
    ListedAddress(accounts, i);
  }

  lemma ListedAddress(accounts: seq<AccountInfo>, i: nat)
    requires WellFormedLedger(accounts) && i < |accounts|
    ensures ToAddress(accounts[i].account) == accounts[i].account
  {
    assert Regular(accounts[i]);
    AddressIsItself(accounts[i].account);
  }
}
