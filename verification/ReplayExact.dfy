/** Exactly when the validator ends with the aggregator's accounts. */
module ReplayExactness {
  import opened ByteStrings
  import opened Errors
  import opened MerkleTree
  import opened Accounts
  import opened Ledger
  import opened LedgerTheorems
  import opened StateSpec
  import opened StateFacts
  import opened Transitions
  import opened Sealing
  import opened Validation
  import opened Replay
  import opened Verdicts

  function Addresses(accounts: seq<AccountInfo>): set<bytes> {
    set a | a in accounts :: a.account
  }

  lemma SameAddresses(accounts: seq<AccountInfo>, accounts': seq<AccountInfo>)
    requires |accounts'| == |accounts| && forall i :: 0 <= i < |accounts| ==>
             accounts'[i].account == accounts[i].account
    ensures Addresses(accounts') == Addresses(accounts)
  {
    forall b ensures b in Addresses(accounts') <==> b in Addresses(accounts) {
      if b in Addresses(accounts') {
        var i :| 0 <= i < |accounts'| && accounts'[i].account == b;
        assert accounts[i] in accounts;
      }
      if b in Addresses(accounts) {
        var i :| 0 <= i < |accounts| && accounts[i].account == b;
        assert accounts'[i] in accounts';
      }
    }
  }

  lemma MissingAddress(accounts: seq<AccountInfo>, address: bytes)
    ensures FindSlot(accounts, address).None? <==> address !in Addresses(accounts)
  {
    var found := FindSlot(accounts, address);
    if found.Some? {
      assert accounts[found.value] in accounts;
    }
  }

  /** A step adds the address it creates and no other. */
  lemma StepAddresses(reg: Registry, accounts: seq<AccountInfo>, tx: Transaction)
    ensures Addresses(Apply(reg, accounts, tx).accounts) ==
            Addresses(accounts) + if Creates(reg, accounts, tx) then {Target(tx).value} else {}
    ensures Creates(reg, accounts, tx) ==> Target(tx).value !in Addresses(accounts)
  {
    hide Apply, FindSlot;
    var after := Apply(reg, accounts, tx).accounts;
    CreatesGrows(reg, accounts, tx);
    if Creates(reg, accounts, tx) {
      MissingAddress(accounts, Target(tx).value);
      CreatedLast(reg, accounts, tx);
      var n := |accounts|;
      SameAddresses(accounts, after[..n]);
      assert after == after[..n] + [after[n]];
      assert Addresses(after) == Addresses(after[..n]) + {after[n].account};
    } else {
      SameAddresses(accounts, after);
    }
  }

  // ---------------------------------------------------------------- what a transition can create

  predicate CreatesAccount(t: Transition) {
    t.CreateAndDepositTransition? || t.CreateAndTransferTransition?
  }

  function CreatedAddress(t: Transition): bytes
    requires CreatesAccount(t)
  {
    if t.CreateAndDepositTransition? then ToAddress(t.account) else ToAddress(t.recipient)
  }

  lemma OwnerListed(h: Hasher, accounts: seq<AccountInfo>, slot: nat)
    requires WellFormedLedger(accounts) && Snapshot(h, accounts, slot).Ok?
    ensures FindSlot(accounts, Owner(Some(Snapshot(h, accounts, slot).value))).Some?
  {
    hide StateRoot, SlotProof, FindSlot;
    var i := slot % ACCOUNT_LIMIT;
    assert Regular(accounts[i]);
    AddressIsItself(accounts[i].account);
    assert accounts[i] in accounts;
  }

  /** The target of a rebuilt transaction is the created address, or an account the validator already has. */
  lemma RebuiltTarget(h: Hasher, reg: Registry, accounts: seq<AccountInfo>, t: Transition)
    requires WellFormedLedger(accounts) && Reconstructed(h, reg, accounts, t).Ok?
    ensures var target := Target(Reconstructed(h, reg, accounts, t).value);
            target.Some? && FindSlot(accounts, target.value).None? ==>
              CreatesAccount(t) && target.value == CreatedAddress(t)
  {
    hide WellFormedLedger, Snapshot, FindSlot, Owner;
    match t
    case CreateAndDepositTransition(_, _, _, _, _, _, _) =>
    case DepositTransition(_, _, slot, _, _, _) => OwnerListed(h, accounts, Magnitude(slot));
    case WithdrawTransition(_, _, slot, _, _, _, _) => OwnerListed(h, accounts, Magnitude(slot));
    case CreateAndTransferTransition(_, _, from, _, _, _, _, _, _) =>
    case TransferTransition(_, _, from, to, _, _, _, _) => OwnerListed(h, accounts, Magnitude(to));
  }

  lemma JudgeAddresses(h: Hasher, reg: Registry, accounts: seq<AccountInfo>, t: Transition)
    requires WellFormedLedger(accounts) && Usable(reg)
    ensures var after := Judge(h, reg, accounts, t).accounts;
            && WellFormedLedger(after)
            && Addresses(accounts) <= Addresses(after)
            && Addresses(after) <= Addresses(accounts) + (if CreatesAccount(t) then {CreatedAddress(t)} else {})
            && |accounts| <= |after| <= |accounts| + (if CreatesAccount(t) then 1 else 0)
  {
    hide Apply, Reconstructed, Addresses, WellFormedLedger, Target, Usable, CreatedAddress, FindSlot, StateRoot;
    var tx := Reconstructed(h, reg, accounts, t);
    if tx.Ok? {
      RebuiltTarget(h, reg, accounts, t);
      ApplyKeepsWellFormed(reg, accounts, tx.value);
      StepAddresses(reg, accounts, tx.value);
      CreatesGrows(reg, accounts, tx.value);
    }
  }

  // ---------------------------------------------------------------- addresses lost to the validator

  /** Addresses created by the run without being published. */
  function Lost(reg: Registry, txs: seq<Transaction>): set<bytes> {
    if txs == [] then {}
    else
      var init, tx := txs[..|txs| - 1], txs[|txs| - 1];
      Lost(reg, init) + if Unpublished(reg, Run(reg, init), tx) then {Target(tx).value} else {}
  }

  lemma {:induction false} LostIffUnpublished(reg: Registry, txs: seq<Transaction>)
    ensures Lost(reg, txs) == {} <==> AllPublished(reg, txs)
  {
    hide Unpublished;
    if txs != [] {
      var init := txs[..|txs| - 1];
      LostIffUnpublished(reg, init);
      if AllPublished(reg, txs) {
        AllPublishedBefore(reg, txs);
      } else if Lost(reg, txs) == {} {
        forall i | 0 <= i < |txs| ensures !Unpublished(reg, Run(reg, txs[..i]), txs[i]) {
          if i < |init| {
            assert init[..i] == txs[..i] && init[i] == txs[i];
          } else {
            assert txs[..i] == init;
          }
        }
      }
    }
  }

  /** The validator's accounts are among the aggregator's, and never among the lost ones. */
  ghost predicate Behind(ours: seq<AccountInfo>, theirs: seq<AccountInfo>, lost: set<bytes>) {
    && WellFormedLedger(ours) && |ours| <= |theirs|
    && Addresses(ours) <= Addresses(theirs) && lost <= Addresses(theirs) && Addresses(ours) !! lost
  }

  /**
   Of an accepted self-transfer that creates its account the validator can make nothing: the sender has no slot yet.
   */
  lemma SelfCreationSkipped(h: Hasher, reg: Registry, fraudTransfer: bool, theirs: seq<AccountInfo>, tx: Transaction,
          ours: seq<AccountInfo>)
    requires WellFormedLedger(theirs) && Usable(reg) && |ours| <= |theirs| < ACCOUNT_LIMIT
    requires Accepted(reg, theirs, tx) && SelfTransfer(tx) && Creates(reg, theirs, tx)
    ensures Emitted(h, reg, fraudTransfer, theirs, tx).Ok?
    ensures Judge(h, reg, ours, Emitted(h, reg, fraudTransfer, theirs, tx).value) ==
            Judgement(ours, Skipped(BadEncoding))
  {
    hide Apply, WellFormedLedger, StateRoot, SlotProof, Rebuilt, FindSlot;
    AcceptedIsEmitted(h, reg, fraudTransfer, theirs, tx);
    AcceptedNamesAccounts(reg, theirs, tx);
    CreatedLast(reg, theirs, tx);
    ApplyKeepsWellFormed(reg, theirs, tx);
    var after := Apply(reg, theirs, tx).accounts;
    assert Distinct(after) by { WellFormedIsDistinct(after); }
    FindsIt(after, |theirs|);
    var updates := Apply(reg, theirs, tx).result.value;
    EntryFields(h, after, updates[0]);
    EntryFields(h, after, updates[1]);
  }

  /** A self-transfer of nothing by an address without an account is accepted, and creates the account. */
  lemma FreshSelfTransfer(reg: Registry, accounts: seq<AccountInfo>, a: EthAddress, token: EthAddress, signature: bytes)
    requires token in reg.toIndex && FindSlot(accounts, a).None?
    ensures var tx := TransferTransaction(a, a, token, 0, 0, signature);
            Accepted(reg, accounts, tx) && SelfTransfer(tx) && Creates(reg, accounts, tx)
  {
    hide Stored, FindSlot;
    FindAfterCreate(accounts, a, reg.toIndex[token] + 1, a);
  }

  /**
   The input on which a wrong root goes unreported: the transition of such a self-transfer can post any root at
   all, and a validator in the aggregator's own state neither reports it nor follows it.
   */
  lemma AnyRootUnreported(h: Hasher, reg: Registry, accounts: seq<AccountInfo>, a: EthAddress, token: EthAddress,
          signature: bytes, root: bytes)
    requires WellFormedLedger(accounts) && Usable(reg) && |accounts| < ACCOUNT_LIMIT
    requires token in reg.toIndex && FindSlot(accounts, a).None?
    ensures var tx := TransferTransaction(a, a, token, 0, 0, signature);
            var t := Emitted(h, reg, false, accounts, tx);
            && t.Ok? && !Rebuildable(reg, accounts, t.value)
            && Judge(h, reg, accounts, t.value.(stateRoot := root)) == Judgement(accounts, Skipped(BadEncoding))
            && |Apply(reg, accounts, tx).accounts| == |accounts| + 1
  {
    hide Apply, Emitted, Judge, WellFormedLedger, Usable, FindSlot, Rebuildable, Creates;
    var tx := TransferTransaction(a, a, token, 0, 0, signature);
    FreshSelfTransfer(reg, accounts, a, token, signature);
    SelfCreationSkipped(h, reg, false, accounts, tx, accounts);
    CreatedLast(reg, accounts, tx);
    var t := Emitted(h, reg, false, accounts, tx).value;
    SkippedIff(h, reg, accounts, t);
    SkippedIsUnchecked(h, reg, accounts, t, root);
  }

  /** An accepted transaction emits a creating transition exactly when it creates its target, and names it. */
  lemma EmittedCreates(h: Hasher, reg: Registry, fraudTransfer: bool, accounts: seq<AccountInfo>, tx: Transaction)
    requires Accepted(reg, accounts, tx)
    ensures Emitted(h, reg, fraudTransfer, accounts, tx).Ok?
    ensures var t := Emitted(h, reg, fraudTransfer, accounts, tx).value;
            && (CreatesAccount(t) <==> Creates(reg, accounts, tx))
            && (CreatesAccount(t) ==> CreatedAddress(t) == Target(tx).value)
  {
    hide Apply, StateRoot, FindSlot, EntryFor;
    AcceptedIsEmitted(h, reg, fraudTransfer, accounts, tx);
    AcceptedNamesAccounts(reg, accounts, tx);
    var out := Apply(reg, accounts, tx);
    EntryFields(h, out.accounts, out.result.value[0]);
    if tx.TransferTransaction? {
      EntryFields(h, out.accounts, out.result.value[1]);
    }
    if Target(tx).Some? {
      AddressIsItself(Target(tx).value);
    }
  }

  lemma StaysBehind(h: Hasher, reg: Registry, fraudTransfer: bool, theirs: seq<AccountInfo>, tx: Transaction,
          ours: seq<AccountInfo>, lost: set<bytes>)
    requires WellFormedLedger(theirs) && Usable(reg) && Behind(ours, theirs, lost)
    requires |Apply(reg, theirs, tx).accounts| <= ACCOUNT_LIMIT
    ensures var emitted := Emitted(h, reg, fraudTransfer, theirs, tx);
            Behind(if emitted.Ok? then Judge(h, reg, ours, emitted.value).accounts else ours,
                   Apply(reg, theirs, tx).accounts,
                   lost + if Unpublished(reg, theirs, tx) then {Target(tx).value} else {})
  {
    hide Apply, Emitted, Judge, Addresses, WellFormedLedger, Usable, Creates, CreatesAccount, CreatedAddress, FindSlot;
    AcceptedIsEmitted(h, reg, fraudTransfer, theirs, tx);
    StepAddresses(reg, theirs, tx);
    CreatesGrows(reg, theirs, tx);
    if Accepted(reg, theirs, tx) {
      EmittedCreates(h, reg, fraudTransfer, theirs, tx);
      if Unpublished(reg, theirs, tx) {
        SelfCreationSkipped(h, reg, fraudTransfer, theirs, tx, ours);
      } else {
        JudgeAddresses(h, reg, ours, Emitted(h, reg, fraudTransfer, theirs, tx).value);
      }
    }
  }

  lemma {:induction false} RunStaysBehind(h: Hasher, reg: Registry, fraudTransfer: bool, subs: seq<Submission>)
    requires Usable(reg) && |Run(reg, TransactionsOf(subs))| <= ACCOUNT_LIMIT
    ensures Behind(Replayed(h, reg, Published(h, reg, fraudTransfer, subs)), Run(reg, TransactionsOf(subs)),
            Lost(reg, TransactionsOf(subs)))
  {
    hide Apply, Emitted, Judge, WellFormedLedger, Usable, Unpublished, Behind, Published;
    if subs == [] {
      NothingPublished(h, reg, fraudTransfer);
      NothingBehind();
    } else {
      var init, last := subs[..|subs| - 1], subs[|subs| - 1];
      var before := Run(reg, TransactionsOf(init));
      PublishedNext(h, reg, fraudTransfer, subs);
      CreatesGrows(reg, before, last.tx);
      RunStaysBehind(h, reg, fraudTransfer, init);
      RunKeepsWellFormed(reg, TransactionsOf(init));
      var ts := Published(h, reg, fraudTransfer, init);
      StaysBehind(h, reg, fraudTransfer, before, last.tx, Replayed(h, reg, ts), Lost(reg, TransactionsOf(init)));
      var emitted := Emitted(h, reg, fraudTransfer, before, last.tx);
      if emitted.Ok? {
        ReplayedNext(h, reg, ts, emitted.value);
      } else {
        assert ts + [] == ts;
      }
    }
  }

  lemma NothingBehind()
    ensures Behind([], [], {})
  {
  }

  lemma SubmissionsReplayIff(h: Hasher, reg: Registry, fraudTransfer: bool, subs: seq<Submission>)
    requires Usable(reg) && OneToOne(reg) && |Run(reg, TransactionsOf(subs))| <= ACCOUNT_LIMIT
    ensures Replayed(h, reg, Published(h, reg, fraudTransfer, subs)) == Run(reg, TransactionsOf(subs))
            <==> AllPublished(reg, TransactionsOf(subs))
  {
    hide Replayed, Run, Published, AllPublished, Lost, OneToOne, WellFormedLedger, ReplaysExactly;
    var txs := TransactionsOf(subs);
    LostIffUnpublished(reg, txs);
    RunStaysBehind(h, reg, fraudTransfer, subs);
    if AllPublished(reg, txs) {
      SubmissionsReplay(h, reg, fraudTransfer, subs);
    } else {
      var lost :| lost in Lost(reg, txs);
      assert lost in Addresses(Run(reg, txs));
    }
  }

  /**
   The exact condition of honest replay: whatever the run and whatever its transitions post, the validator ends
   with the aggregator's accounts if and only if no step created an account it did not publish, that is, no
   rejected transaction and no self-transfer created its target.
   */
  lemma ReplayAgreesIff(h: Hasher, reg: Registry, fraudTransfer: bool, n: int, subs: seq<Submission>)
    requires Usable(reg) && OneToOne(reg)
    requires |AggregatorRun(h, reg, fraudTransfer, n, subs).accounts| <= ACCOUNT_LIMIT
    ensures var end := AggregatorRun(h, reg, fraudTransfer, n, subs);
            Replayed(h, reg, Posted(end)) == end.accounts <==> AllPublished(reg, TransactionsOf(Handled(reg, subs)))
  {
    hide AggregatorRun, Posted, Additions, Seal, Handled, EndsInPanic, TransactionsOf, AllPublished, Replayed, Run;
    AggregatorRunSeals(h, reg, fraudTransfer, n, subs);
    RunLosesNothing(h, reg, fraudTransfer, n, subs);
    SubmissionsReplayIff(h, reg, fraudTransfer, Handled(reg, subs));
  }

  // ---------------------------------------------------------------- after the first unpublished account

  /** Two different strings with one hash, one from each of two account lists' state trees. */
  ghost predicate TreesCollide(h: Hasher, a: seq<AccountInfo>, b: seq<AccountInfo>, x: bytes, y: bytes) {
    x in Preimages(h, StateTree(a)) && y in Preimages(h, StateTree(b)) && Collide(h, x, y)
  }

  lemma StepUnmatched(h: Hasher, reg: Registry, theirs: seq<AccountInfo>, tx: Transaction, ours: seq<AccountInfo>,
          lost: set<bytes>)
    returns (x: bytes, y: bytes)
    requires WellFormedLedger(theirs) && Usable(reg) && Behind(ours, theirs, lost) && lost != {}
    requires |Apply(reg, theirs, tx).accounts| <= ACCOUNT_LIMIT && Emitted(h, reg, false, theirs, tx).Ok?
    ensures var judged := Judge(h, reg, ours, Emitted(h, reg, false, theirs, tx).value);
            judged.verdict.Matched? ==> TreesCollide(h, judged.accounts, Apply(reg, theirs, tx).accounts, x, y)
  {
    hide Apply, Emitted, Reconstructed, WellFormedLedger, Usable, StateRoot, Unpublished, StateTree, Preimages;
    var t := Emitted(h, reg, false, theirs, tx).value;
    StaysBehind(h, reg, false, theirs, tx, ours, lost);
    ApplyKeepsWellFormed(reg, theirs, tx);
    PostedRoot(h, reg, false, theirs, tx);
    var judged, after := Judge(h, reg, ours, t), Apply(reg, theirs, tx).accounts;
    x, y := [], [];
    if judged.verdict.Matched? {
      var a :| a in lost;
      assert a in Addresses(after) && a !in Addresses(judged.accounts);
      x, y := StateRootBinds(h, judged.accounts, after);
    }
  }

  lemma LostStays(reg: Registry, subs: seq<Submission>, m: nat)
    requires m <= |subs| && !AllPublished(reg, TransactionsOf(subs[..m]))
    ensures Lost(reg, TransactionsOf(subs)) != {}
  {
    hide AllPublished, Lost, TransactionsOf;
    LostIffUnpublished(reg, TransactionsOf(subs));
    if AllPublished(reg, TransactionsOf(subs)) {
      PublishedPrefix(reg, subs[..m], subs);
    }
  }

  lemma {:induction false} SubmissionsUnmatched(h: Hasher, reg: Registry, subs: seq<Submission>, m: nat, k: nat)
    returns (p: nat, x: bytes, y: bytes)
    requires Usable(reg) && |Run(reg, TransactionsOf(subs))| <= ACCOUNT_LIMIT
    requires m <= |subs| && !AllPublished(reg, TransactionsOf(subs[..m]))
    requires |Published(h, reg, false, subs[..m])| <= k < |Published(h, reg, false, subs)|
    ensures m < p <= |subs| && |Published(h, reg, false, subs[..p])| == k + 1
    ensures var ts := Published(h, reg, false, subs);
            VerdictAt(h, reg, ts, k).Matched? ==>
              TreesCollide(h, Replayed(h, reg, ts[..k + 1]), Run(reg, TransactionsOf(subs[..p])), x, y)
    decreases |subs|
  {
    hide Apply, Emitted, Judge, WellFormedLedger, Usable, AllPublished, Published, TreesCollide, Lost, Behind;
    assert subs[..|subs|] == subs;
    var init, last := subs[..|subs| - 1], subs[|subs| - 1];
    var before := Run(reg, TransactionsOf(init));
    var ts, ts' := Published(h, reg, false, init), Published(h, reg, false, subs);
    var emitted := Emitted(h, reg, false, before, last.tx);
    PublishedNext(h, reg, false, subs);
    CreatesGrows(reg, before, last.tx);
    assert init[..m] == subs[..m];
    if emitted.Ok? {
      ReplayedNext(h, reg, ts, emitted.value);
    } else {
      assert ts + [] == ts;
    }
    if k < |ts| {
      assert VerdictAt(h, reg, ts', k) == VerdictAt(h, reg, ts, k);
      p, x, y := SubmissionsUnmatched(h, reg, init, m, k);
      assert init[..p] == subs[..p] && ts[..k + 1] == ts'[..k + 1];
    } else {
      p := |subs|;
      LostStays(reg, init, m);
      RunStaysBehind(h, reg, false, init);
      RunKeepsWellFormed(reg, TransactionsOf(init));
      x, y := StepUnmatched(h, reg, before, last.tx, Replayed(h, reg, ts), Lost(reg, TransactionsOf(init)));
      assert ts'[..k + 1] == ts' == ts + [emitted.value];
      assert VerdictAt(h, reg, ts', k) == Judge(h, reg, Replayed(h, reg, ts), emitted.value).verdict;
      assert Run(reg, TransactionsOf(subs[..p])) == Apply(reg, before, last.tx).accounts;
    }
  }

  /**
   Once an honest aggregator has created an account without publishing it, no transition it posts afterwards is
   ever matched again, or two strings hashed into the two parties' state trees are an explicit collision. The
   transition at index k is the last one posted by the first p submissions.
   */
  lemma NothingMatchesAfterwards(h: Hasher, reg: Registry, n: int, subs: seq<Submission>, m: nat, k: nat)
    returns (p: nat, x: bytes, y: bytes)
    requires Usable(reg) && |AggregatorRun(h, reg, false, n, subs).accounts| <= ACCOUNT_LIMIT
    requires m <= |subs| && !AllPublished(reg, TransactionsOf(Handled(reg, subs[..m])))
    requires |Posted(AggregatorRun(h, reg, false, n, subs[..m]))| <= k < |Posted(AggregatorRun(h, reg, false, n, subs))|
    ensures p <= |subs| && |Posted(AggregatorRun(h, reg, false, n, subs[..p]))| == k + 1
    ensures var ts := Posted(AggregatorRun(h, reg, false, n, subs));
            VerdictAt(h, reg, ts, k).Matched? ==>
              TreesCollide(h, Replayed(h, reg, ts[..k + 1]), AggregatorRun(h, reg, false, n, subs[..p]).accounts, x, y)
  {
    hide AggregatorRun, Posted, Additions, Seal, Handled, EndsInPanic, TransactionsOf, AllPublished, Replayed, Run,
      VerdictAt, TreesCollide;
    var handled, part := Handled(reg, subs), Handled(reg, subs[..m]);
    AggregatorRunSeals(h, reg, false, n, subs);
    RunLosesNothing(h, reg, false, n, subs);
    RunLosesNothing(h, reg, false, n, subs[..m]);
    HandledPrefix(reg, subs, m);
    assert part == handled[..|part|];
    p, x, y := SubmissionsUnmatched(h, reg, handled, |part|, k);
    HandledWhole(reg, subs, p);
    AggregatorRunSeals(h, reg, false, n, subs[..p]);
    RunLosesNothing(h, reg, false, n, subs[..p]);
  }
}
