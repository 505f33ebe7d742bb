/** Replaying lists of blocks: honest blocks raise nothing, and the first report is backed by a coherent proof. */
module FraudProofs {
  import opened ByteStrings
  import opened Abi
  import opened Accounts
  import opened Ledger
  import opened StateSpec
  import opened Transitions
  import opened Blocks
  import opened Sealing
  import opened Validation
  import opened Replay

  // ---------------------------------------------------------------- replaying blocks

  function Flat(blocks: seq<RollupBlock>): seq<Transition> {
    Concatenated(BlockTransitions(blocks))
  }

  lemma FlatNext(blocks: seq<RollupBlock>)
    requires blocks != []
    ensures Flat(blocks) == Flat(blocks[..|blocks| - 1]) + blocks[|blocks| - 1].transitions
  {
    assert BlockTransitions(blocks)[..|blocks| - 1] == BlockTransitions(blocks[..|blocks| - 1]);
  }

  /** No transition of the list is reported and none crashes the validator; some may be skipped. */
  ghost predicate Quiet(h: Hasher, reg: Registry, ts: seq<Transition>) {
    forall k: nat :: k < |ts| ==> !Reported(VerdictAt(h, reg, ts, k)) && !VerdictAt(h, reg, ts, k).Crashed?
  }

  lemma QuietPrefix(h: Hasher, reg: Registry, ts: seq<Transition>, n: nat)
    requires Quiet(h, reg, ts) && n <= |ts|
    ensures Quiet(h, reg, ts[..n])
  {
    hide Judge;
    forall k: nat | k < n ensures !Reported(VerdictAt(h, reg, ts[..n], k)) && !VerdictAt(h, reg, ts[..n], k).Crashed? {
      assert ts[..n][..k] == ts[..k];
      assert VerdictAt(h, reg, ts[..n], k) == VerdictAt(h, reg, ts, k);
    }
  }

  /** Replaying part of a block without a report is replaying its transitions. */
  lemma {:induction false} QuietInBlock(h: Hasher, reg: Registry, stored: imap<bytes, bytes>, ts: seq<Transition>,
                                        block: RollupBlock, j: nat)
    requires block.blockNumber < UINT64_LIMIT && j <= |block.transitions|
    requires Quiet(h, reg, ts + block.transitions[..j])
    ensures ValidateUpTo(h, reg, stored, Replayed(h, reg, ts), block, j) ==
            BlockOutcome(Replayed(h, reg, ts + block.transitions[..j]), [], None)
  {
    hide Judge, Replayed, ContractProof, InputSnapshots;
    if j == 0 {
      assert ts + block.transitions[..0] == ts;
    } else {
      var all := ts + block.transitions[..j];
      var init, t := ts + block.transitions[..j - 1], block.transitions[j - 1];
      assert all == init + [t] && all[..|init|] == init;
      QuietPrefix(h, reg, all, |init|);
      QuietInBlock(h, reg, stored, ts, block, j - 1);
      ReplayedNext(h, reg, init, t);
      assert !Reported(VerdictAt(h, reg, all, |init|));
    }
  }

  ghost function StoredAfter(stored: imap<bytes, bytes>, blocks: seq<RollupBlock>): imap<bytes, bytes> {
    if blocks == [] then stored else StoredWith(StoredAfter(stored, blocks[..|blocks| - 1]), blocks[|blocks| - 1])
  }

  lemma {:induction false} QuietBlocks(h: Hasher, reg: Registry, stored: imap<bytes, bytes>, blocks: seq<RollupBlock>)
    requires NumbersFit(blocks)
    requires Quiet(h, reg, Flat(blocks))
    ensures ValidateBlocks(h, reg, stored, blocks) ==
            ValidatorState(Replayed(h, reg, Flat(blocks)), StoredAfter(stored, blocks), [], false)
  {
    hide Judge, Replayed, Quiet, ValidateUpTo, StoredWith;
    if blocks == [] {
      NothingReplayed(h, reg);
    } else {
      var init, block := blocks[..|blocks| - 1], blocks[|blocks| - 1];
      FlatNext(blocks);
      var ts := Flat(blocks);
      assert ts[..|Flat(init)|] == Flat(init);
      QuietPrefix(h, reg, ts, |Flat(init)|);
      QuietBlocks(h, reg, stored, init);
      var n := |block.transitions|;
      assert block.transitions[..n] == block.transitions;
      QuietInBlock(h, reg, StoredWith(StoredAfter(stored, init), block), Flat(init), block, n);
    }
  }

  lemma NothingReplayed(h: Hasher, reg: Registry)
    ensures Replayed(h, reg, []) == []
  {
  }

  // ---------------------------------------------------------------- honest blocks

  lemma {:induction false} AccountsOnlyGrow(h: Hasher, reg: Registry, fraudTransfer: bool, n: int,
          subs: seq<Submission>, m: nat)
    requires m <= |subs|
    ensures |AggregatorRun(h, reg, fraudTransfer, n, subs[..m]).accounts| <=
            |AggregatorRun(h, reg, fraudTransfer, n, subs).accounts|
    decreases |subs|
  {
    hide Emitted, Apply, Add, Creates;
    if m == |subs| {
      assert subs[..m] == subs;
    } else {
      var init := subs[..|subs| - 1];
      assert init[..m] == subs[..m];
      AccountsOnlyGrow(h, reg, fraudTransfer, n, init, m);
      CreatesGrows(reg, AggregatorRun(h, reg, fraudTransfer, n, init).accounts, subs[|subs| - 1].tx);
    }
  }

  /** Every transition an honest run publishes is matched. */
  lemma HonestIsQuiet(h: Hasher, reg: Registry, n: int, subs: seq<Submission>)
    requires Usable(reg) && OneToOne(reg) && AllPublished(reg, TransactionsOf(Handled(reg, subs)))
    requires |AggregatorRun(h, reg, false, n, subs).accounts| <= ACCOUNT_LIMIT
    ensures Quiet(h, reg, Posted(AggregatorRun(h, reg, false, n, subs)))
  {
    hide AggregatorRun, Replayed, VerdictAt, OneToOne, AllPublished, ReplaysExactly, TransactionsOf, Posted, Handled,
      AcceptedOf;
    HonestReplay(h, reg, false, n, subs);
    var ts := Posted(AggregatorRun(h, reg, false, n, subs));
    forall k: nat | k < |ts| ensures VerdictAt(h, reg, ts, k).Matched? {
      AllMatched(h, reg, ts, AcceptedOf(reg, TransactionsOf(Handled(reg, subs))), k);
    }
  }

  /**
   An honest aggregator's sealed blocks, validated in order, raise nothing and rebuild the accounts it had when it
   sealed the last of them: those blocks are all it had sealed after the first m submissions, with nothing pending.
   */
  lemma HonestBlocks(h: Hasher, reg: Registry, n: int, subs: seq<Submission>, stored: imap<bytes, bytes>)
    returns (m: nat)
    requires Usable(reg) && OneToOne(reg) && AllPublished(reg, TransactionsOf(Handled(reg, subs)))
    requires |AggregatorRun(h, reg, false, n, subs).accounts| <= ACCOUNT_LIMIT
    ensures m <= |subs|
    ensures var atSealing, end := AggregatorRun(h, reg, false, n, subs[..m]), AggregatorRun(h, reg, false, n, subs);
            && atSealing.sealed.blocks == end.sealed.blocks && atSealing.sealed.pending.transitions == []
            && (end.sealed.pending.transitions == [] ==> m == |subs|)
            && atSealing.accounts == Run(reg, TransactionsOf(Handled(reg, subs[..m])))
            && NumbersFit(end.sealed.blocks)
            && var v := ValidateBlocks(h, reg, stored, end.sealed.blocks);
               v.submitted == [] && !v.crashed && v.accounts == atSealing.accounts
  {
    hide AggregatorRun, Additions, Seal, Replayed, Run, OneToOne, AllPublished, ValidateBlocks, Handled, EndsInPanic,
      ReplaysExactly, StoredAfter, TransactionsOf, Concatenated, BlockTransitions, Quiet, AcceptedOf;
    m := LastSealing(h, reg, false, n, subs);
    var part := subs[..m];
    AccountsOnlyGrow(h, reg, false, n, subs, m);
    HandledPrefix(reg, subs, m);
    PublishedPrefix(reg, Handled(reg, part), Handled(reg, subs));
    AggregatorRunSeals(h, reg, false, n, part);
    HonestReplay(h, reg, false, n, part);
    HonestIsQuiet(h, reg, n, part);
    NumbersInRange(n, Additions(h, reg, false, Handled(reg, part)));
    var atSealing := AggregatorRun(h, reg, false, n, part);
    assert Posted(atSealing) == Flat(atSealing.sealed.blocks);
    QuietBlocks(h, reg, stored, atSealing.sealed.blocks);
  }

  lemma NumbersInRange(n: int, additions: seq<Addition>)
    ensures NumbersFit(Seal(n, additions).blocks)
  {
    hide Seal, TransitionsOf, FailedProposals, Concatenated;
    var spans, last := SealingLosesNothing(n, additions);
  }

  // ---------------------------------------------------------------- the wire

  /** The event that announces a block: its number and its encoded transitions, as proposed and committed. */
  function Announced(block: RollupBlock): RollupBlockCommitted {
    RollupBlockCommitted(block.blockNumber, Encoded(block.transitions))
  }

  function AnnouncedAll(blocks: seq<RollupBlock>): (events: seq<RollupBlockCommitted>)
    ensures |events| == |blocks|
  {
    seq(|blocks|, i requires 0 <= i < |blocks| => Announced(blocks[i]))
  }

  /** Transaction fields as the contracts carry them: amounts and nonces are uint256, a signature is a Go slice. */
  predicate FieldsInRange(tx: Transaction) {
    |tx.signature| < MAX_LENGTH && 0 <= tx.amount < UINT_LIMIT && (tx.DepositTransaction? || 0 <= tx.nonce < UINT_LIMIT)
  }

  lemma EntrySlotInRange(h: Hasher, accounts: seq<AccountInfo>, update: AccountInfoUpdate)
    requires |accounts| <= ACCOUNT_LIMIT
    ensures EntryFor(h, accounts, update).slotIndex < UINT_LIMIT
  {
    hide SlotProof, FindSlot;
  }

  predicate Fits(n: int) {
    0 <= n < UINT_LIMIT
  }

  /** Field by field: numbers of 256 bits, addresses of 20 bytes, a root of 32. */
  predicate FieldsFit(t: Transition) {
    && t.transitionType == KindOf(t) && |t.stateRoot| == 32 && Fits(t.tokenIndex) && Fits(t.amount)
    && (t.CreateAndDepositTransition? ==> |t.account| == 20)
    && (t.CreateAndDepositTransition? || t.DepositTransition? || t.WithdrawTransition? ==> Fits(t.accountSlotIndex))
    && (t.CreateAndTransferTransition? ==> |t.recipient| == 20)
    && (t.CreateAndTransferTransition? || t.TransferTransition? ==>
       Fits(t.senderSlotIndex) && Fits(t.recipientSlotIndex))
    && (t.WithdrawTransition? || t.CreateAndTransferTransition? || t.TransferTransition? ==> Fits(t.nonce))
  }

  lemma FittingIsProper(t: Transition)
    requires FieldsFit(t) && |t.signature| < MAX_LENGTH
    ensures Proper(t)
  {
    hide Transitions.Serialize;
    FittingIsInRange(t);
    TransitionSize(t);
  }

  lemma FittingIsInRange(t: Transition)
    requires FieldsFit(t)
    ensures Transitions.InRange(t)
  {
    forall v | v in Arguments(t) ensures WellFormed(v) && (v.Uint? ==> Fits(v.n)) {
      match t
      case CreateAndDepositTransition(_, _, _, _, _, _, _) =>
      case DepositTransition(_, _, _, _, _, _) =>
      case WithdrawTransition(_, _, _, _, _, _, _) =>
      case CreateAndTransferTransition(_, _, _, _, _, _, _, _, _) =>
      case TransferTransition(_, _, _, _, _, _, _, _) =>
    }
  }

  /** A transition an aggregator emits is one it can write and anyone can read back. */
  lemma EmittedIsProper(h: Hasher, reg: Registry, fraudTransfer: bool, accounts: seq<AccountInfo>, tx: Transaction)
    requires Usable(reg) && |Apply(reg, accounts, tx).accounts| <= ACCOUNT_LIMIT && FieldsInRange(tx)
    requires Emitted(h, reg, fraudTransfer, accounts, tx).Ok?
    ensures Proper(Emitted(h, reg, fraudTransfer, accounts, tx).value)
  {
    hide Apply, StateRoot, FindSlot, EntryFor, Transitions.Serialize, Proper;
    EmittedFits(h, reg, fraudTransfer, accounts, tx);
    FittingIsProper(Emitted(h, reg, fraudTransfer, accounts, tx).value);
  }

  lemma EmittedFits(h: Hasher, reg: Registry, fraudTransfer: bool, accounts: seq<AccountInfo>, tx: Transaction)
    requires Usable(reg) && |Apply(reg, accounts, tx).accounts| <= ACCOUNT_LIMIT && FieldsInRange(tx)
    requires Emitted(h, reg, fraudTransfer, accounts, tx).Ok?
    ensures var t := Emitted(h, reg, fraudTransfer, accounts, tx).value;
            FieldsFit(t) && t.signature == tx.signature
  {
    hide Apply, StateRoot, FindSlot, EntryFor;
    AcceptedIsEmitted(h, reg, fraudTransfer, accounts, tx);
    AcceptedNamesAccounts(reg, accounts, tx);
    var out := Apply(reg, accounts, tx);
    EntryFields(h, out.accounts, out.result.value[0]);
    EntrySlotInRange(h, out.accounts, out.result.value[0]);
    if tx.TransferTransaction? {
      EntryFields(h, out.accounts, out.result.value[1]);
      EntrySlotInRange(h, out.accounts, out.result.value[1]);
    }
  }

  ghost predicate AllFieldsInRange(txs: seq<Transaction>) {
    forall tx :: tx in txs ==> FieldsInRange(tx)
  }

  lemma {:induction false} PublishedIsProper(h: Hasher, reg: Registry, fraudTransfer: bool, subs: seq<Submission>)
    requires Usable(reg) && |Run(reg, TransactionsOf(subs))| <= ACCOUNT_LIMIT && AllFieldsInRange(TransactionsOf(subs))
    ensures forall t :: t in Published(h, reg, fraudTransfer, subs) ==> Proper(t)
  {
    hide Apply, Emitted, Proper, FieldsInRange, Published;
    if subs == [] {
      NothingPublished(h, reg, fraudTransfer);
    } else {
      var init, last := subs[..|subs| - 1], subs[|subs| - 1];
      var before := Run(reg, TransactionsOf(init));
      PublishedNext(h, reg, fraudTransfer, subs);
      CreatesGrows(reg, before, last.tx);
      PublishedIsProper(h, reg, fraudTransfer, init);
      assert last.tx in TransactionsOf(subs);
      if Emitted(h, reg, fraudTransfer, before, last.tx).Ok? {
        EmittedIsProper(h, reg, fraudTransfer, before, last.tx);
      }
    }
  }

  lemma {:induction false} ProperArrive(blocks: seq<RollupBlock>)
    requires NumbersFit(blocks) && forall t :: t in Flat(blocks) ==> Proper(t)
    ensures Arrived(AnnouncedAll(blocks)) == blocks
  {
    hide Proper, DecodeAll, Encoded;
    if blocks != [] {
      var init, block := blocks[..|blocks| - 1], blocks[|blocks| - 1];
      FlatNext(blocks);
      ProperArrive(init);
      assert AnnouncedAll(blocks)[..|blocks| - 1] == AnnouncedAll(init);
      assert block in blocks;
      DecodeAllEncoded(block.transitions);
    }
  }

  /**
   The sealed blocks arrive as they were sealed: from the events that announce them the watcher decodes exactly
   those blocks, and writing them again gives back the announced bytes.
   */
  lemma BlocksDelivered(h: Hasher, reg: Registry, fraudTransfer: bool, n: int, subs: seq<Submission>)
    requires Usable(reg) && AllFieldsInRange(TransactionsOf(Handled(reg, subs)))
    requires |AggregatorRun(h, reg, fraudTransfer, n, subs).accounts| <= ACCOUNT_LIMIT
    ensures var blocks := AggregatorRun(h, reg, fraudTransfer, n, subs).sealed.blocks;
            var events := AnnouncedAll(blocks);
            && Arrived(events) == blocks && !ArrivalPanics(events)
            && forall i :: 0 <= i < |events| ==> Encoded(Arrived(events)[i].transitions) == events[i].transitions
  {
    hide AggregatorRun, Additions, Run, Proper, TransitionsOf, BlockTransitions, Concatenated, Encoded, Arrived,
      AllFieldsInRange, Handled, EndsInPanic, Seal;
    var sealed := AggregatorRun(h, reg, fraudTransfer, n, subs).sealed;
    AggregatorRunSeals(h, reg, fraudTransfer, n, subs);
    RunLosesNothing(h, reg, fraudTransfer, n, subs);
    PublishedIsProper(h, reg, fraudTransfer, Handled(reg, subs));
    NumbersInRange(n, Additions(h, reg, fraudTransfer, Handled(reg, subs)));
    forall t | t in Flat(sealed.blocks) ensures Proper(t) {
      assert t in Posted(AggregatorRun(h, reg, fraudTransfer, n, subs));
    }
    ProperArrive(sealed.blocks);
  }

  /**
   End to end: watching the events of an honest aggregator raises nothing and ends with its accounts at the last seal.
   */
  lemma HonestEvents(h: Hasher, reg: Registry, n: int, subs: seq<Submission>, stored: imap<bytes, bytes>)
    returns (m: nat)
    requires Usable(reg) && OneToOne(reg) && AllPublished(reg, TransactionsOf(Handled(reg, subs)))
    requires AllFieldsInRange(TransactionsOf(Handled(reg, subs)))
    requires |AggregatorRun(h, reg, false, n, subs).accounts| <= ACCOUNT_LIMIT
    ensures m <= |subs|
    ensures var atSealing, end := AggregatorRun(h, reg, false, n, subs[..m]), AggregatorRun(h, reg, false, n, subs);
            && atSealing.sealed.blocks == end.sealed.blocks && atSealing.sealed.pending.transitions == []
            && var v := Watched(h, reg, stored, AnnouncedAll(end.sealed.blocks));
               v.submitted == [] && !v.crashed && v.accounts == atSealing.accounts
  {
    hide AggregatorRun, AllPublished, ValidateBlocks, Handled, TransactionsOf, AllFieldsInRange, Arrived,
      ArrivalPanics, Encoded, AnnouncedAll, OneToOne, Run;
    BlocksDelivered(h, reg, false, n, subs);
    m := HonestBlocks(h, reg, n, subs, stored);
  }
}
