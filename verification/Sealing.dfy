/** How the aggregator turns accepted transactions into transitions and seals them into blocks, as functions. */
module Sealing {
  import opened ByteStrings
  import opened Errors
  import opened Accounts
  import opened Ledger
  import opened StateSpec
  import opened Transitions
  import opened Blocks

  // ---------------------------------------------------------------- from a state update to a transition

  /** Transitions carry slot numbers where transactions carry addresses; fraudTransfer blanks a transfer's root. */
  function TransitionOf(fraudTransfer: bool, tx: Transaction, update: StateUpdate,
          tokenIndex: nat): Result<Transition> {
    var entries := update.entries;
    match tx
    case DepositTransaction(_, _, amount, signature) =>
      if |entries| < 1 then Err(Panic)
      else if entries[0].newAccount then
        Ok(CreateAndDepositTransition(CREATE_AND_DEPOSIT, update.stateRoot, entries[0].slotIndex,
                                      entries[0].accountInfo.account, tokenIndex, amount, signature))
      else Ok(DepositTransition(DEPOSIT, update.stateRoot, entries[0].slotIndex, tokenIndex, amount, signature))
    case WithdrawTransaction(_, _, amount, nonce, signature) =>
      if |entries| < 1 then Err(Panic)
      else Ok(WithdrawTransition(WITHDRAW, update.stateRoot, entries[0].slotIndex, tokenIndex, amount, nonce,
        signature))
    case TransferTransaction(_, _, _, amount, nonce, signature) =>
      var root := if fraudTransfer then Zeros(32) else update.stateRoot;
      if |entries| < 2 then Err(Panic)
      else
        var from, to := entries[0].slotIndex, entries[1].slotIndex;
        if entries[1].newAccount then
          Ok(CreateAndTransferTransition(CREATE_AND_TRANSFER, root, from, to, entries[1].accountInfo.account,
                                         tokenIndex, amount, nonce, signature))
        else Ok(TransferTransition(TRANSFER, root, from, to, tokenIndex, amount, nonce, signature))
  }

  /** The transition a transaction leaves in the pending block, or why it leaves none. */
  function Emitted(h: Hasher, reg: Registry, fraudTransfer: bool, accounts: seq<AccountInfo>,
          tx: Transaction): Result<Transition> {
    var update :- UpdateFor(h, reg, accounts, tx);
    if tx.token !in reg.toIndex then Err(InvalidToken)
    else TransitionOf(fraudTransfer, tx, update, reg.toIndex[tx.token])
  }

  /** An accepted transaction always leaves a transition: the token lookup cannot miss, and the entries are there. */
  lemma AcceptedIsEmitted(h: Hasher, reg: Registry, fraudTransfer: bool, accounts: seq<AccountInfo>, tx: Transaction)
    ensures Emitted(h, reg, fraudTransfer, accounts, tx).Ok? <==> Apply(reg, accounts, tx).result.Ok?
    ensures Emitted(h, reg, fraudTransfer, accounts, tx).Err? ==>
              Emitted(h, reg, fraudTransfer, accounts, tx).error ==
                Apply(reg, accounts, tx).result.error != InvalidToken
  {
    hide StateRoot, EntryFor, Stored, FindSlot, GetOrCreate, Credit;
  }

  // ---------------------------------------------------------------- sealing

  /** A transition added to the pending block, and whether proposing the block then would succeed. */
  datatype Addition = Addition(transition: Transition, proposed: bool)

  datatype Sealed = Sealed(blocks: seq<RollupBlock>, pending: RollupBlock)

  const NOTHING_SEALED: Sealed := Sealed([], RollupBlock(0, []))

  /** A failed proposal keeps the block pending; a successful one starts the next number. */
  function Add(s: Sealed, n: int, a: Addition): Sealed {
    var block := RollupBlock(s.pending.blockNumber, s.pending.transitions + [a.transition]);
    if |block.transitions| >= n && a.proposed then
      Sealed(s.blocks + [block], RollupBlock((block.blockNumber + 1) % UINT64_LIMIT, []))
    else Sealed(s.blocks, block)
  }

  function Seal(n: int, additions: seq<Addition>): Sealed {
    if additions == [] then NOTHING_SEALED
    else Add(Seal(n, additions[..|additions| - 1]), n, additions[|additions| - 1])
  }

  function TransitionsOf(additions: seq<Addition>): (ts: seq<Transition>)
    ensures |ts| == |additions|
  {
    seq(|additions|, i requires 0 <= i < |additions| => additions[i].transition)
  }

  function Concatenated<T>(parts: seq<seq<T>>): seq<T> {
    if parts == [] then [] else Concatenated(parts[..|parts| - 1]) + parts[|parts| - 1]
  }

  /** Proposals that failed while a block was filled by these additions. */
  function FailedProposals(n: int, additions: seq<Addition>): nat {
    if additions == [] then 0
    else
      FailedProposals(n, additions[..|additions| - 1]) +
      if |additions| >= n && !additions[|additions| - 1].proposed then 1 else 0
  }

  lemma TransitionsAppend(additions: seq<Addition>, a: Addition)
    ensures TransitionsOf(additions + [a]) == TransitionsOf(additions) + [a.transition]
  {
  }

  lemma ConcatenatedAppend<T>(parts: seq<seq<T>>, part: seq<T>)
    ensures Concatenated(parts + [part]) == Concatenated(parts) + part
  {
    assert (parts + [part])[..|parts|] == parts;
  }

  lemma FailedAppend(n: int, additions: seq<Addition>, a: Addition)
    ensures FailedProposals(n, additions + [a]) ==
            FailedProposals(n, additions) + if |additions| + 1 >= n && !a.proposed then 1 else 0
  {
    assert (additions + [a])[..|additions|] == additions;
  }

  function Threshold(n: int): nat {
    if n >= 1 then n else 1
  }

  /** Filling of one block: below the threshold nothing was proposed, past it every proposal failed. */
  ghost predicate Filling(n: int, span: seq<Addition>) {
    FailedProposals(n, span) == if |span| < Threshold(n) then 0 else |span| - Threshold(n) + 1
  }

  /** Blocks are numbered 0, 1, 2, ..., and each holds the threshold plus one transition per failed proposal of it. */
  ghost predicate SplitInto(n: int, s: Sealed, spans: seq<seq<Addition>>, last: seq<Addition>) {
    && |s.blocks| == |spans|
    && s.pending == RollupBlock(|spans| % UINT64_LIMIT, TransitionsOf(last)) && Filling(n, last)
    && (forall i :: 0 <= i < |spans| ==> s.blocks[i] == RollupBlock(i % UINT64_LIMIT, TransitionsOf(spans[i])))
    && (forall i :: 0 <= i < |spans| ==> |spans[i]| == Threshold(n) + FailedProposals(n, spans[i]))
  }

  lemma AddSplits(n: int, s: Sealed, spans: seq<seq<Addition>>, last: seq<Addition>, a: Addition)
    requires SplitInto(n, s, spans, last)
    ensures if |last| + 1 >= n && a.proposed then SplitInto(n, Add(s, n, a), spans + [last + [a]], [])
            else SplitInto(n, Add(s, n, a), spans, last + [a])
  {
    hide TransitionsOf, FailedProposals;
    TransitionsAppend(last, a);
    FailedAppend(n, last, a);
    NothingAdded(n);
  }

  lemma NothingAdded(n: int)
    ensures TransitionsOf([]) == [] && FailedProposals(n, []) == 0
  {
  }

  /**
   Sealing loses nothing: whatever proposals fail, the additions split into consecutive spans, one for each
   sealed block and one for the pending block.
   */
  lemma {:induction false} SealingLosesNothing(n: int, additions: seq<Addition>)
    returns (spans: seq<seq<Addition>>, last: seq<Addition>)
    ensures Concatenated(spans) + last == additions
    ensures SplitInto(n, Seal(n, additions), spans, last)
  {
    hide TransitionsOf, SplitInto, Add, FailedProposals;
    if additions == [] {
      spans, last := [], [];
      NothingAdded(n);
      assert SplitInto(n, NOTHING_SEALED, [], []) by { NothingSplit(n); }
    } else {
      var init, a := additions[..|additions| - 1], additions[|additions| - 1];
      assert additions == init + [a];
      spans, last := SealingLosesNothing(n, init);
      AddSplits(n, Seal(n, init), spans, last, a);
      if |last| + 1 >= n && a.proposed {
        ConcatenatedAppend(spans, last + [a]);
        spans, last := spans + [last + [a]], [];
      } else {
        last := last + [a];
      }
    }
  }

  lemma NothingSplit(n: int)
    ensures SplitInto(n, NOTHING_SEALED, [], [])
  {
    NothingAdded(n);
  }

  function BlockTransitions(blocks: seq<RollupBlock>): seq<seq<Transition>> {
    seq(|blocks|, i requires 0 <= i < |blocks| => blocks[i].transitions)
  }

  /** Reading the sealed blocks and then the pending one gives back every transition in order. */
  lemma {:induction false} BlocksConcatenate(n: int, additions: seq<Addition>)
    ensures var s := Seal(n, additions);
            Concatenated(BlockTransitions(s.blocks)) + s.pending.transitions == TransitionsOf(additions)
  {
    hide TransitionsOf;
    if additions == [] {
      assert TransitionsOf([]) == [];
    } else {
      var init, a := additions[..|additions| - 1], additions[|additions| - 1];
      assert additions == init + [a];
      BlocksConcatenate(n, init);
      TransitionsAppend(init, a);
      var s := Seal(n, init);
      var block := RollupBlock(s.pending.blockNumber, s.pending.transitions + [a.transition]);
      assert BlockTransitions(s.blocks + [block]) == BlockTransitions(s.blocks) + [block.transitions];
      ConcatenatedAppend(BlockTransitions(s.blocks), block.transitions);
    }
  }

  // ---------------------------------------------------------------- whole runs

  datatype Submission = Submission(tx: Transaction, proposed: bool)

  /** A panic while a transaction is applied ends the process. */
  datatype AggregatorState = AggregatorState(accounts: seq<AccountInfo>, sealed: Sealed, crashed: bool)

  const AGGREGATOR_START: AggregatorState := AggregatorState([], NOTHING_SEALED, false)

  function AggregatorStep(h: Hasher, reg: Registry, fraudTransfer: bool, n: int, st: AggregatorState, sub: Submission)
    : AggregatorState
  {
    if st.crashed then st
    else
      var out := Apply(reg, st.accounts, sub.tx);
      AggregatorState(out.accounts,
                      match Emitted(h, reg, fraudTransfer, st.accounts, sub.tx)
                      case Ok(t) => Add(st.sealed, n, Addition(t, sub.proposed))
                      case Err(_) => st.sealed,
                      out.result == Err(Panic))
  }

  /**
   What the caller of applyTransaction learns: a failed proposal is reported although the transaction stays applied.
   */
  function AggregatorResult(h: Hasher, reg: Registry, fraudTransfer: bool, n: int, st: AggregatorState,
          sub: Submission): Result<()> {
    var _ :- Emitted(h, reg, fraudTransfer, st.accounts, sub.tx);
    if |st.sealed.pending.transitions| + 1 >= n && !sub.proposed then Err(ProposeFailed) else Ok(())
  }

  lemma NoOtherErrors(reg: Registry, accounts: seq<AccountInfo>, tx: Transaction)
    ensures Apply(reg, accounts, tx).result != Err(ProposeFailed)
            && Apply(reg, accounts, tx).result != Err(InvalidToken)
  {
    hide Stored, Credit, GetOrCreate, FindSlot;
  }

  /** The transaction fills the block and proposing it then fails. */
  predicate ProposalFails(n: int, st: AggregatorState, sub: Submission) {
    |st.sealed.pending.transitions| + 1 >= n && !sub.proposed
  }

  /**
   What the caller learns. A refusal is passed on; a failed proposal is reported although the transaction was taken,
   stays applied and stays pending; otherwise there is no error.
   */
  lemma CallerLearns(h: Hasher, reg: Registry, fraudTransfer: bool, n: int, st: AggregatorState, sub: Submission)
    requires !st.crashed
    ensures var result := Apply(reg, st.accounts, sub.tx).result;
            var learnt := AggregatorResult(h, reg, fraudTransfer, n, st, sub);
            && (learnt == Err(ProposeFailed) <==> result.Ok? && ProposalFails(n, st, sub))
            && (learnt.Ok? <==> result.Ok? && !ProposalFails(n, st, sub))
            && (result.Err? ==> learnt == Err(result.error))
    ensures var next := AggregatorStep(h, reg, fraudTransfer, n, st, sub);
            var emitted := Emitted(h, reg, fraudTransfer, st.accounts, sub.tx);
            Apply(reg, st.accounts, sub.tx).result.Ok? && ProposalFails(n, st, sub) ==>
              && next.accounts == Apply(reg, st.accounts, sub.tx).accounts
              && next.sealed.blocks == st.sealed.blocks
              && emitted.Ok?
              && next.sealed.pending ==
                 RollupBlock(st.sealed.pending.blockNumber, st.sealed.pending.transitions + [emitted.value])
  {
    hide Apply, Emitted;
    AcceptedIsEmitted(h, reg, fraudTransfer, st.accounts, sub.tx);
    NoOtherErrors(reg, st.accounts, sub.tx);
  }

  function AggregatorRun(h: Hasher, reg: Registry, fraudTransfer: bool, n: int,
          subs: seq<Submission>): AggregatorState {
    if subs == [] then AGGREGATOR_START
    else AggregatorStep(h, reg, fraudTransfer, n, AggregatorRun(h, reg, fraudTransfer, n, subs[..|subs| - 1]),
      subs[|subs| - 1])
  }

  function TransactionsOf(subs: seq<Submission>): (txs: seq<Transaction>)
    ensures |txs| == |subs|
  {
    seq(|subs|, i requires 0 <= i < |subs| => subs[i].tx)
  }

  /** The accepted transactions of a run as transitions, in order. */
  function Additions(h: Hasher, reg: Registry, fraudTransfer: bool, subs: seq<Submission>): seq<Addition> {
    if subs == [] then []
    else
      var init, last := subs[..|subs| - 1], subs[|subs| - 1];
      var before := Additions(h, reg, fraudTransfer, init);
      match Emitted(h, reg, fraudTransfer, Run(reg, TransactionsOf(init)), last.tx)
      case Ok(t) => before + [Addition(t, last.proposed)]
      case Err(_) => before
  }

  predicate EndsInPanic(reg: Registry, subs: seq<Submission>) {
    subs != [] && Apply(reg, Run(reg, TransactionsOf(subs[..|subs| - 1])), subs[|subs| - 1].tx).result == Err(Panic)
  }

  /** The submissions taken from the queue before the process ends: up to the first that panics, which is the last. */
  function Handled(reg: Registry, subs: seq<Submission>): seq<Submission> {
    if subs == [] then []
    else
      var before := Handled(reg, subs[..|subs| - 1]);
      if |before| < |subs| - 1 || EndsInPanic(reg, before) then before else subs
  }

  lemma {:induction false} HandledStops(reg: Registry, subs: seq<Submission>)
    ensures Handled(reg, subs) <= subs
    ensures Handled(reg, subs) == subs || EndsInPanic(reg, Handled(reg, subs))
    ensures forall i :: 0 <= i < |Handled(reg, subs)| ==> !EndsInPanic(reg, subs[..i])
  {
    hide EndsInPanic;
    if subs != [] {
      var init := subs[..|subs| - 1];
      HandledStops(reg, init);
      var before := Handled(reg, init);
      forall i | 0 <= i < |Handled(reg, subs)| ensures !EndsInPanic(reg, subs[..i]) {
        if i < |before| {
          assert init[..i] == subs[..i];
        } else {
          assert before == init && subs[..i] == init;
        }
      }
    }
  }

  lemma {:induction false} HandledPrefix(reg: Registry, subs: seq<Submission>, m: nat)
    requires m <= |subs|
    ensures Handled(reg, subs[..m]) <= Handled(reg, subs)
    decreases |subs|
  {
    hide EndsInPanic;
    if m == |subs| {
      assert subs[..m] == subs;
    } else {
      HandledPrefix(reg, subs[..|subs| - 1], m);
      HandledStops(reg, subs[..|subs| - 1]);
      assert subs[..|subs| - 1][..m] == subs[..m];
    }
  }

  lemma HandledWhole(reg: Registry, subs: seq<Submission>, m: nat)
    requires m <= |Handled(reg, subs)|
    ensures m <= |subs| && Handled(reg, subs[..m]) == subs[..m] == Handled(reg, subs)[..m]
  {
    hide EndsInPanic, Handled;
    HandledStops(reg, subs);
    HandledStops(reg, subs[..m]);
    var k := |Handled(reg, subs[..m])|;
    assert k < m ==> Handled(reg, subs[..m]) == subs[..k];
  }

  /** Over every run the ledger and the blocks go their own ways: blocks depend only on the accepted transitions. */
  lemma {:induction false} AggregatorRunSeals(h: Hasher, reg: Registry, fraudTransfer: bool, n: int,
          subs: seq<Submission>)
    ensures var handled := Handled(reg, subs);
            AggregatorRun(h, reg, fraudTransfer, n, subs) ==
            AggregatorState(Run(reg, TransactionsOf(handled)), Seal(n, Additions(h, reg, fraudTransfer, handled)),
                            EndsInPanic(reg, handled))
  {
    hide Emitted, Apply, Add;
    if subs == [] {
      assert TransactionsOf([]) == [];
    } else {
      var init, last := subs[..|subs| - 1], subs[|subs| - 1];
      AggregatorRunSeals(h, reg, fraudTransfer, n, init);
      HandledStops(reg, init);
      if !EndsInPanic(reg, Handled(reg, init)) {
        assert Handled(reg, subs) == subs;
        assert TransactionsOf(subs)[..|subs| - 1] == TransactionsOf(init);
        var before := Additions(h, reg, fraudTransfer, init);
        var emitted := Emitted(h, reg, fraudTransfer, Run(reg, TransactionsOf(init)), last.tx);
        if emitted.Ok? {
          var all := before + [Addition(emitted.value, last.proposed)];
          assert all[..|all| - 1] == before;
        }
      }
    }
  }

  lemma {:induction false} AggregatorStaysCrashed(h: Hasher, reg: Registry, fraudTransfer: bool, n: int,
          subs: seq<Submission>, m: nat)
    requires m <= |subs| && AggregatorRun(h, reg, fraudTransfer, n, subs[..m]).crashed
    ensures AggregatorRun(h, reg, fraudTransfer, n, subs) == AggregatorRun(h, reg, fraudTransfer, n, subs[..m])
    decreases |subs|
  {
    hide Emitted, Apply, Add;
    if m == |subs| {
      assert subs[..m] == subs;
    } else {
      assert subs[..|subs| - 1][..m] == subs[..m];
      AggregatorStaysCrashed(h, reg, fraudTransfer, n, subs[..|subs| - 1], m);
    }
  }

  /** Everything published: the sealed blocks' transitions and then the pending ones. */
  function Posted(st: AggregatorState): seq<Transition> {
    Concatenated(BlockTransitions(st.sealed.blocks)) + st.sealed.pending.transitions
  }

  /**
   What was sealed and what is pending together are exactly the accepted transitions, in order, of the submissions
   handled before the process ended.
   */
  lemma RunLosesNothing(h: Hasher, reg: Registry, fraudTransfer: bool, n: int, subs: seq<Submission>)
    ensures Posted(AggregatorRun(h, reg, fraudTransfer, n, subs)) ==
            TransitionsOf(Additions(h, reg, fraudTransfer, Handled(reg, subs)))
  {
    hide Seal, Additions, AggregatorRun, TransitionsOf, BlockTransitions, Concatenated, Handled, EndsInPanic;
    AggregatorRunSeals(h, reg, fraudTransfer, n, subs);
    BlocksConcatenate(n, Additions(h, reg, fraudTransfer, Handled(reg, subs)));
  }

  /** The last moment at which nothing was pending: every block of the run was sealed by then. */
  lemma {:induction false} LastSealing(h: Hasher, reg: Registry, fraudTransfer: bool, n: int, subs: seq<Submission>)
          returns (m: nat)
    ensures m <= |subs|
    ensures var atSealing := AggregatorRun(h, reg, fraudTransfer, n, subs[..m]);
            var end := AggregatorRun(h, reg, fraudTransfer, n, subs);
            && atSealing.sealed.blocks == end.sealed.blocks && atSealing.sealed.pending.transitions == []
            && (end.sealed.pending.transitions == [] ==> m == |subs|)
  {
    hide Emitted, Apply;
    m := |subs|;
    assert subs[..m] == subs;
    if AggregatorRun(h, reg, fraudTransfer, n, subs).sealed.pending.transitions != [] {
      m := LastSealing(h, reg, fraudTransfer, n, subs[..|subs| - 1]);
      assert subs[..|subs| - 1][..m] == subs[..m];
    }
  }
}
