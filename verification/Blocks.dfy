/** Blocks of transitions and their nested encoding (types/rollup_block.go). */
module Blocks {
  import opened ByteStrings
  import opened Errors
  import opened Abi
  import opened Transitions

  /** The block number is a uint64. */
  datatype RollupBlock = RollupBlock(blockNumber: nat, transitions: seq<Transition>)

  function Encoded(transitions: seq<Transition>): (r: seq<bytes>)
    ensures |r| == |transitions|
  {
    seq(|transitions|, i requires 0 <= i < |transitions| => Transitions.Serialize(transitions[i]))
  }

  function EncodeBlock(blockNumber: nat, serialized: seq<bytes>): bytes {
    Pack([Uint(blockNumber), Blobs(serialized)])
  }

  /** The first transition that does not decode decides the error. */
  function DecodeAll(raw: seq<bytes>): (r: Result<seq<Transition>>)
    ensures r.Ok? ==> |r.value| == |raw|
  {
    if raw == [] then Ok([])
    else
      var init :- DecodeAll(raw[..|raw| - 1]);
      var last :- DeserializeTransition(raw[|raw| - 1]);
      Ok(init + [last])
  }

  function DecodeFields(blockNumber: nat, raw: seq<bytes>): Result<RollupBlock> {
    var transitions :- DecodeAll(raw);
    Ok(RollupBlock(blockNumber, transitions))
  }

  function DecodeBlock(data: bytes): Result<RollupBlock> {
    var vs :- Unpack([UintTy, BytesSliceTy], data);
    assert TypeOf(vs[0]).UintTy? && TypeOf(vs[1]).BytesSliceTy?;
    DecodeFields(vs[0].n % UINT64_LIMIT, vs[1].items)
  }

  method Serialize(block: RollupBlock) returns (serialized: seq<bytes>, encoded: bytes)
    ensures serialized == Encoded(block.transitions)
    ensures encoded == EncodeBlock(block.blockNumber, serialized)
  {
    hide Pack, Arguments, EncodeBlock;
    var slices := new bytes[|block.transitions|];
    var i := 0;
    while i < |block.transitions|
      invariant 0 <= i <= |block.transitions|
      invariant forall j :: 0 <= j < i ==> slices[j] == Encoded(block.transitions)[j]
    {
      slices[i] := Transitions.Serialize(block.transitions[i]);
      i := i + 1;
    }
    serialized := slices[..];
    encoded := EncodeBlock(block.blockNumber, serialized);
  }

  method DeserializeRollupBlockFromFields(blockNumber: nat, raw: seq<bytes>) returns (r: Result<RollupBlock>)
    ensures r == DecodeFields(blockNumber, raw)
  {
    hide DeserializeTransition;
    var transitions: seq<Transition> := [];
    var i := 0;
    while i < |raw|
      invariant 0 <= i <= |raw|
      invariant DecodeAll(raw[..i]) == Ok(transitions)
    {
      assert raw[..i + 1][..i] == raw[..i];
      var transition := DeserializeTransition(raw[i]);
      if transition.Err? {
        DecodeStops(raw, i + 1, transition.error);
        return Err(transition.error);
      }
      transitions := transitions + [transition.value];
      i := i + 1;
    }
    TakeAll(raw);
    r := Ok(RollupBlock(blockNumber, transitions));
  }

  lemma {:induction false} DecodeStops(raw: seq<bytes>, i: nat, error: Error)
    requires i <= |raw| && DecodeAll(raw[..i]) == Err(error)
    ensures DecodeAll(raw) == Err(error)
    decreases |raw| - i
  {
    hide DeserializeTransition;
    if i == |raw| {
      TakeAll(raw);
    } else {
      assert raw[..i + 1][..i] == raw[..i];
      DecodeStops(raw, i + 1, error);
    }
  }

  /** The first transition that does not decode has no room for its type word. */
  ghost predicate FirstBadIsShort(raw: seq<bytes>) {
    exists i :: 0 <= i < |raw| && |raw[i]| < 32 && forall j :: 0 <= j < i ==> DeserializeTransition(raw[j]).Ok?
  }

  lemma {:induction false} DecodesAll(raw: seq<bytes>)
    ensures DecodeAll(raw).Ok? <==> forall j :: 0 <= j < |raw| ==> DeserializeTransition(raw[j]).Ok?
  {
    hide DeserializeTransition;
    if raw != [] {
      DecodesAll(raw[..|raw| - 1]);
    }
  }

  /** Decoding a block panics exactly when the first transition that does not decode is shorter than 32 bytes. */
  lemma {:induction false} DecodePanicsIff(raw: seq<bytes>)
    ensures DecodeAll(raw) == Err(Panic) <==> FirstBadIsShort(raw)
  {
    hide DeserializeTransition;
    if raw != [] {
      var init, last := raw[..|raw| - 1], raw[|raw| - 1];
      DecodePanicsIff(init);
      DecodesAll(init);
      DeserializeFails(last);
      if FirstBadIsShort(raw) && !FirstBadIsShort(init) {
        var i :| 0 <= i < |raw| && |raw[i]| < 32 && forall j :: 0 <= j < i ==> DeserializeTransition(raw[j]).Ok?;
        assert i == |raw| - 1;
      }
      if FirstBadIsShort(init) {
        var i :| 0 <= i < |init| && |init[i]| < 32 && forall j :: 0 <= j < i ==> DeserializeTransition(init[j]).Ok?;
        assert |raw[i]| < 32 && forall j :: 0 <= j < i ==> DeserializeTransition(raw[j]).Ok?;
        DeserializeFails(init[i]);
      }
    }
  }

  lemma {:induction false} DecodesTo(raw: seq<bytes>, ts: seq<Transition>)
    ensures DecodeAll(raw) == Ok(ts) <==>
            |ts| == |raw| && forall i :: 0 <= i < |raw| ==> DeserializeTransition(raw[i]) == Ok(ts[i])
  {
    hide DeserializeTransition;
    if raw != [] && |ts| == |raw| {
      var n := |raw| - 1;
      DecodesTo(raw[..n], ts[..n]);
      assert ts == ts[..n] + [ts[n]];
    }
  }

  lemma {:induction false} DecodeFails(raw: seq<bytes>)
    ensures DecodeAll(raw).Err? ==> DecodeAll(raw).error in {Panic, UnknownTransitionType, BadEncoding}
  {
    hide DeserializeTransition;
    if raw != [] {
      DecodeFails(raw[..|raw| - 1]);
      DeserializeFails(raw[|raw| - 1]);
    }
  }

  // ---------------------------------------------------------------- round trip

  /**
   A transition that can be written and read back: fields in range, and the type field naming its layout modulo 2^64.
   */
  predicate Proper(t: Transition) {
    InRange(t) && t.transitionType % UINT64_LIMIT == KindOf(t) && |Transitions.Serialize(t)| < UINT_LIMIT
  }

  lemma ProperRoundTrip(t: Transition)
    requires Proper(t)
    ensures DeserializeTransition(Transitions.Serialize(t)) == Ok(t)
  {
    hide InRange, DeserializeTransition, Pack, Arguments;
    TransitionRoundTripIff(t);
  }

  lemma EncodedAppend(init: seq<Transition>, last: Transition)
    ensures Encoded(init + [last]) == Encoded(init) + [Transitions.Serialize(last)]
  {
    hide Pack, Arguments;
  }

  lemma {:induction false} DecodeAllEncoded(transitions: seq<Transition>)
    requires forall t :: t in transitions ==> Proper(t)
    ensures DecodeAll(Encoded(transitions)) == Ok(transitions)
  {
    hide Proper, DeserializeTransition, Pack, Arguments, Encoded;
    if transitions == [] {
      assert Encoded(transitions) == [];
    } else {
      var init, last := transitions[..|transitions| - 1], transitions[|transitions| - 1];
      assert transitions == init + [last];
      DecodeAllEncoded(init);
      assert last in transitions;
      ProperRoundTrip(last);
      EncodedAppend(init, last);
      var raw := Encoded(transitions);
      assert raw[..|raw| - 1] == Encoded(init);
    }
  }

  /** The nested block encoding loses nothing. */
  lemma BlockRoundTrip(block: RollupBlock)
    requires block.blockNumber < UINT64_LIMIT && forall t :: t in block.transitions ==> Proper(t)
    requires |EncodeBlock(block.blockNumber, Encoded(block.transitions))| < UINT_LIMIT
    ensures DecodeBlock(EncodeBlock(block.blockNumber, Encoded(block.transitions))) == Ok(block)
  {
    hide Unpack, Pack, WrapAll, Proper, DecodeAll;
    var vs := [Uint(block.blockNumber), Blobs(Encoded(block.transitions))];
    UnpackPack(vs);
    assert Types(vs) == [UintTy, BytesSliceTy];
    assert NormalizedAll(vs) == vs;
    DecodeAllEncoded(block.transitions);
  }

  // ---------------------------------------------------------------- received blocks can be stored and read again

  predicate SliceBounded(raw: seq<bytes>) {
    |raw| < MAX_LENGTH && forall data :: data in raw ==> |data| < MAX_LENGTH
  }

  lemma DecodedIsProper(data: bytes)
    requires DeserializeTransition(data).Ok? && |data| < MAX_LENGTH
    ensures Proper(DeserializeTransition(data).value)
    ensures |Transitions.Serialize(DeserializeTransition(data).value)| <= 384 + |data|
  {
    hide DeserializeTransition, Transitions.Serialize;
    DecodedInRange(data);
    TransitionSize(DeserializeTransition(data).value);
  }

  lemma {:induction false} DecodedAt(raw: seq<bytes>, i: nat)
    requires i < |raw| && DecodeAll(raw).Ok?
    ensures DeserializeTransition(raw[i]) == Ok(DecodeAll(raw).value[i])
  {
    hide DeserializeTransition;
    if i < |raw| - 1 {
      DecodedAt(raw[..|raw| - 1], i);
    }
  }

  lemma {:induction false} TailsAtMost(items: seq<bytes>, most: nat)
    requires forall item :: item in items ==> |item| <= most
    ensures |Tails(BlobSlots(items))| <= |items| * (64 + most)
  {
    hide EncodeBlob;
    if items != [] {
      TailsAtMost(items[1..], most);
      BlobLength(items[0]);
      assert items[0] in items;
      assert BlobSlots(items)[1..] == BlobSlots(items[1..]);
      OneMore(|items| - 1, 64 + most);
    }
  }

  lemma OneMore(n: nat, m: nat)
    ensures (n + 1) * m == n * m + m
  {
  }

  lemma {:induction false} TimesBounded(n: nat, m: nat, limit: nat)
    requires m <= limit
    ensures n * m <= n * limit
  {
    if n > 0 {
      TimesBounded(n - 1, m, limit);
      OneMore(n - 1, m);
      OneMore(n - 1, limit);
    }
  }

  lemma BlockSize(blockNumber: nat, items: seq<bytes>, most: nat)
    requires forall item :: item in items ==> |item| <= most
    ensures |EncodeBlock(blockNumber, items)| <= 96 + 32 * |items| + |items| * (64 + most)
  {
    hide Word, Heads, EncodeBlob, Tails;
    var slots := Slots([Uint(blockNumber), Blobs(items)]);
    var inner := BlobSlots(items);
    assert SlotsFit(slots) && SlotsFit(inner);
    HeadsLength(slots, 64);
    HeadsLength(inner, 32 * |items|);
    OneTail(slots);
    TailsAtMost(items, most);
  }

  /** A block decoded from what the chain announced can be written to the store and read back. */
  lemma ReceivedRoundTrip(blockNumber: nat, raw: seq<bytes>)
    requires SliceBounded(raw) && blockNumber < UINT64_LIMIT && DecodeFields(blockNumber, raw).Ok?
    ensures var block := DecodeFields(blockNumber, raw).value;
            && (forall t :: t in block.transitions ==> Proper(t))
            && |EncodeBlock(block.blockNumber, Encoded(block.transitions))| < UINT_LIMIT
            && DecodeBlock(EncodeBlock(block.blockNumber, Encoded(block.transitions))) == Ok(block)
  {
    hide DecodeAll, Proper, DeserializeTransition, Transitions.Serialize, EncodeBlock, DecodeBlock;
    var block := DecodeFields(blockNumber, raw).value;
    var items := Encoded(block.transitions);
    forall i | 0 <= i < |raw|
      ensures Proper(block.transitions[i]) && |items[i]| <= MAX_LENGTH + 384
    {
      DecodedAt(raw, i);
      assert raw[i] in raw;
      DecodedIsProper(raw[i]);
    }
    BlockSize(blockNumber, items, MAX_LENGTH + 384);
    TimesBounded(MAX_LENGTH + 448, |items|, MAX_LENGTH);
    BlockRoundTrip(block);
  }
}
