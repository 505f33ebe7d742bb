/** The five transition layouts (types/transitions.go). */
module Transitions {
  import opened ByteStrings
  import opened Errors
  import opened Abi

  datatype Transition =
    | CreateAndDepositTransition(transitionType: int, stateRoot: bytes, accountSlotIndex: int, account: bytes,
                                 tokenIndex: int, amount: int, signature: bytes)
    | DepositTransition(transitionType: int, stateRoot: bytes, accountSlotIndex: int,
                        tokenIndex: int, amount: int, signature: bytes)
    | WithdrawTransition(transitionType: int, stateRoot: bytes, accountSlotIndex: int,
                         tokenIndex: int, amount: int, nonce: int, signature: bytes)
    | CreateAndTransferTransition(transitionType: int, stateRoot: bytes, senderSlotIndex: int, recipientSlotIndex: int,
                                  recipient: bytes, tokenIndex: int, amount: int, nonce: int, signature: bytes)
    | TransferTransition(transitionType: int, stateRoot: bytes, senderSlotIndex: int, recipientSlotIndex: int,
                         tokenIndex: int, amount: int, nonce: int, signature: bytes)

  const CREATE_AND_DEPOSIT: nat := 0
  const DEPOSIT: nat := 1
  const WITHDRAW: nat := 2
  const CREATE_AND_TRANSFER: nat := 3
  const TRANSFER: nat := 4

  const UINT64_LIMIT: nat := 0x1_0000_0000_0000_0000

  /** GetTransitionType: decided by the Go type, not by the field of the same name. */
  function KindOf(t: Transition): nat {
    match t
    case CreateAndDepositTransition(_, _, _, _, _, _, _) => CREATE_AND_DEPOSIT
    case DepositTransition(_, _, _, _, _, _) => DEPOSIT
    case WithdrawTransition(_, _, _, _, _, _, _) => WITHDRAW
    case CreateAndTransferTransition(_, _, _, _, _, _, _, _, _) => CREATE_AND_TRANSFER
    case TransferTransition(_, _, _, _, _, _, _, _) => TRANSFER
  }

  function Arguments(t: Transition): seq<AbiValue> {
    match t
    case CreateAndDepositTransition(ty, root, slot, account, token, amount, sig) =>
      [Uint(ty), Bytes32(root), Uint(slot), AbiValue.Address(account), Uint(token), Uint(amount), Blob(sig)]
    case DepositTransition(ty, root, slot, token, amount, sig) =>
      [Uint(ty), Bytes32(root), Uint(slot), Uint(token), Uint(amount), Blob(sig)]
    case WithdrawTransition(ty, root, slot, token, amount, nonce, sig) =>
      [Uint(ty), Bytes32(root), Uint(slot), Uint(token), Uint(amount), Uint(nonce), Blob(sig)]
    case CreateAndTransferTransition(ty, root, from, to, recipient, token, amount, nonce, sig) =>
      [Uint(ty), Bytes32(root), Uint(from), Uint(to), AbiValue.Address(recipient), Uint(token), Uint(amount),
        Uint(nonce), Blob(sig)]
    case TransferTransition(ty, root, from, to, token, amount, nonce, sig) =>
      [Uint(ty), Bytes32(root), Uint(from), Uint(to), Uint(token), Uint(amount), Uint(nonce), Blob(sig)]
  }

  function ArgumentTypes(kind: nat): seq<AbiType>
    requires kind <= TRANSFER
  {
    if kind == CREATE_AND_DEPOSIT then [UintTy, Bytes32Ty, UintTy, AddressTy, UintTy, UintTy, BytesTy]
    else if kind == DEPOSIT then [UintTy, Bytes32Ty, UintTy, UintTy, UintTy, BytesTy]
    else if kind == WITHDRAW then [UintTy, Bytes32Ty, UintTy, UintTy, UintTy, UintTy, BytesTy]
    else if kind == CREATE_AND_TRANSFER
      then [UintTy, Bytes32Ty, UintTy, UintTy, AddressTy, UintTy, UintTy, UintTy, BytesTy]
    else [UintTy, Bytes32Ty, UintTy, UintTy, UintTy, UintTy, UintTy, BytesTy]
  }

  function Serialize(t: Transition): bytes {
    Pack(Arguments(t))
  }

  predicate Shaped(types: seq<AbiType>, vs: seq<AbiValue>) {
    |vs| == |types| && forall i :: 0 <= i < |vs| ==> TypeOf(vs[i]) == types[i]
  }

  /** Assigns unpacked arguments to the fields of a layout. */
  function FromArguments(kind: nat, vs: seq<AbiValue>): Transition
    requires kind <= TRANSFER && Shaped(ArgumentTypes(kind), vs)
  {
    assert forall i :: 0 <= i < |vs| ==> TypeOf(vs[i]) == ArgumentTypes(kind)[i];
    if kind == CREATE_AND_DEPOSIT then
      CreateAndDepositTransition(vs[0].n, vs[1].word, vs[2].n, vs[3].address, vs[4].n, vs[5].n, vs[6].data)
    else if kind == DEPOSIT then
      DepositTransition(vs[0].n, vs[1].word, vs[2].n, vs[3].n, vs[4].n, vs[5].data)
    else if kind == WITHDRAW then
      WithdrawTransition(vs[0].n, vs[1].word, vs[2].n, vs[3].n, vs[4].n, vs[5].n, vs[6].data)
    else if kind == CREATE_AND_TRANSFER then
      CreateAndTransferTransition(vs[0].n, vs[1].word, vs[2].n, vs[3].n, vs[4].address, vs[5].n, vs[6].n, vs[7].n,
        vs[8].data)
    else
      TransferTransition(vs[0].n, vs[1].word, vs[2].n, vs[3].n, vs[4].n, vs[5].n, vs[6].n, vs[7].data)
  }

  /** Dispatches on the low 64 bits of the first word; data shorter than a word panics. */
  function DeserializeTransition(data: bytes): Result<Transition> {
    if |data| < 32 then Err(Panic)
    else
      var kind := FromBytes(data[0..32]) % UINT64_LIMIT;
      if kind > TRANSFER then Err(UnknownTransitionType)
      else
        var vs :- Unpack(ArgumentTypes(kind), data);
        Ok(FromArguments(kind, vs))
  }

  /** Fields as the fixed-width types of the layout hold them. */
  predicate InRange(t: Transition) {
    forall v :: v in Arguments(t) ==> WellFormed(v) && (v.Uint? ==> 0 <= v.n < UINT_LIMIT)
  }

  lemma ArgumentsShaped(t: Transition)
    ensures Shaped(ArgumentTypes(KindOf(t)), Arguments(t))
    ensures Types(Arguments(t)) == ArgumentTypes(KindOf(t))
    ensures FromArguments(KindOf(t), Arguments(t)) == t
  {
  }

  lemma InRangeIsNormal(vs: seq<AbiValue>)
    requires forall v :: v in vs ==> !v.Uints? && (v.Uint? ==> 0 <= v.n < UINT_LIMIT)
    ensures NormalizedAll(vs) == vs
  {
    hide Wrap, WrapAll;
    forall i | 0 <= i < |vs| ensures NormalizedAll(vs)[i] == vs[i] {
      assert vs[i] in vs;
    }
  }

  lemma NoSlices(t: Transition)
    ensures forall v :: v in Arguments(t) ==> !v.Uints?
  {
  }

  /**
   Decoding an encoded transition returns it exactly when its type field, cut to 64 bits, names its own
   layout; the encoder writes the field it is given.
   */
  lemma TransitionRoundTripIff(t: Transition)
    requires InRange(t) && |Serialize(t)| < UINT_LIMIT
    ensures DeserializeTransition(Serialize(t)) == Ok(t) <==> t.transitionType % UINT64_LIMIT == KindOf(t)
  {
    hide Unpack, Pack, FromBytes, FromArguments, Wrap, WrapAll, Arguments, ArgumentTypes;
    var vs := Arguments(t);
    ArgumentsShaped(t);
    FirstWordIsType(t);
    var kind := t.transitionType % UINT64_LIMIT;
    if kind == KindOf(t) {
      NoSlices(t);
      UnpackPack(vs);
      InRangeIsNormal(vs);
    } else if kind <= TRANSFER {
      var unpacked := Unpack(ArgumentTypes(kind), Serialize(t));
      if unpacked.Ok? {
        KindOfDecoded(kind, unpacked.value);
      }
    }
  }

  lemma FirstWordIsType(t: Transition)
    requires InRange(t) && |Serialize(t)| < UINT_LIMIT
    ensures |Serialize(t)| >= 32 && FromBytes(Serialize(t)[0..32]) == t.transitionType
  {
    hide FromBytes, Wrap, Pack, WrapAll, DecodeBlob, DecodeUintSlice, DecodeBytesSlice;
    var vs := Arguments(t);
    assert vs[0] == Uint(t.transitionType) && vs[0] in vs;
    PrefixSits(Pack(vs), Serialize(t));
    ValueAt(vs, Serialize(t), 0);
  }

  lemma KindOfDecoded(kind: nat, vs: seq<AbiValue>)
    requires kind <= TRANSFER && Shaped(ArgumentTypes(kind), vs)
    ensures KindOf(FromArguments(kind, vs)) == kind
  {
  }

  // ---------------------------------------------------------------- size

  lemma {:induction false} OneTail(slots: seq<Slot>)
    requires slots != [] && forall i :: 0 <= i < |slots| - 1 ==> slots[i].Inline?
    ensures Tails(slots) == TailOf(slots[|slots| - 1])
  {
    if |slots| == 1 {
      assert slots[1..] == [];
    } else {
      OneTail(slots[1..]);
    }
  }

  lemma SignatureLast(t: Transition)
    ensures 1 <= |Arguments(t)| <= 9 && Arguments(t)[|Arguments(t)| - 1] == Blob(t.signature)
    ensures forall i :: 0 <= i < |Arguments(t)| - 1 ==> SlotOf(Arguments(t)[i]).Inline?
  {
    hide Word, EncodeBlob;
  }

  lemma InlineWords(vs: seq<AbiValue>)
    requires forall v :: v in vs ==> WellFormed(v)
    ensures SlotsFit(Slots(vs))
  {
    hide Word, EncodeBlob;
    var slots := Slots(vs);
    forall s | s in slots && s.Inline? ensures |s.word| == 32 {
      var i :| 0 <= i < |vs| && s == SlotOf(vs[i]);
      assert vs[i] in vs;
    }
  }

  /** Only the signature makes an encoding longer than its head. */
  lemma TransitionSize(t: Transition)
    requires forall v :: v in Arguments(t) ==> WellFormed(v)
    ensures |Serialize(t)| == 32 * |Arguments(t)| + |EncodeBlob(t.signature)|
    ensures |Serialize(t)| <= 384 + |t.signature|
  {
    hide Word, Heads, EncodeBlob, Arguments, SlotsFit, Tails, WellFormed;
    var vs := Arguments(t);
    var slots := Slots(vs);
    InlineWords(vs);
    HeadsLength(slots, 32 * |slots|);
    SignatureLast(t);
    OneTail(slots);
    BlobLength(t.signature);
  }

  lemma BlobLength(data: bytes)
    ensures |EncodeBlob(data)| <= 64 + |data|
  {
    hide Word;
  }

  // ---------------------------------------------------------------- what decoding can return

  lemma {:induction false} UnpackedAt(types: seq<AbiType>, data: bytes, i: nat, j: nat)
    requires i + j < |types| && UnpackFrom(types, data, i).Ok?
    ensures DecodeValue(types[i + j], data, 32 * (i + j)) == Ok(UnpackFrom(types, data, i).value[j])
    decreases j
  {
    hide DecodeValue;
    if j > 0 {
      UnpackedAt(types, data, i + 1, j - 1);
      assert UnpackFrom(types, data, i).value[1..] == UnpackFrom(types, data, i + 1).value;
    }
  }

  lemma DecodedFits(ty: AbiType, data: bytes, index: nat)
    requires DecodeValue(ty, data, index).Ok?
    ensures var v := DecodeValue(ty, data, index).value;
            && WellFormed(v) && (v.Uint? ==> 0 <= v.n < UINT_LIMIT)
            && (v.Blob? ==> |v.data| <= |data|)
  {
    hide FromBytes, DecodeUintSlice, DecodeBytesSlice, Pow2;
    var word := data[index..index + 32];
    FromBytesBound(word);
    UintLimitIsPow2();
  }

  lemma ArgumentsOfDecoded(kind: nat, vs: seq<AbiValue>)
    requires kind <= TRANSFER && Shaped(ArgumentTypes(kind), vs)
    ensures Arguments(FromArguments(kind, vs)) == vs
    ensures vs[|vs| - 1] == Blob(FromArguments(kind, vs).signature)
  {
  }

  /** Whatever bytes decode to a transition, its fields fit and its type field names its layout, modulo 2^64. */
  lemma DecodedInRange(data: bytes)
    requires DeserializeTransition(data).Ok?
    ensures var t := DeserializeTransition(data).value;
            InRange(t) && t.transitionType % UINT64_LIMIT == KindOf(t) && |t.signature| <= |data|
  {
    hide UnpackFrom, FromArguments, Arguments, FromBytes, WellFormed;
    var kind := FromBytes(data[0..32]) % UINT64_LIMIT;
    var types := ArgumentTypes(kind);
    var vs := Unpack(types, data).value;
    forall j | 0 <= j < |vs|
      ensures DecodeValue(types[j], data, 32 * j) == Ok(vs[j])
      ensures WellFormed(vs[j]) && (vs[j].Uint? ==> 0 <= vs[j].n < UINT_LIMIT)
              && (vs[j].Blob? ==> |vs[j].data| <= |data|)
    {
      UnpackedAt(types, data, 0, j);
      DecodedFits(types[j], data, 32 * j);
    }
    ArgumentsOfDecoded(kind, vs);
    KindOfDecoded(kind, vs);
    TypeIsFirst(FromArguments(kind, vs));
    assert vs[0] == Uint(FromBytes(data[0..32]));
  }

  lemma TypeIsFirst(t: Transition)
    ensures Arguments(t) != [] && Arguments(t)[0] == Uint(t.transitionType)
  {
  }

  /** Reading the type word panics on fewer than 32 bytes; every other failure is an error. */
  lemma DeserializeFails(data: bytes)
    ensures DeserializeTransition(data) == Err(Panic) <==> |data| < 32
    ensures DeserializeTransition(data).Err? ==>
              DeserializeTransition(data).error in {Panic, UnknownTransitionType, BadEncoding}
  {
    hide UnpackFrom, FromArguments, FromBytes, ArgumentTypes;
    if |data| >= 32 && FromBytes(data[0..32]) % UINT64_LIMIT <= TRANSFER {
      UnpackFails(ArgumentTypes(FromBytes(data[0..32]) % UINT64_LIMIT), data, 0);
    }
  }
}
