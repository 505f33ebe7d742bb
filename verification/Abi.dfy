/**
 The argument encoding used for transitions, account records and blocks: the Solidity Contract ABI
 Specification, section "Formal Specification of the Encoding", for the argument types that occur.
 */
module Abi {
  import opened ByteStrings
  import opened Errors

  datatype AbiType = UintTy | Bytes32Ty | AddressTy | BytesTy | UintSliceTy | BytesSliceTy

  datatype AbiValue =
    | Uint(n: int)
    | Bytes32(word: bytes)
    | Address(address: bytes)
    | Blob(data: bytes)
    | Uints(ns: seq<int>)
    | Blobs(items: seq<bytes>)

  /** One more than the largest uint256. */
  const UINT_LIMIT: nat := 0x1_00000000_00000000_00000000_00000000_00000000_00000000_00000000_00000000

  lemma UintLimitIsPow2()
    ensures UINT_LIMIT == Pow2(256)
  {
    hide Pow2;
    assert Pow2(8) == 256 by { Pow2Of8(); }
    Pow2Sum(8, 8);
    Pow2Sum(16, 16);
    Pow2Sum(32, 32);
    Pow2Sum(64, 64);
    Pow2Sum(128, 128);
  }

  lemma Pow2Of8()
    ensures Pow2(8) == 256
  {
  }

  function TypeOf(v: AbiValue): AbiType {
    match v
    case Uint(_) => UintTy
    case Bytes32(_) => Bytes32Ty
    case Address(_) => AddressTy
    case Blob(_) => BytesTy
    case Uints(_) => UintSliceTy
    case Blobs(_) => BytesSliceTy
  }

  /** An integer as 256 bits hold it. */
  function Wrap(n: int): (w: nat)
    ensures w < UINT_LIMIT
    ensures 0 <= n < UINT_LIMIT ==> w == n
  {
    n % UINT_LIMIT
  }

  function WrapAll(ns: seq<int>): (r: seq<nat>)
    ensures |r| == |ns|
    ensures forall i :: 0 <= i < |ns| ==> r[i] == Wrap(ns[i])
  {
    seq(|ns|, i requires 0 <= i < |ns| => Wrap(ns[i]))
  }

  predicate WellFormed(v: AbiValue) {
    (v.Bytes32? ==> |v.word| == 32) && (v.Address? ==> |v.address| == 20)
  }

  /** Integers are packed modulo 2^256, without an error. */
  function Normalized(v: AbiValue): AbiValue {
    match v
    case Uint(n) => Uint(Wrap(n))
    case Uints(ns) => Uints(WrapAll(ns))
    case _ => v
  }

  // ---------------------------------------------------------------- packing

  function Word(n: int): (w: bytes)
    ensures |w| == 32
    ensures FromBytes(w) == Wrap(n)
  {
    var b := ToBytes(Wrap(n));
    UintLimitIsPow2();
    ToBytesLength(Wrap(n), 32);
    FromToBytes(Wrap(n));
    FromBytesPadded(32 - |b|, b);
    Zeros(32 - |b|) + b
  }

  /** An argument's place in the head: its 32 bytes, or the offset of bytes that follow the head. */
  datatype Slot = Inline(word: bytes) | Behind(tail: bytes)

  function TailOf(s: Slot): bytes {
    match s case Inline(_) => [] case Behind(t) => t
  }

  function HeadOf(s: Slot, offset: nat): bytes {
    match s case Inline(w) => w case Behind(_) => Word(offset)
  }

  function Tails(slots: seq<Slot>): bytes {
    if slots == [] then [] else TailOf(slots[0]) + Tails(slots[1..])
  }

  function Heads(slots: seq<Slot>, offset: nat): bytes {
    if slots == [] then []
    else
      HeadOf(slots[0], offset) + Heads(slots[1..], offset + |TailOf(slots[0])|)
  }

  function Layout(slots: seq<Slot>): bytes {
    Heads(slots, 32 * |slots|) + Tails(slots)
  }

  function EncodeBlob(data: bytes): bytes {
    Word(|data|) + data + Zeros((32 - |data| % 32) % 32)
  }

  function Words(ns: seq<int>): bytes {
    if ns == [] then [] else Word(ns[0]) + Words(ns[1..])
  }

  function BlobSlots(items: seq<bytes>): (slots: seq<Slot>)
    ensures |slots| == |items|
  {
    seq(|items|, i requires 0 <= i < |items| => Behind(EncodeBlob(items[i])))
  }

  function SlotOf(v: AbiValue): Slot {
    match v
    case Uint(n) => Inline(Word(n))
    case Bytes32(w) => Inline(w)
    case Address(a) => Inline(Zeros(12) + a)
    case Blob(b) => Behind(EncodeBlob(b))
    case Uints(ns) => Behind(Word(|ns|) + Words(ns))
    case Blobs(items) => Behind(Word(|items|) + Layout(BlobSlots(items)))
  }

  function Slots(vs: seq<AbiValue>): (slots: seq<Slot>)
    ensures |slots| == |vs|
  {
    seq(|vs|, i requires 0 <= i < |vs| => SlotOf(vs[i]))
  }

  function Pack(vs: seq<AbiValue>): bytes {
    Layout(Slots(vs))
  }

  // ---------------------------------------------------------------- unpacking

  /** Where a length-prefixed value begins, and its length; both are checked against the data at hand. */
  function LengthPrefix(data: bytes, index: nat): (r: Result<(nat, nat)>)
    requires index + 32 <= |data|
    ensures r.Ok? ==> r.value.0 + r.value.1 <= |data|
  {
    var begin := FromBytes(data[index..index + 32]) + 32;
    if begin > |data| then Err(BadEncoding)
    else
      var length := FromBytes(data[begin - 32..begin]);
      if begin + length > |data| then Err(BadEncoding) else Ok((begin, length))
  }

  function WordAt(data: bytes, i: nat): nat
    requires 32 * i + 32 <= |data|
  {
    FromBytes(data[32 * i..32 * i + 32])
  }

  function ReadWords(elements: bytes, n: nat): (ns: seq<nat>)
    requires 32 * n <= |elements|
    ensures |ns| == n
    ensures forall i :: 0 <= i < n ==> ns[i] == WordAt(elements, i)
  {
    seq(n, i requires 0 <= i < n => WordAt(elements, i))
  }

  function DecodeBlob(data: bytes, index: nat): Result<bytes> {
    if index + 32 > |data| then Err(BadEncoding)
    else
      var place :- LengthPrefix(data, index);
      Ok(data[place.0..place.0 + place.1])
  }

  /** Elements i onwards of a bytes slice; their offsets count from the slice's own first word. */
  function DecodeBlobs(data: bytes, n: nat, i: nat): (r: Result<seq<bytes>>)
    requires i <= n
    ensures r.Ok? ==> |r.value| == n - i
    decreases n - i
  {
    if i == n then Ok([])
    else
      var item :- DecodeBlob(data, 32 * i);
      var rest :- DecodeBlobs(data, n, i + 1);
      Ok([item] + rest)
  }

  function DecodeUintSlice(data: bytes, index: nat): Result<seq<int>>
    requires index + 32 <= |data|
  {
    var place :- LengthPrefix(data, index);
    var elements := data[place.0..];
    if 32 * place.1 > |elements| then Err(BadEncoding) else Ok(ReadWords(elements, place.1))
  }

  function DecodeBytesSlice(data: bytes, index: nat): Result<seq<bytes>>
    requires index + 32 <= |data|
  {
    var place :- LengthPrefix(data, index);
    var elements := data[place.0..];
    if 32 * place.1 > |elements| then Err(BadEncoding) else DecodeBlobs(elements, place.1, 0)
  }

  function DecodeValue(ty: AbiType, data: bytes, index: nat): (r: Result<AbiValue>)
    ensures r.Ok? ==> TypeOf(r.value) == ty
  {
    if index + 32 > |data| then Err(BadEncoding)
    else
      var word := data[index..index + 32];
      match ty
      case UintTy => Ok(Uint(FromBytes(word)))
      case Bytes32Ty => Ok(Bytes32(word))
      case AddressTy => Ok(Address(word[12..]))
      case BytesTy =>
        var blob :- DecodeBlob(data, index);
        Ok(Blob(blob))
      case UintSliceTy =>
        var ns :- DecodeUintSlice(data, index);
        Ok(Uints(ns))
      case BytesSliceTy =>
        var items :- DecodeBytesSlice(data, index);
        Ok(Blobs(items))
  }

  function UnpackFrom(types: seq<AbiType>, data: bytes, i: nat): (r: Result<seq<AbiValue>>)
    requires i <= |types|
    ensures r.Ok? ==> |r.value| == |types| - i
    ensures r.Ok? ==> forall j :: 0 <= j < |types| - i ==> TypeOf(r.value[j]) == types[i + j]
    decreases |types| - i
  {
    if i == |types| then Ok([])
    else
      var v :- DecodeValue(types[i], data, 32 * i);
      var rest :- UnpackFrom(types, data, i + 1);
      Ok([v] + rest)
  }

  function Unpack(types: seq<AbiType>, data: bytes): (r: Result<seq<AbiValue>>)
    ensures r.Ok? ==> |r.value| == |types| && forall j :: 0 <= j < |types| ==> TypeOf(r.value[j]) == types[j]
  {
    UnpackFrom(types, data, 0)
  }

  // ---------------------------------------------------------------- round trip

  /** A part is found at a position of the data. */
  predicate Sits(data: bytes, at: nat, part: bytes) {
    at + |part| <= |data| && data[at..at + |part|] == part
  }

  lemma SitsSplit(data: bytes, at: nat, a: bytes, b: bytes)
    requires Sits(data, at, a + b)
    ensures Sits(data, at, a) && Sits(data, at + |a|, b)
  {
    assert (a + b)[..|a|] == a && (a + b)[|a|..] == b;
  }

  lemma SitsInside(data: bytes, at: nat, part: bytes, k: nat, piece: bytes)
    requires Sits(data, at, part) && Sits(part, k, piece)
    ensures Sits(data, at + k, piece)
  {
    forall j | 0 <= j < |piece|
      ensures data[at + k + j] == piece[j]
    {
      assert data[at..at + |part|][k + j] == part[k + j];
      assert part[k..k + |piece|][j] == piece[j];
    }
  }

  lemma SitsAfter(a: bytes, b: bytes, k: nat, piece: bytes)
    requires Sits(b, k, piece)
    ensures Sits(a + b, |a| + k, piece)
  {
    assert (a + b)[|a|..] == b;
    SitsInside(a + b, |a|, b, k, piece);
  }

  lemma SitsFirst(a: bytes, b: bytes)
    ensures Sits(a + b, 0, a)
  {
  }

  lemma SitsPrefix(data: bytes, at: nat, part: bytes)
    requires Sits(data, at, part)
    ensures part <= data[at..]
  {
    assert data[at..][..|part|] == part;
  }

  predicate SlotsFit(slots: seq<Slot>) {
    forall s :: s in slots && s.Inline? ==> |s.word| == 32
  }

  lemma {:induction false} HeadsLength(slots: seq<Slot>, offset: nat)
    requires SlotsFit(slots)
    ensures |Heads(slots, offset)| == 32 * |slots|
  {
    hide Word;
    if slots != [] {
      assert slots[0] in slots;
      HeadsLength(slots[1..], offset + |TailOf(slots[0])|);
    }
  }

  /** The bytes behind the head before slot i's own. */
  function TailStart(slots: seq<Slot>, i: nat): nat
    requires i <= |slots|
  {
    if i == 0 then 0 else |TailOf(slots[0])| + TailStart(slots[1..], i - 1)
  }

  lemma {:induction false} HeadSits(slots: seq<Slot>, offset: nat, i: nat)
    requires SlotsFit(slots) && i < |slots|
    ensures Sits(Heads(slots, offset), 32 * i, HeadOf(slots[i], offset + TailStart(slots, i)))
  {
    hide Word, Sits, HeadOf, TailOf;
    assert slots[0] in slots;
    HeadLength(slots[0], offset);
    var first, next := HeadOf(slots[0], offset), offset + |TailOf(slots[0])|;
    if i == 0 {
      SitsFirst(first, Heads(slots[1..], next));
    } else {
      HeadSits(slots[1..], next, i - 1);
      SitsAfter(first, Heads(slots[1..], next), 32 * (i - 1), HeadOf(slots[i], offset + TailStart(slots, i)));
    }
  }

  lemma HeadLength(s: Slot, offset: nat)
    requires s.Inline? ==> |s.word| == 32
    ensures |HeadOf(s, offset)| == 32
  {
  }

  lemma {:induction false} TailSits(slots: seq<Slot>, i: nat)
    requires i < |slots|
    ensures Sits(Tails(slots), TailStart(slots, i), TailOf(slots[i]))
  {
    hide Sits;
    if i == 0 {
      SitsFirst(TailOf(slots[0]), Tails(slots[1..]));
    } else {
      TailSits(slots[1..], i - 1);
      SitsAfter(TailOf(slots[0]), Tails(slots[1..]), TailStart(slots[1..], i - 1), TailOf(slots[i]));
    }
  }

  /** In data that starts with a layout, slot i is found through its head word. */
  lemma LayoutAt(slots: seq<Slot>, data: bytes, i: nat) returns (at: nat)
    requires SlotsFit(slots) && i < |slots| && Sits(data, 0, Layout(slots))
    ensures Sits(data, 32 * i, HeadOf(slots[i], at)) && Sits(data, at, TailOf(slots[i]))
    ensures |HeadOf(slots[i], at)| == 32 && at == 32 * |slots| + TailStart(slots, i)
  {
    hide Sits, Heads, Tails, Word;
    var start := 32 * |slots|;
    at := start + TailStart(slots, i);
    HeadsLength(slots, start);
    SitsSplit(data, 0, Heads(slots, start), Tails(slots));
    HeadSits(slots, start, i);
    SitsInside(data, 0, Heads(slots, start), 32 * i, HeadOf(slots[i], at));
    TailSits(slots, i);
    SitsInside(data, start, Tails(slots), TailStart(slots, i), TailOf(slots[i]));
    assert slots[i] in slots;
  }

  /** A length word at the offset a head word names. */
  lemma PrefixAt(data: bytes, index: nat, at: nat, length: nat, rest: bytes)
    requires Sits(data, index, Word(at)) && Sits(data, at, Word(length) + rest)
    requires |data| < UINT_LIMIT && length <= |rest|
    ensures index + 32 <= |data| && LengthPrefix(data, index) == Ok((at + 32, length))
    ensures Sits(data, at + 32, rest) && rest <= data[at + 32..]
  {
    SitsSplit(data, at, Word(length), rest);
    SitsPrefix(data, at + 32, rest);
    WordRead(data, index, at);
    WordRead(data, at, length);
  }

  lemma WordRead(data: bytes, index: nat, n: int)
    requires Sits(data, index, Word(n))
    ensures index + 32 <= |data| && FromBytes(data[index..index + 32]) == Wrap(n)
  {
    hide FromBytes, Wrap, Word;
  }

  lemma BlobAt(data: bytes, index: nat, at: nat, blob: bytes)
    requires Sits(data, index, Word(at)) && Sits(data, at, EncodeBlob(blob)) && |data| < UINT_LIMIT
    ensures DecodeBlob(data, index) == Ok(blob)
  {
    hide Word, LengthPrefix;
    var padding := Zeros((32 - |blob| % 32) % 32);
    assert EncodeBlob(blob) == Word(|blob|) + (blob + padding);
    PrefixAt(data, index, at, |blob|, blob + padding);
    SitsSplit(data, at + 32, blob, padding);
  }

  lemma {:induction false} WordSits(ns: seq<int>, i: nat)
    requires i < |ns|
    ensures Sits(Words(ns), 32 * i, Word(ns[i]))
  {
    hide Word, Sits;
    if i == 0 {
      SitsFirst(Word(ns[0]), Words(ns[1..]));
    } else {
      WordSits(ns[1..], i - 1);
      SitsAfter(Word(ns[0]), Words(ns[1..]), 32 * (i - 1), Word(ns[i]));
    }
  }

  lemma {:induction false} WordsLength(ns: seq<int>)
    ensures |Words(ns)| == 32 * |ns|
  {
    if ns != [] { WordsLength(ns[1..]); }
  }

  lemma ElementRead(ns: seq<int>, elements: bytes, i: nat)
    requires Sits(elements, 0, Words(ns)) && i < |ns|
    ensures 32 * i + 32 <= |elements| && WordAt(elements, i) == Wrap(ns[i])
  {
    hide Words, FromBytes, Wrap, Word, Sits;
    WordSits(ns, i);
    SitsInside(elements, 0, Words(ns), 32 * i, Word(ns[i]));
    WordRead(elements, 32 * i, ns[i]);
  }

  lemma WordsRead(ns: seq<int>, elements: bytes)
    requires Sits(elements, 0, Words(ns)) && |elements| >= 32 * |ns|
    ensures ReadWords(elements, |ns|) == WrapAll(ns)
  {
    hide Words, Wrap, Sits, WordAt, ReadWords, WrapAll;
    forall i | 0 <= i < |ns|
      ensures ReadWords(elements, |ns|)[i] == WrapAll(ns)[i]
    {
      ElementRead(ns, elements, i);
    }
  }

  lemma UintsAt(data: bytes, index: nat, at: nat, ns: seq<int>)
    requires Sits(data, index, Word(at)) && Sits(data, at, Word(|ns|) + Words(ns)) && |data| < UINT_LIMIT
    ensures index + 32 <= |data| && DecodeUintSlice(data, index) == Ok(WrapAll(ns))
  {
    hide Word, LengthPrefix, Words, FromBytes, ReadWords, WrapAll, Sits;
    WordsLength(ns);
    PrefixAt(data, index, at, |ns|, Words(ns));
    PrefixSits(Words(ns), data[at + 32..]);
    WordsRead(ns, data[at + 32..]);
  }

  lemma PrefixSits(part: bytes, data: bytes)
    requires part <= data
    ensures Sits(data, 0, part)
  {
  }

  lemma {:induction false} BlobsFrom(items: seq<bytes>, data: bytes, i: nat)
    requires i <= |items| && Sits(data, 0, Layout(BlobSlots(items))) && |data| < UINT_LIMIT
    ensures DecodeBlobs(data, |items|, i) == Ok(items[i..])
    decreases |items| - i
  {
    hide Word, Layout, DecodeBlob, Sits, EncodeBlob;
    if i < |items| {
      var at := LayoutAt(BlobSlots(items), data, i);
      BlobAt(data, 32 * i, at, items[i]);
      BlobsFrom(items, data, i + 1);
      assert items[i..] == [items[i]] + items[i + 1..];
    } else {
      assert items[i..] == [];
    }
  }

  lemma LayoutLength(slots: seq<Slot>)
    requires SlotsFit(slots)
    ensures 32 * |slots| <= |Layout(slots)|
  {
    HeadsLength(slots, 32 * |slots|);
  }

  lemma BlobsAt(data: bytes, index: nat, at: nat, items: seq<bytes>)
    requires Sits(data, index, Word(at)) && Sits(data, at, Word(|items|) + Layout(BlobSlots(items)))
    requires |data| < UINT_LIMIT
    ensures index + 32 <= |data| && DecodeBytesSlice(data, index) == Ok(items)
  {
    hide Word, LengthPrefix, Layout, DecodeBlobs;
    LayoutLength(BlobSlots(items));
    PrefixAt(data, index, at, |items|, Layout(BlobSlots(items)));
    assert Sits(data[at + 32..], 0, Layout(BlobSlots(items)));
    BlobsFrom(items, data[at + 32..], 0);
    assert items[0..] == items;
  }

  lemma StaticAt(v: AbiValue, data: bytes, index: nat)
    requires WellFormed(v) && (v.Uint? || v.Bytes32? || v.Address?)
    requires Sits(data, index, SlotOf(v).word)
    ensures DecodeValue(TypeOf(v), data, index) == Ok(Normalized(v))
  {
    hide FromBytes, Wrap, Word;
    if v.Address? {
      assert (Zeros(12) + v.address)[12..] == v.address;
    }
  }

  lemma BlobValueAt(data: bytes, index: nat, at: nat, blob: bytes)
    requires Sits(data, index, Word(at)) && Sits(data, at, EncodeBlob(blob)) && |data| < UINT_LIMIT
    ensures DecodeValue(BytesTy, data, index) == Ok(Blob(blob))
  {
    hide DecodeBlob;
    BlobAt(data, index, at, blob);
  }

  lemma ValueAt(vs: seq<AbiValue>, data: bytes, i: nat)
    requires i < |vs| && (forall v :: v in vs ==> WellFormed(v))
    requires Sits(data, 0, Pack(vs)) && |data| < UINT_LIMIT
    ensures DecodeValue(TypeOf(vs[i]), data, 32 * i) == Ok(Normalized(vs[i]))
  {
    hide Word, Layout, DecodeUintSlice, DecodeBytesSlice, DecodeBlob, Sits, EncodeBlob, Words, WrapAll;
    var slots := Slots(vs);
    forall s | s in slots && s.Inline? ensures |s.word| == 32 {
      var j :| 0 <= j < |vs| && s == SlotOf(vs[j]);
      assert WellFormed(vs[j]);
    }
    var at := LayoutAt(slots, data, i);
    assert slots[i] == SlotOf(vs[i]);
    assert WellFormed(vs[i]);
    match vs[i]
    case Uint(_) => StaticAt(vs[i], data, 32 * i);
    case Bytes32(_) => StaticAt(vs[i], data, 32 * i);
    case Address(_) => StaticAt(vs[i], data, 32 * i);
    case Blob(b) => BlobValueAt(data, 32 * i, at, b);
    case Uints(ns) => UintsAt(data, 32 * i, at, ns);
    case Blobs(items) => BlobsAt(data, 32 * i, at, items);
  }

  function Types(vs: seq<AbiValue>): (types: seq<AbiType>)
    ensures |types| == |vs|
  {
    seq(|vs|, i requires 0 <= i < |vs| => TypeOf(vs[i]))
  }

  function NormalizedAll(vs: seq<AbiValue>): (r: seq<AbiValue>)
    ensures |r| == |vs|
  {
    seq(|vs|, i requires 0 <= i < |vs| => Normalized(vs[i]))
  }

  lemma {:induction false} UnpackPackFrom(vs: seq<AbiValue>, i: nat)
    requires i <= |vs| && (forall v :: v in vs ==> WellFormed(v)) && |Pack(vs)| < UINT_LIMIT
    ensures UnpackFrom(Types(vs), Pack(vs), i) == Ok(NormalizedAll(vs)[i..])
    decreases |vs| - i
  {
    hide Pack, DecodeValue, Normalized;
    if i < |vs| {
      assert Pack(vs)[0..|Pack(vs)|] == Pack(vs);
      ValueAt(vs, Pack(vs), i);
      UnpackPackFrom(vs, i + 1);
      assert NormalizedAll(vs)[i..] == [Normalized(vs[i])] + NormalizedAll(vs)[i + 1..];
    }
  }

  /** Unpacking what was packed returns every argument, integers modulo 2^256. */
  lemma UnpackPack(vs: seq<AbiValue>)
    requires (forall v :: v in vs ==> WellFormed(v)) && |Pack(vs)| < UINT_LIMIT
    ensures Unpack(Types(vs), Pack(vs)) == Ok(NormalizedAll(vs))
  {
    UnpackPackFrom(vs, 0);
    assert NormalizedAll(vs)[0..] == NormalizedAll(vs);
  }

  // ---------------------------------------------------------------- failures

  lemma {:induction false} BlobsFail(data: bytes, n: nat, i: nat)
    requires i <= n
    ensures DecodeBlobs(data, n, i).Err? ==> DecodeBlobs(data, n, i).error == BadEncoding
    decreases n - i
  {
    if i < n { BlobsFail(data, n, i + 1); }
  }

  lemma ValueFails(ty: AbiType, data: bytes, index: nat)
    ensures DecodeValue(ty, data, index).Err? ==> DecodeValue(ty, data, index).error == BadEncoding
  {
    hide FromBytes, DecodeBlobs;
    if index + 32 <= |data| && LengthPrefix(data, index).Ok? {
      var place := LengthPrefix(data, index).value;
      BlobsFail(data[place.0..], place.1, 0);
    }
  }

  /** Unpacking checks every bound: it fails with an error and never panics. */
  lemma {:induction false} UnpackFails(types: seq<AbiType>, data: bytes, i: nat)
    requires i <= |types|
    ensures UnpackFrom(types, data, i).Err? ==> UnpackFrom(types, data, i).error == BadEncoding
    decreases |types| - i
  {
    hide DecodeValue;
    if i < |types| {
      ValueFails(types[i], data, 32 * i);
      UnpackFails(types, data, i + 1);
    }
  }
}
