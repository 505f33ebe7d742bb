/** The bytes on the wire, position by position, as the Solidity Contract ABI Specification lays them out. */
module Wire {
  import opened ByteStrings
  import opened Errors
  import opened Abi
  import opened Accounts
  import opened Transitions
  import opened Blocks

  // ---------------------------------------------------------------- words and padded strings

  /** The number in the 32 bytes from a position. */
  function NumberAt(d: bytes, at: nat): nat
    requires at + 32 <= |d|
  {
    FromBytes(d[at..at + 32])
  }

  predicate WordIs(d: bytes, i: nat, n: int) {
    32 * i + 32 <= |d| && NumberAt(d, 32 * i) == n % UINT_LIMIT
  }

  predicate AddressEnds(d: bytes, i: nat, address: bytes) {
    32 * i + 32 <= |d| && d[32 * i + 12..32 * i + 32] == address
  }

  /** An address fills the last 20 bytes of a word, after twelve zeros. */
  predicate AddressIs(d: bytes, i: nat, address: bytes) {
    AddressEnds(d, i, address) && d[32 * i..32 * i + 12] == Zeros(12)
  }

  function RoundUp(n: nat): nat {
    (n + 31) / 32 * 32
  }

  /** A length word, the bytes themselves, and zeros up to a whole number of words. */
  predicate StringAt(d: bytes, at: nat, data: bytes) {
    var end := at + 32 + RoundUp(|data|);
    && end <= |d| && NumberAt(d, at) == |data| % UINT_LIMIT
    && d[at + 32..at + 32 + |data|] == data
    && forall j :: at + 32 + |data| <= j < end ==> d[j] == 0
  }

  lemma RoundUpBounds(n: nat)
    ensures n <= RoundUp(n) < n + 32 && RoundUp(n) % 32 == 0
    ensures n + (32 - n % 32) % 32 == RoundUp(n)
  {
  }

  lemma {:induction false} NumbersInjective(a: bytes, b: bytes)
    requires |a| == |b| && FromBytes(a) == FromBytes(b)
    ensures a == b
  {
    if a != [] {
      NumbersInjective(a[..|a| - 1], b[..|b| - 1]);
      assert a == a[..|a| - 1] + [a[|a| - 1]] && b == b[..|b| - 1] + [b[|b| - 1]];
    }
  }

  lemma NumberOfWord(d: bytes, at: nat, n: int)
    requires Sits(d, at, Word(n))
    ensures at + 32 <= |d| && NumberAt(d, at) == n % UINT_LIMIT
  {
    hide FromBytes, Word;
  }

  lemma StringOfBlob(d: bytes, at: nat, data: bytes)
    requires Sits(d, at, EncodeBlob(data))
    ensures StringAt(d, at, data) && |EncodeBlob(data)| == 32 + RoundUp(|data|)
  {
    hide FromBytes, Word;
    RoundUpBounds(|data|);
    var padding := Zeros((32 - |data| % 32) % 32);
    assert EncodeBlob(data) == Word(|data|) + (data + padding);
    SitsSplit(d, at, Word(|data|), data + padding);
    NumberOfWord(d, at, |data|);
    SitsSplit(d, at + 32, data, padding);
    forall j | at + 32 + |data| <= j < at + 32 + RoundUp(|data|) ensures d[j] == 0 {
      assert d[at + 32 + |data|..at + 32 + |data| + |padding|][j - (at + 32 + |data|)] == 0;
    }
  }

  // ---------------------------------------------------------------- transitions

  /** The words of a transition's head, the offset of its signature included. */
  function HeadWords(t: Transition): nat {
    match t
    case CreateAndDepositTransition(_, _, _, _, _, _, _) => 7
    case DepositTransition(_, _, _, _, _, _) => 6
    case WithdrawTransition(_, _, _, _, _, _, _) => 7
    case CreateAndTransferTransition(_, _, _, _, _, _, _, _, _) => 9
    case TransferTransition(_, _, _, _, _, _, _, _) => 8
  }

  /** Every field but the signature stands in its own word, an address in the last 20 bytes of it. */
  predicate HeadReads(t: Transition, d: bytes) {
    && WordIs(d, 0, t.transitionType) && |d| >= 64 && d[32..64] == t.stateRoot
    && match t
       case CreateAndDepositTransition(_, _, slot, account, token, amount, _) =>
         WordIs(d, 2, slot) && AddressEnds(d, 3, account) && WordIs(d, 4, token) && WordIs(d, 5, amount)
       case DepositTransition(_, _, slot, token, amount, _) =>
         WordIs(d, 2, slot) && WordIs(d, 3, token) && WordIs(d, 4, amount)
       case WithdrawTransition(_, _, slot, token, amount, nonce, _) =>
         WordIs(d, 2, slot) && WordIs(d, 3, token) && WordIs(d, 4, amount) && WordIs(d, 5, nonce)
       case CreateAndTransferTransition(_, _, from, to, recipient, token, amount, nonce, _) =>
         && WordIs(d, 2, from) && WordIs(d, 3, to) && AddressEnds(d, 4, recipient)
         && WordIs(d, 5, token) && WordIs(d, 6, amount) && WordIs(d, 7, nonce)
       case TransferTransition(_, _, from, to, token, amount, nonce, _) =>
         && WordIs(d, 2, from) && WordIs(d, 3, to)
         && WordIs(d, 4, token) && WordIs(d, 5, amount) && WordIs(d, 6, nonce)
  }

  /** The word an address stands in starts with zeros. */
  predicate AddressesPadded(t: Transition, d: bytes) {
    && (t.CreateAndDepositTransition? ==> |d| >= 128 && d[96..108] == Zeros(12))
    && (t.CreateAndTransferTransition? ==> |d| >= 160 && d[128..140] == Zeros(12))
  }

  /** The head, then the signature right behind it, padded to the end of the data. */
  predicate LaidOut(t: Transition, d: bytes) {
    var n := HeadWords(t);
    && HeadReads(t, d) && AddressesPadded(t, d) && WordIs(d, n - 1, 32 * n)
    && StringAt(d, 32 * n, t.signature) && |d| == 32 * n + 32 + RoundUp(|t.signature|)
  }

  /** Roots of 32 bytes and addresses of 20, as their Go types have them. */
  predicate Sized(t: Transition) {
    && |t.stateRoot| == 32
    && (t.CreateAndDepositTransition? ==> |t.account| == 20)
    && (t.CreateAndTransferTransition? ==> |t.recipient| == 20)
  }

  lemma SizedArguments(t: Transition)
    requires Sized(t)
    ensures forall v :: v in Arguments(t) ==> WellFormed(v)
    ensures |Arguments(t)| == HeadWords(t)
  {
  }

  lemma ArgumentPlaced(vs: seq<AbiValue>, i: nat)
    requires i < |vs| && forall v :: v in vs ==> WellFormed(v)
    ensures var d, slot := Pack(vs), SlotOf(vs[i]);
            var at := 32 * |vs| + TailStart(Slots(vs), i);
            && (slot.Inline? ==> Sits(d, 32 * i, slot.word))
            && (slot.Behind? ==> Sits(d, 32 * i, Word(at)) && Sits(d, at, slot.tail))
  {
    hide Word, Layout, Sits, SlotOf, SlotsFit, TailStart;
    var slots := Slots(vs);
    InlineWords(vs);
    PackedWhole(vs);
    var at := LayoutAt(slots, Pack(vs), i);
    assert slots[i] == SlotOf(vs[i]);
  }

  lemma PackedWhole(vs: seq<AbiValue>)
    ensures Sits(Pack(vs), 0, Layout(Slots(vs)))
  {
    hide Layout;
  }

  /** A number, a root or an address stands in the word of its own index. */
  lemma StaticPlaced(vs: seq<AbiValue>, i: nat)
    requires i < |vs| && forall v :: v in vs ==> WellFormed(v)
    ensures vs[i].Uint? ==> WordIs(Pack(vs), i, vs[i].n)
    ensures vs[i].Bytes32? ==> 32 * i + 32 <= |Pack(vs)| && Pack(vs)[32 * i..32 * i + 32] == vs[i].word
    ensures vs[i].Address? ==> AddressIs(Pack(vs), i, vs[i].address)
  {
    hide Word, Layout, Pack, FromBytes, Sits, TailStart, EncodeBlob, Words, AddressIs;
    ArgumentPlaced(vs, i);
    assert WellFormed(vs[i]) by { assert vs[i] in vs; }
    match vs[i]
    case Uint(n) => NumberOfWord(Pack(vs), 32 * i, n);
    case Bytes32(word) => RootPlaced(Pack(vs), 32 * i, word);
    case Address(address) => AddressPlaced(Pack(vs), i, address);
    case _ =>
  }

  lemma RootPlaced(d: bytes, at: nat, word: bytes)
    requires Sits(d, at, word) && |word| == 32
    ensures at + 32 <= |d| && d[at..at + 32] == word
  {
  }

  lemma AddressPlaced(d: bytes, i: nat, address: bytes)
    requires Sits(d, 32 * i, Zeros(12) + address) && |address| == 20
    ensures AddressIs(d, i, address)
  {
    SitsSplit(d, 32 * i, Zeros(12), address);
  }

  lemma {:induction false} NoTailsBefore(slots: seq<Slot>, i: nat)
    requires i <= |slots| && forall j :: 0 <= j < i ==> slots[j].Inline?
    ensures TailStart(slots, i) == 0
  {
    if i > 0 { NoTailsBefore(slots[1..], i - 1); }
  }

  lemma SignaturePlaced(t: Transition)
    requires Sized(t)
    ensures var d, n := Transitions.Serialize(t), HeadWords(t);
            && WordIs(d, n - 1, 32 * n) && StringAt(d, 32 * n, t.signature)
            && |d| == 32 * n + 32 + RoundUp(|t.signature|)
  {
    hide Word, Layout, FromBytes, EncodeBlob, Arguments, Pack, StringAt;
    var vs, n := Arguments(t), HeadWords(t);
    SizedArguments(t);
    SignatureLast(t);
    NoTailsBefore(Slots(vs), n - 1);
    ArgumentPlaced(vs, n - 1);
    NumberOfWord(Pack(vs), 32 * (n - 1), 32 * n);
    StringOfBlob(Pack(vs), 32 * n, t.signature);
    TransitionSize(t);
  }

  lemma HeadPlaced(t: Transition)
    requires Sized(t)
    ensures HeadReads(t, Transitions.Serialize(t)) && AddressesPadded(t, Transitions.Serialize(t))
  {
    hide Pack, WordIs, WellFormed;
    SizedArguments(t);
    var vs := Arguments(t);
    forall i | 0 <= i < |vs|
      ensures vs[i].Uint? ==> WordIs(Pack(vs), i, vs[i].n)
      ensures vs[i].Bytes32? ==> 32 * i + 32 <= |Pack(vs)| && Pack(vs)[32 * i..32 * i + 32] == vs[i].word
      ensures vs[i].Address? ==> AddressIs(Pack(vs), i, vs[i].address)
    {
      StaticPlaced(vs, i);
    }
    assert vs[0] == Uint(t.transitionType) && vs[1] == Bytes32(t.stateRoot);
    match t
    case CreateAndDepositTransition(_, _, slot, account, token, amount, _) =>
      assert vs[2] == Uint(slot) && vs[3] == AbiValue.Address(account) && vs[4] == Uint(token) && vs[5] == Uint(amount);
    case DepositTransition(_, _, slot, token, amount, _) =>
      assert vs[2] == Uint(slot) && vs[3] == Uint(token) && vs[4] == Uint(amount);
    case WithdrawTransition(_, _, slot, token, amount, nonce, _) =>
      assert vs[2] == Uint(slot) && vs[3] == Uint(token) && vs[4] == Uint(amount) && vs[5] == Uint(nonce);
    case CreateAndTransferTransition(_, _, from, to, recipient, token, amount, nonce, _) =>
      assert vs[2] == Uint(from) && vs[3] == Uint(to) && vs[4] == AbiValue.Address(recipient);
      assert vs[5] == Uint(token) && vs[6] == Uint(amount) && vs[7] == Uint(nonce);
    case TransferTransition(_, _, from, to, token, amount, nonce, _) =>
      assert vs[2] == Uint(from) && vs[3] == Uint(to);
      assert vs[4] == Uint(token) && vs[5] == Uint(amount) && vs[6] == Uint(nonce);
  }

  // ---------------------------------------------------------------- the layout decides the bytes

  lemma SameWord(a: bytes, b: bytes, i: nat, n: int)
    requires WordIs(a, i, n) && WordIs(b, i, n)
    ensures a[32 * i..32 * i + 32] == b[32 * i..32 * i + 32]
  {
    hide FromBytes;
    NumbersInjective(a[32 * i..32 * i + 32], b[32 * i..32 * i + 32]);
  }

  lemma SameAddress(a: bytes, b: bytes, i: nat, address: bytes)
    requires AddressIs(a, i, address) && AddressIs(b, i, address)
    ensures a[32 * i..32 * i + 32] == b[32 * i..32 * i + 32]
  {
    assert a[32 * i..32 * i + 32] == a[32 * i..32 * i + 12] + a[32 * i + 12..32 * i + 32];
    assert b[32 * i..32 * i + 32] == b[32 * i..32 * i + 12] + b[32 * i + 12..32 * i + 32];
  }

  lemma SameString(a: bytes, b: bytes, at: nat, data: bytes)
    requires StringAt(a, at, data) && StringAt(b, at, data)
    ensures var end := at + 32 + RoundUp(|data|); a[at..end] == b[at..end]
  {
    hide FromBytes;
    RoundUpBounds(|data|);
    NumbersInjective(a[at..at + 32], b[at..at + 32]);
    var end := at + 32 + RoundUp(|data|);
    forall j | at <= j < end ensures a[j] == b[j] {
      if j < at + 32 {
        assert a[at..at + 32][j - at] == b[at..at + 32][j - at];
      } else if j < at + 32 + |data| {
        assert a[at + 32..at + 32 + |data|][j - at - 32] == b[at + 32..at + 32 + |data|][j - at - 32];
      }
    }
  }

  /** Bytes that agree up to a point, and from there on up to the end of both, are the same. */
  lemma SameJoined(a: bytes, b: bytes, at: nat, end: nat)
    requires at <= end <= |a| && end <= |b|
    requires a[..at] == b[..at] && a[at..end] == b[at..end]
    ensures a[..end] == b[..end]
  {
    assert a[..end] == a[..at] + a[at..end];
    assert b[..end] == b[..at] + b[at..end];
  }

  lemma SameWhole(a: bytes, b: bytes)
    requires |a| == |b| && a[..|a|] == b[..|b|]
    ensures a == b
  {
    assert a == a[..|a|] && b == b[..|b|];
  }

  /** The words before n are the same. */
  ghost predicate SameWords(a: bytes, b: bytes, n: nat) {
    && 32 * n <= |a| && 32 * n <= |b|
    && forall i: nat :: i < n ==> a[32 * i..32 * i + 32] == b[32 * i..32 * i + 32]
  }

  lemma {:induction false} WordsDecide(a: bytes, b: bytes, n: nat)
    requires SameWords(a, b, n)
    ensures a[..32 * n] == b[..32 * n]
  {
    if n > 0 {
      WordsDecide(a, b, n - 1);
      var at := 32 * (n - 1);
      assert a[..32 * n] == a[..at] + a[at..at + 32] && b[..32 * n] == b[..at] + b[at..at + 32];
    }
  }

  lemma HeadDecides(t: Transition, a: bytes, b: bytes)
    requires LaidOut(t, a) && LaidOut(t, b)
    ensures SameWords(a, b, HeadWords(t))
  {
    hide WordIs, StringAt, RoundUp;
    SameWord(a, b, 0, t.transitionType);
    SameWord(a, b, HeadWords(t) - 1, 32 * HeadWords(t));
    match t
    case CreateAndDepositTransition(_, _, slot, account, token, amount, _) =>
      SameWord(a, b, 2, slot);
      SameAddress(a, b, 3, account);
      SameWord(a, b, 4, token);
      SameWord(a, b, 5, amount);
    case DepositTransition(_, _, slot, token, amount, _) =>
      SameWord(a, b, 2, slot);
      SameWord(a, b, 3, token);
      SameWord(a, b, 4, amount);
    case WithdrawTransition(_, _, slot, token, amount, nonce, _) =>
      SameWord(a, b, 2, slot);
      SameWord(a, b, 3, token);
      SameWord(a, b, 4, amount);
      SameWord(a, b, 5, nonce);
    case CreateAndTransferTransition(_, _, from, to, recipient, token, amount, nonce, _) =>
      SameWord(a, b, 2, from);
      SameWord(a, b, 3, to);
      SameAddress(a, b, 4, recipient);
      SameWord(a, b, 5, token);
      SameWord(a, b, 6, amount);
      SameWord(a, b, 7, nonce);
    case TransferTransition(_, _, from, to, token, amount, nonce, _) =>
      SameWord(a, b, 2, from);
      SameWord(a, b, 3, to);
      SameWord(a, b, 4, token);
      SameWord(a, b, 5, amount);
      SameWord(a, b, 6, nonce);
  }

  /**
   A transition's encoding, byte for byte: its fields in their own words, addresses after twelve zeros, the signature
   behind its length and filled up with zeros. No other bytes are laid out like this.
   */
  lemma TransitionBytes(t: Transition, d: bytes)
    requires Sized(t)
    ensures d == Transitions.Serialize(t) <==> LaidOut(t, d)
  {
    hide HeadReads, AddressesPadded, StringAt, Transitions.Serialize, Sized, WordIs;
    HeadPlaced(t);
    SignaturePlaced(t);
    if LaidOut(t, d) {
      var e, n := Transitions.Serialize(t), HeadWords(t);
      HeadDecides(t, d, e);
      WordsDecide(d, e, n);
      SameString(d, e, 32 * n, t.signature);
      SameJoined(d, e, 32 * n, |d|);
      SameWhole(d, e);
    }
  }

  // ---------------------------------------------------------------- reading transitions

  /** The signature is read where the last word of the head says, behind its length. */
  predicate SignatureRead(t: Transition, d: bytes) {
    var n := HeadWords(t);
    && 32 * n <= |d|
    && var at := NumberAt(d, 32 * n - 32);
       && at + 32 + |t.signature| <= |d| && NumberAt(d, at) == |t.signature|
       && d[at + 32..at + 32 + |t.signature|] == t.signature
  }

  /** What one argument says of the bytes it was read from. */
  predicate ReadsAs(v: AbiValue, d: bytes, i: nat) {
    && 32 * i + 32 <= |d|
    && match v
       case Uint(n) => WordIs(d, i, n)
       case Bytes32(w) => d[32 * i..32 * i + 32] == w
       case Address(a) => AddressEnds(d, i, a)
       case Blob(data) =>
         var at := NumberAt(d, 32 * i);
         at + 32 + |data| <= |d| && NumberAt(d, at) == |data| && d[at + 32..at + 32 + |data|] == data
       case _ => false
  }

  predicate FitsType(v: AbiValue) {
    WellFormed(v) && (v.Uint? ==> 0 <= v.n < UINT_LIMIT)
  }

  lemma ValueReads(v: AbiValue, d: bytes, i: nat)
    requires FitsType(v) && !v.Uints? && !v.Blobs?
    ensures DecodeValue(TypeOf(v), d, 32 * i) == Ok(v) <==> ReadsAs(v, d, i)
  {
    hide FromBytes, DecodeUintSlice, DecodeBytesSlice, Pow2;
    if 32 * i + 32 <= |d| {
      FromBytesBound(d[32 * i..32 * i + 32]);
      UintLimitIsPow2();
    }
  }

  /** Arguments unpack exactly when each decodes in its own place. */
  lemma {:induction false} UnpacksIff(types: seq<AbiType>, vs: seq<AbiValue>, d: bytes, i: nat)
    requires i <= |types| == |vs|
    ensures UnpackFrom(types, d, i) == Ok(vs[i..]) <==>
            forall j :: i <= j < |vs| ==> DecodeValue(types[j], d, 32 * j) == Ok(vs[j])
    decreases |types| - i
  {
    hide DecodeValue;
    if i < |types| {
      UnpacksIff(types, vs, d, i + 1);
      assert vs[i..] == [vs[i]] + vs[i + 1..];
      if UnpackFrom(types, d, i) == Ok(vs[i..]) {
        var rest := UnpackFrom(types, d, i + 1);
        assert UnpackFrom(types, d, i).value[0] == vs[i] && UnpackFrom(types, d, i).value[1..] == rest.value;
      }
    } else {
      assert vs[i..] == [];
    }
  }

  lemma ReadsAll(t: Transition, d: bytes)
    ensures (forall i :: 0 <= i < |Arguments(t)| ==> ReadsAs(Arguments(t)[i], d, i)) <==>
            HeadReads(t, d) && SignatureRead(t, d)
  {
    hide WordIs, AddressEnds;
    var vs := Arguments(t);
    if HeadReads(t, d) && SignatureRead(t, d) {
      forall i | 0 <= i < |vs| ensures ReadsAs(vs[i], d, i) {
      }
    }
    if forall i :: 0 <= i < |vs| ==> ReadsAs(vs[i], d, i) {
      assert ReadsAs(vs[0], d, 0) && ReadsAs(vs[1], d, 1) && ReadsAs(vs[2], d, 2) && ReadsAs(vs[3], d, 3);
      assert ReadsAs(vs[4], d, 4) && ReadsAs(vs[5], d, 5);
      assert |vs| > 6 ==> ReadsAs(vs[6], d, 6);
      assert |vs| > 7 ==> ReadsAs(vs[7], d, 7);
      assert |vs| > 8 ==> ReadsAs(vs[8], d, 8);
    }
  }

  /**
   What decoding makes of any bytes, however they came about: a transition is read exactly when the low 64 bits of
   the first word name its kind, every field stands in its own word, and the signature lies where the last word of the
   head says. Padding is not looked at.
   */
  lemma DecodesIff(t: Transition, d: bytes)
    requires Transitions.InRange(t)
    ensures DeserializeTransition(d) == Ok(t) <==>
            t.transitionType % UINT64_LIMIT == KindOf(t) && HeadReads(t, d) && SignatureRead(t, d)
  {
    hide UnpackFrom, FromBytes, WellFormed, Arguments, HeadReads, SignatureRead, ReadsAs, FromArguments, DecodeValue;
    var vs, types := Arguments(t), ArgumentTypes(KindOf(t));
    ArgumentsShaped(t);
    NoSlices(t);
    NoBlobs(t);
    forall i | 0 <= i < |vs|
      ensures DecodeValue(types[i], d, 32 * i) == Ok(vs[i]) <==> ReadsAs(vs[i], d, i)
    {
      assert vs[i] in vs;
      ValueReads(vs[i], d, i);
    }
    UnpacksIff(types, vs, d, 0);
    assert vs[0..] == vs;
    ReadsAll(t, d);
    if DeserializeTransition(d) == Ok(t) {
      DecodedArguments(t, d);
    }
    if HeadReads(t, d) {
      TypeWord(t, d);
    }
  }

  lemma NoBlobs(t: Transition)
    ensures forall v :: v in Arguments(t) ==> !v.Blobs?
  {
  }

  lemma TypeWord(t: Transition, d: bytes)
    requires HeadReads(t, d) && Transitions.InRange(t)
    ensures |d| >= 32 && FromBytes(d[0..32]) == t.transitionType
  {
    hide FromBytes;
    assert Arguments(t)[0] == Uint(t.transitionType) && Arguments(t)[0] in Arguments(t);
  }

  lemma DecodedArguments(t: Transition, d: bytes)
    requires DeserializeTransition(d) == Ok(t)
    ensures t.transitionType % UINT64_LIMIT == KindOf(t)
    ensures UnpackFrom(ArgumentTypes(KindOf(t)), d, 0) == Ok(Arguments(t))
  {
    hide UnpackFrom, FromBytes, FromArguments, Arguments, Transitions.InRange;
    DecodedInRange(d);
    var kind := FromBytes(d[0..32]) % UINT64_LIMIT;
    var vs := Unpack(ArgumentTypes(kind), d).value;
    ArgumentsOfDecoded(kind, vs);
    KindOfDecoded(kind, vs);
  }

  // ---------------------------------------------------------------- account records

  /** A length word and one word for each number. */
  predicate NumbersAt(d: bytes, at: nat, ns: seq<int>) {
    && at + 32 + 32 * |ns| <= |d| && NumberAt(d, at) == |ns| % UINT_LIMIT
    && forall i :: 0 <= i < |ns| ==> ElementIs(d, at, i, ns[i])
  }

  predicate ElementIs(d: bytes, at: nat, i: nat, n: int) {
    at + 64 + 32 * i <= |d| && NumberAt(d, at + 32 + 32 * i) == n % UINT_LIMIT
  }

  /** Address, three offsets, and the three arrays one after another. */
  predicate AccountLaidOut(a: AccountInfo, d: bytes) {
    var first, second := 128, 160 + 32 * |a.balances|;
    var third := second + 32 + 32 * |a.transferNonces|;
    && AddressIs(d, 0, a.account) && WordIs(d, 1, first) && WordIs(d, 2, second) && WordIs(d, 3, third)
    && NumbersAt(d, first, a.balances) && NumbersAt(d, second, a.transferNonces)
    && NumbersAt(d, third, a.withdrawNonces) && |d| == third + 32 + 32 * |a.withdrawNonces|
  }

  lemma NumbersPlaced(d: bytes, at: nat, ns: seq<int>)
    requires Sits(d, at, Word(|ns|) + Words(ns))
    ensures NumbersAt(d, at, ns)
  {
    hide FromBytes, Word, Words, Sits, ElementIs;
    WordsLength(ns);
    SitsSplit(d, at, Word(|ns|), Words(ns));
    NumberOfWord(d, at, |ns|);
    SitsFits(d, at + 32, Words(ns));
    forall i | 0 <= i < |ns| ensures ElementIs(d, at, i, ns[i]) {
      ElementPlaced(d, at, ns, i);
    }
  }

  lemma ElementPlaced(d: bytes, at: nat, ns: seq<int>, i: nat)
    requires Sits(d, at + 32, Words(ns)) && i < |ns|
    ensures ElementIs(d, at, i, ns[i])
  {
    hide FromBytes, Word, Words, Sits;
    WordSits(ns, i);
    SitsInside(d, at + 32, Words(ns), 32 * i, Word(ns[i]));
    NumberOfWord(d, at + 32 + 32 * i, ns[i]);
  }

  lemma SitsFits(d: bytes, at: nat, part: bytes)
    requires Sits(d, at, part)
    ensures at + |part| <= |d|
  {
  }

  lemma TailStartNext(slots: seq<Slot>, i: nat)
    requires i < |slots|
    ensures TailStart(slots, i + 1) == TailStart(slots, i) + |TailOf(slots[i])|
  {
    if i > 0 { TailStartNext(slots[1..], i - 1); }
  }

  lemma AccountTails(a: AccountInfo)
    ensures var slots := Slots(AccountArguments(a));
            && TailStart(slots, 1) == 0 && TailStart(slots, 2) == 32 + 32 * |a.balances|
            && TailStart(slots, 3) == 64 + 32 * |a.balances| + 32 * |a.transferNonces|
  {
    hide Word, Words, TailStart;
    var slots := Slots(AccountArguments(a));
    assert TailStart(slots, 0) == 0 by { FirstTail(slots); }
    TailStartNext(slots, 0);
    TailStartNext(slots, 1);
    TailStartNext(slots, 2);
    UintsLength(a.balances);
    UintsLength(a.transferNonces);
  }

  lemma FirstTail(slots: seq<Slot>)
    ensures TailStart(slots, 0) == 0
  {
  }

  lemma ArrayPlaced(a: AccountInfo, i: nat, ns: seq<int>)
    requires |a.account| == 20 && 1 <= i < 4 && AccountArguments(a)[i] == Uints(ns)
    ensures var d, at := SerializeAccount(a), 128 + TailStart(Slots(AccountArguments(a)), i);
            WordIs(d, i, at) && NumbersAt(d, at, ns)
  {
    hide Word, Words, FromBytes, Pack, Sits, TailStart, NumbersAt;
    var vs := AccountArguments(a);
    ArgumentPlaced(vs, i);
    var at := 128 + TailStart(Slots(vs), i);
    NumberOfWord(Pack(vs), 32 * i, at);
    NumbersPlaced(Pack(vs), at, ns);
  }

  lemma SameNumbersAt(a: bytes, b: bytes, at: nat, ns: seq<int>)
    requires NumbersAt(a, at, ns) && NumbersAt(b, at, ns)
    ensures var end := at + 32 + 32 * |ns|; a[at..end] == b[at..end]
  {
    hide FromBytes;
    var end := at + 32 + 32 * |ns|;
    NumbersInjective(a[at..at + 32], b[at..at + 32]);
    forall j | at <= j < end ensures a[j] == b[j] {
      if j < at + 32 {
        assert a[at..at + 32][j - at] == b[at..at + 32][j - at];
      } else {
        var i := (j - at - 32) / 32;
        var start := at + 32 + 32 * i;
        assert ElementIs(a, at, i, ns[i]) && ElementIs(b, at, i, ns[i]);
        NumbersInjective(a[start..start + 32], b[start..start + 32]);
        assert a[start..start + 32][j - start] == b[start..start + 32][j - start];
      }
    }
  }

  /** A record's stored bytes, byte for byte; no other bytes are laid out like this. */
  lemma AccountBytes(a: AccountInfo, d: bytes)
    requires Storable(a)
    ensures d == SerializeAccount(a) <==> AccountLaidOut(a, d)
  {
    hide WordIs, AddressIs, NumbersAt, Pack, TailStart;
    AccountTails(a);
    AccountSize(a);
    StaticPlaced(AccountArguments(a), 0);
    ArrayPlaced(a, 1, a.balances);
    ArrayPlaced(a, 2, a.transferNonces);
    ArrayPlaced(a, 3, a.withdrawNonces);
    if AccountLaidOut(a, d) {
      SameAccountBytes(a, d, SerializeAccount(a));
    }
  }

  lemma SameAccountBytes(a: AccountInfo, d: bytes, e: bytes)
    requires AccountLaidOut(a, d) && AccountLaidOut(a, e)
    ensures d == e
  {
    hide WordIs, AddressIs, NumbersAt;
    var second := 160 + 32 * |a.balances|;
    var third := second + 32 + 32 * |a.transferNonces|;
    SameAddress(d, e, 0, a.account);
    SameWord(d, e, 1, 128);
    SameWord(d, e, 2, second);
    SameWord(d, e, 3, third);
    WordsDecide(d, e, 4);
    SameNumbersAt(d, e, 128, a.balances);
    SameNumbersAt(d, e, second, a.transferNonces);
    SameNumbersAt(d, e, third, a.withdrawNonces);
    SameJoined(d, e, 128, second);
    SameJoined(d, e, second, third);
    SameJoined(d, e, third, |d|);
    SameWhole(d, e);
  }

  // ---------------------------------------------------------------- blocks

  /**
   Where item i of an encoded list begins, counted from the end of its length word: behind the offsets and the items
   before.
   */
  function ItemOffset(items: seq<bytes>, i: nat): nat
    requires i <= |items|
  {
    if i == 0 then 32 * |items| else ItemOffset(items, i - 1) + 32 + RoundUp(|items[i - 1]|)
  }

  /** The offset word of an item and the item itself; the list's offsets start at byte 96. */
  predicate ItemAt(items: seq<bytes>, d: bytes, i: nat)
    requires i < |items|
  {
    WordIs(d, 3 + i, ItemOffset(items, i)) && StringAt(d, 96 + ItemOffset(items, i), items[i])
  }

  /** Number, offset of the list, its length, and then every item. */
  predicate BlockLaidOut(blockNumber: nat, items: seq<bytes>, d: bytes) {
    && WordIs(d, 0, blockNumber) && WordIs(d, 1, 64) && WordIs(d, 2, |items|)
    && (forall i :: 0 <= i < |items| ==> ItemAt(items, d, i))
    && |d| == 96 + ItemOffset(items, |items|)
  }

  lemma {:induction false} ItemOffsetIs(items: seq<bytes>, i: nat)
    requires i <= |items|
    ensures ItemOffset(items, i) == 32 * |items| + TailStart(BlobSlots(items), i)
  {
    hide Word, EncodeBlob, TailStart;
    var slots := BlobSlots(items);
    if i == 0 {
      FirstTail(slots);
    } else {
      ItemOffsetIs(items, i - 1);
      TailStartNext(slots, i - 1);
      BlobSize(items[i - 1]);
    }
  }

  lemma BlobSize(data: bytes)
    ensures |EncodeBlob(data)| == 32 + RoundUp(|data|)
  {
    hide Word;
    RoundUpBounds(|data|);
  }

  lemma {:induction false} TailsLength(slots: seq<Slot>)
    ensures |Tails(slots)| == TailStart(slots, |slots|)
  {
    if slots != [] { TailsLength(slots[1..]); }
  }

  lemma BlockParts(blockNumber: nat, items: seq<bytes>)
    ensures var d := EncodeBlock(blockNumber, items);
            && WordIs(d, 0, blockNumber) && WordIs(d, 1, 64) && WordIs(d, 2, |items|)
            && Sits(d, 96, Layout(BlobSlots(items))) && |d| == 96 + |Layout(BlobSlots(items))|
  {
    hide Word, FromBytes, Layout, Sits, BlobSlots;
    var vs := [Uint(blockNumber), Blobs(items)];
    var d := Pack(vs);
    StaticPlaced(vs, 0);
    ArgumentPlaced(vs, 1);
    OneInline(vs);
    NumberOfWord(d, 32, 64);
    SitsSplit(d, 64, Word(|items|), Layout(BlobSlots(items)));
    NumberOfWord(d, 64, |items|);
    BlockPackedSize(blockNumber, items);
  }

  lemma OneInline(vs: seq<AbiValue>)
    requires |vs| == 2 && vs[0].Uint?
    ensures TailStart(Slots(vs), 1) == 0
  {
    hide Word;
    FirstTail(Slots(vs));
    TailStartNext(Slots(vs), 0);
  }

  lemma BlockPackedSize(blockNumber: nat, items: seq<bytes>)
    ensures |Pack([Uint(blockNumber), Blobs(items)])| == 96 + |Layout(BlobSlots(items))|
  {
    hide Word, BlobSlots, Heads;
    var vs := [Uint(blockNumber), Blobs(items)];
    var slots := Slots(vs);
    InlineWords(vs);
    HeadsLength(slots, 64);
    OneTail(slots);
  }

  lemma ItemPlaced(items: seq<bytes>, d: bytes, i: nat)
    requires i < |items| && Sits(d, 96, Layout(BlobSlots(items)))
    ensures ItemAt(items, d, i)
  {
    hide Word, FromBytes, Layout, Sits, EncodeBlob, StringAt, TailStart;
    var slots := BlobSlots(items);
    var inner := Layout(slots);
    ItemOffsetIs(items, i);
    WholeSits(inner);
    var at := LayoutAt(slots, inner, i);
    SitsInside(d, 96, inner, 32 * i, Word(at));
    SitsInside(d, 96, inner, at, EncodeBlob(items[i]));
    NumberOfWord(d, 32 * (3 + i), at);
    StringOfBlob(d, 96 + at, items[i]);
  }

  lemma WholeSits(d: bytes)
    ensures Sits(d, 0, d)
  {
  }

  /** An encoded block, byte for byte; no other bytes are laid out like this. */
  lemma BlockBytes(blockNumber: nat, items: seq<bytes>, d: bytes)
    ensures d == EncodeBlock(blockNumber, items) <==> BlockLaidOut(blockNumber, items, d)
  {
    hide EncodeBlock, Layout, WordIs, Sits, ItemAt;
    var e := EncodeBlock(blockNumber, items);
    BlockParts(blockNumber, items);
    LayoutSize(items);
    forall i | 0 <= i < |items| ensures ItemAt(items, e, i) {
      ItemPlaced(items, e, i);
    }
    if BlockLaidOut(blockNumber, items, d) {
      SameBlockBytes(blockNumber, items, d, e);
    }
  }

  lemma LayoutSize(items: seq<bytes>)
    ensures |Layout(BlobSlots(items))| == ItemOffset(items, |items|)
  {
    hide Word, EncodeBlob, Heads, Tails, TailStart;
    var slots := BlobSlots(items);
    HeadsLength(slots, 32 * |slots|);
    TailsLength(slots);
    ItemOffsetIs(items, |items|);
  }

  lemma SameBlockBytes(blockNumber: nat, items: seq<bytes>, d: bytes, e: bytes)
    requires BlockLaidOut(blockNumber, items, d) && BlockLaidOut(blockNumber, items, e)
    ensures d == e
  {
    hide WordIs, StringAt;
    var n := 3 + |items|;
    OffsetsGrow(items, |items|);
    forall i: nat | i < n ensures d[32 * i..32 * i + 32] == e[32 * i..32 * i + 32] {
      if i == 0 {
        SameWord(d, e, 0, blockNumber);
      } else if i == 1 {
        SameWord(d, e, 1, 64);
      } else if i == 2 {
        SameWord(d, e, 2, |items|);
      } else {
        assert ItemAt(items, d, i - 3) && ItemAt(items, e, i - 3);
        SameWord(d, e, i, ItemOffset(items, i - 3));
      }
    }
    WordsDecide(d, e, n);
    ItemsDecide(blockNumber, items, d, e, |items|);
    SameWhole(d, e);
  }

  lemma {:induction false} OffsetsGrow(items: seq<bytes>, i: nat)
    requires i <= |items|
    ensures 32 * |items| <= ItemOffset(items, i) <= ItemOffset(items, |items|)
    decreases |items| - i
  {
    if i < |items| {
      OffsetsGrow(items, i + 1);
    }
    OffsetsFrom(items, i);
  }

  lemma {:induction false} OffsetsFrom(items: seq<bytes>, i: nat)
    requires i <= |items|
    ensures 32 * |items| <= ItemOffset(items, i)
  {
    if i > 0 { OffsetsFrom(items, i - 1); }
  }

  lemma {:induction false} ItemsDecide(blockNumber: nat, items: seq<bytes>, d: bytes, e: bytes, i: nat)
    requires BlockLaidOut(blockNumber, items, d) && BlockLaidOut(blockNumber, items, e) && i <= |items|
    requires 32 * (3 + |items|) <= |d| && d[..32 * (3 + |items|)] == e[..32 * (3 + |items|)]
    ensures 96 + ItemOffset(items, i) <= |d| && d[..96 + ItemOffset(items, i)] == e[..96 + ItemOffset(items, i)]
  {
    hide WordIs, StringAt;
    OffsetsGrow(items, i);
    if i > 0 {
      ItemsDecide(blockNumber, items, d, e, i - 1);
      assert ItemAt(items, d, i - 1) && ItemAt(items, e, i - 1);
      var from, to := 96 + ItemOffset(items, i - 1), 96 + ItemOffset(items, i);
      SameString(d, e, from, items[i - 1]);
      SameJoined(d, e, from, to);
    }
  }

  /** A stored block is read with the low 64 bits of its first word as its number. */
  lemma BlockNumberRead(d: bytes)
    requires DecodeBlock(d).Ok?
    ensures |d| >= 32 && DecodeBlock(d).value.blockNumber == NumberAt(d, 0) % UINT64_LIMIT
  {
    hide FromBytes, DecodeAll, DecodeValue;
    var types := [UintTy, BytesSliceTy];
    UnpackedAt(types, d, 0, 0);
    NumberDecoded(d);
  }

  lemma NumberDecoded(d: bytes)
    ensures DecodeValue(UintTy, d, 0).Ok? ==> |d| >= 32 && DecodeValue(UintTy, d, 0) == Ok(Uint(NumberAt(d, 0)))
  {
    hide FromBytes;
  }
}
