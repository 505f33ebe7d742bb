/** The account record and its stored form (types/account_info.go). */
module Accounts {
  import opened ByteStrings
  import opened Errors
  import opened Abi

  datatype AccountInfo = AccountInfo(account: bytes, balances: seq<int>, transferNonces: seq<int>,
          withdrawNonces: seq<int>)

  /** An address is 20 bytes. */
  predicate Storable(a: AccountInfo) {
    && |a.account| == 20 && |a.balances| < MAX_LENGTH
    && |a.transferNonces| < MAX_LENGTH && |a.withdrawNonces| < MAX_LENGTH
  }

  function AccountArguments(a: AccountInfo): (vs: seq<AbiValue>)
    ensures |vs| == 4
  {
    [AbiValue.Address(a.account), Uints(a.balances), Uints(a.transferNonces), Uints(a.withdrawNonces)]
  }

  function SerializeAccount(a: AccountInfo): bytes {
    Pack(AccountArguments(a))
  }

  function DeserializeAccount(data: bytes): Result<AccountInfo> {
    var vs :- Unpack([AddressTy, UintSliceTy, UintSliceTy, UintSliceTy], data);
    assert TypeOf(vs[0]).AddressTy? && TypeOf(vs[1]).UintSliceTy? && TypeOf(vs[2]).UintSliceTy?
      && TypeOf(vs[3]).UintSliceTy?;
    Ok(AccountInfo(vs[0].address, vs[1].ns, vs[2].ns, vs[3].ns))
  }

  /** What a record holds after it was written and read back. */
  function Stored(a: AccountInfo): AccountInfo {
    AccountInfo(a.account, WrapAll(a.balances), WrapAll(a.transferNonces), WrapAll(a.withdrawNonces))
  }

  lemma UintsLength(ns: seq<int>)
    ensures |TailOf(SlotOf(Uints(ns)))| == 32 + 32 * |ns|
  {
    hide Word;
    WordsLength(ns);
  }

  lemma AccountSize(a: AccountInfo)
    requires Storable(a)
    ensures |SerializeAccount(a)| == 224 + 32 * (|a.balances| + |a.transferNonces| + |a.withdrawNonces|) < UINT_LIMIT
  {
    hide Word, Words;
    var slots := Slots(AccountArguments(a));
    assert SlotsFit(slots);
    HeadsLength(slots, 128);
    UintsLength(a.balances);
    UintsLength(a.transferNonces);
    UintsLength(a.withdrawNonces);
    var t1, t2, t3 := slots[1..], slots[2..], slots[3..];
    assert t1[1..] == t2 && t2[1..] == t3 && t3[1..] == [];
    assert Tails(slots) == TailOf(slots[0]) + Tails(t1);
    assert Tails(t1) == TailOf(slots[1]) + Tails(t2);
    assert Tails(t2) == TailOf(slots[2]) + Tails(t3);
    assert Tails(t3) == TailOf(slots[3]) + Tails([]);
  }

  /** A stored record reads back as itself with every number modulo 2^256. */
  lemma AccountRoundTrip(a: AccountInfo)
    requires Storable(a)
    ensures DeserializeAccount(SerializeAccount(a)) == Ok(Stored(a))
  {
    hide Unpack, Pack, WrapAll;
    var vs := AccountArguments(a);
    AccountSize(a);
    UnpackPack(vs);
    assert Types(vs) == [AddressTy, UintSliceTy, UintSliceTy, UintSliceTy];
    assert NormalizedAll(vs) == [AbiValue.Address(a.account), Uints(WrapAll(a.balances)),
                                 Uints(WrapAll(a.transferNonces)), Uints(WrapAll(a.withdrawNonces))];
  }

  /** Records differing in a stored number, or in the address, have different bytes. */
  lemma AccountBytesInjective(a: AccountInfo, b: AccountInfo)
    requires Storable(a) && Storable(b)
    ensures SerializeAccount(a) == SerializeAccount(b) ==> Stored(a) == Stored(b)
  {
    AccountRoundTrip(a);
    AccountRoundTrip(b);
  }

  /** An unused leaf is not an account record. */
  lemma EmptyLeafIsNoAccount()
    ensures DeserializeAccount(Zeros(32)) == Err(BadEncoding)
  {
    hide FromBytes;
    var types := [AddressTy, UintSliceTy, UintSliceTy, UintSliceTy];
    assert DecodeValue(types[1], Zeros(32), 32) == Err(BadEncoding);
    assert UnpackFrom(types, Zeros(32), 1) == Err(BadEncoding);
  }

  /** All numbers fit in 256 bits: the record is unchanged by storing it. */
  predicate InRange(a: AccountInfo) {
    && (forall i :: 0 <= i < |a.balances| ==> 0 <= a.balances[i] < UINT_LIMIT)
    && (forall i :: 0 <= i < |a.transferNonces| ==> 0 <= a.transferNonces[i] < UINT_LIMIT)
    && (forall i :: 0 <= i < |a.withdrawNonces| ==> 0 <= a.withdrawNonces[i] < UINT_LIMIT)
  }

  lemma WrapAllInRange(ns: seq<int>)
    requires forall i :: 0 <= i < |ns| ==> 0 <= ns[i] < UINT_LIMIT
    ensures WrapAll(ns) == ns
  {
    hide Wrap;
    forall i | 0 <= i < |ns| ensures WrapAll(ns)[i] == ns[i] {
    }
  }

  lemma StoredInRange(a: AccountInfo)
    ensures InRange(Stored(a))
    ensures InRange(a) ==> Stored(a) == a
  {
    hide Wrap, WrapAll;
    if InRange(a) {
      WrapAllInRange(a.balances);
      WrapAllInRange(a.transferNonces);
      WrapAllInRange(a.withdrawNonces);
    }
  }
}
