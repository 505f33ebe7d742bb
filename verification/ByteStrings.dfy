/** Byte strings, Go's big-endian integer conversions, and fixed-size buffers. */
module ByteStrings {

  newtype byte = x: int | 0 <= x < 256
  type bytes = seq<byte>

  datatype Option<+T> = None | Some(value: T)

  function Zeros(n: nat): bytes {
    seq(n, _ => 0)
  }

  /** What a hash.Hash with a 32-byte sum returns. */
  type Digest = b: bytes | |b| == 32 witness Zeros(32)

  /** The hash is left uninterpreted: every theorem holds for every such function. */
  type Hasher = bytes -> Digest

  /** common.Address. */
  type EthAddress = b: bytes | |b| == 20 witness Zeros(20)

  /** Go slices are shorter than 2^63. */
  const MAX_LENGTH: nat := 0x8000_0000_0000_0000

  function Pow2(n: nat): (p: nat)
    ensures p > 0
  {
    if n == 0 then 1 else 2 * Pow2(n - 1)
  }

  lemma {:induction false} Pow2Sum(a: nat, b: nat)
    ensures Pow2(a + b) == Pow2(a) * Pow2(b)
  {
    if a > 0 {
      Pow2Sum(a - 1, b);
      calc {
        Pow2(a + b);
        2 * Pow2(a - 1 + b);
        2 * (Pow2(a - 1) * Pow2(b));
        (2 * Pow2(a - 1)) * Pow2(b);
        Pow2(a) * Pow2(b);
      }
    }
  }

  lemma {:induction false} Pow2Monotone(a: nat, b: nat)
    requires a <= b
    ensures Pow2(a) <= Pow2(b)
    decreases b - a
  {
    if a < b { Pow2Monotone(a, b - 1); }
  }

  lemma {:induction false} Pow2Exceeds(n: nat)
    ensures n < Pow2(n)
  {
    if n > 0 { Pow2Exceeds(n - 1); }
  }

  /** big.Int.SetBytes: an unsigned big-endian integer. */
  function FromBytes(b: bytes): nat {
    if b == [] then 0 else FromBytes(b[..|b| - 1]) * 256 + b[|b| - 1] as nat
  }

  /** big.Int.Bytes: the shortest big-endian form, empty for zero. */
  function ToBytes(n: nat): bytes {
    if n == 0 then [] else ToBytes(n / 256) + [(n % 256) as byte]
  }

  lemma {:induction false} FromToBytes(n: nat)
    ensures FromBytes(ToBytes(n)) == n
  {
    if n > 0 {
      FromToBytes(n / 256);
      assert ToBytes(n)[..|ToBytes(n)| - 1] == ToBytes(n / 256);
    }
  }

  lemma ToBytesInjective(m: nat, n: nat)
    requires ToBytes(m) == ToBytes(n)
    ensures m == n
  {
    FromToBytes(m);
    FromToBytes(n);
  }

  lemma {:induction false} FromBytesPadded(k: nat, b: bytes)
    ensures FromBytes(Zeros(k) + b) == FromBytes(b)
  {
    if b == [] {
      FromBytesZeros(k);
      assert Zeros(k) + b == Zeros(k);
    } else {
      FromBytesPadded(k, b[..|b| - 1]);
      assert (Zeros(k) + b)[..k + |b| - 1] == Zeros(k) + b[..|b| - 1];
    }
  }

  lemma {:induction false} FromBytesZeros(k: nat)
    ensures FromBytes(Zeros(k)) == 0
  {
    if k > 0 {
      FromBytesZeros(k - 1);
      assert Zeros(k)[..k - 1] == Zeros(k - 1);
    }
  }

  lemma {:induction false} FromBytesBound(b: bytes)
    ensures FromBytes(b) < Pow2(8 * |b|)
  {
    if b != [] {
      var init := b[..|b| - 1];
      FromBytesBound(init);
      Pow2Sum(8 * |init|, 8);
      assert Pow2(8) == 256;
      assert 8 * |b| == 8 * |init| + 8;
    }
  }

  lemma {:induction false} ToBytesLength(n: nat, k: nat)
    requires n < Pow2(8 * k)
    ensures |ToBytes(n)| <= k
    decreases k
  {
    if n > 0 {
      assert k > 0;
      Pow2Sum(8 * (k - 1), 8);
      assert Pow2(8) == 256;
      assert 8 * k == 8 * (k - 1) + 8;
      ToBytesLength(n / 256, k - 1);
    }
  }

  /** copy(make([]byte, 32), b): cut to 32 bytes, or filled up with zeros on the right. */
  function Fit(b: bytes): Digest {
    if |b| >= 32 then b[..32] else b + Zeros(32 - |b|)
  }

  /** big.Int.Bytes drops the sign. */
  function BigBytes(n: int): bytes {
    ToBytes(if n < 0 then -n else n)
  }

  /** common.BytesToAddress: the last 20 bytes, or filled up with zeros on the left. */
  function ToAddress(b: bytes): EthAddress {
    if |b| > 20 then b[|b| - 20..] else Zeros(20 - |b|) + b
  }

  lemma AddressIsItself(b: EthAddress)
    ensures ToAddress(b) == b
  {
  }

  function Reverse(s: seq<bytes>): (r: seq<bytes>)
    ensures |r| == |s|
    ensures forall i :: 0 <= i < |s| ==> r[i] == s[|s| - 1 - i]
  {
    seq(|s|, i requires 0 <= i < |s| => s[|s| - 1 - i])
  }

  lemma TakeNext<T>(s: seq<T>, k: nat)
    requires k < |s|
    ensures s[..k] + [s[k]] == s[..k + 1]
  {
  }

  lemma TakeAll<T>(s: seq<T>)
    ensures s[..|s|] == s
  {
  }
}
