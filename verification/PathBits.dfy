/** Bit tests on keys and on compaction masks (smt/utils.go), and the leaf a key selects. */
module PathBits {
  import opened ByteStrings

  /** A root-to-leaf path: true turns right. */
  type Path = seq<bool>

  /** big.Int.Lsh and big.Int.Rsh; big integers lose nothing to the left shift. */
  function Lsh(k: nat, n: nat): nat {
    if n == 0 then k else 2 * Lsh(k, n - 1)
  }

  function Rsh(k: nat, n: nat): nat {
    if n == 0 then k else Rsh(k, n - 1) / 2
  }

  predicate IsLeft(key: bytes, depth: nat, height: nat)
    requires height >= 2
  {
    Rsh(Lsh(FromBytes(key), depth), height - 2) % 2 == 0
  }

  function PathOf(key: bytes, height: nat): (path: Path)
    requires height >= 1
    ensures |path| == height - 1
  {
    seq(height - 1, i requires 0 <= i < height - 1 => !IsLeft(key, i, height))
  }

  /** The n-bit binary form of k modulo 2^n, most significant bit first. */
  function Bits(k: nat, n: nat): (path: Path)
    ensures |path| == n
  {
    if n == 0 then [] else Bits(k / 2, n - 1) + [k % 2 == 1]
  }

  /** The leaf position a path leads to, counting leaves from the left. */
  function Index(path: Path): (i: nat)
    ensures i < Pow2(|path|)
  {
    if path == [] then 0
    else if path[0] then Pow2(|path| - 1) + Index(path[1..])
    else Index(path[1..])
  }

  lemma {:induction false} RshLater(k: nat, n: nat)
    ensures Rsh(k / 2, n) == Rsh(k, n + 1)
  {
    if n > 0 { RshLater(k, n - 1); }
  }

  lemma {:induction false} ShiftsCancel(k: nat, n: nat, more: nat)
    ensures Rsh(Lsh(k, n), n + more) == Rsh(k, more)
  {
    if n > 0 {
      RshLater(Lsh(k, n), n - 1 + more);
      ShiftsCancel(k, n - 1, more);
    }
  }

  lemma {:induction false} LshZero(n: nat)
    ensures Lsh(0, n) == 0
  {
    if n > 0 { LshZero(n - 1); }
  }

  lemma {:induction false} RshSmall(k: nat, n: nat)
    requires k < Pow2(n)
    ensures Rsh(k, n) == 0
  {
    if n > 0 {
      RshLater(k, n - 1);
      RshSmall(k / 2, n - 1);
    }
  }

  lemma {:induction false} BitsAt(k: nat, n: nat, i: nat)
    requires i < n
    ensures Bits(k, n)[i] == (Rsh(k, n - 1 - i) % 2 == 1)
  {
    if i < n - 1 {
      BitsAt(k / 2, n - 1, i);
      RshLater(k, n - 2 - i);
    }
  }

  /** The shifts of isLeft read the key's bits from the most significant of height - 1 bits down. */
  lemma IsLeftReadsBits(key: bytes, height: nat)
    requires height >= 1
    ensures PathOf(key, height) == Bits(FromBytes(key), height - 1)
  {
    var k := FromBytes(key);
    forall i | 0 <= i < height - 1
      ensures PathOf(key, height)[i] == Bits(k, height - 1)[i]
    {
      ShiftsCancel(k, i, height - 2 - i);
      BitsAt(k, height - 1, i);
    }
  }

  lemma {:induction false} IndexAppend(path: Path, bit: bool)
    ensures Index(path + [bit]) == 2 * Index(path) + if bit then 1 else 0
  {
    if path == [] {
      assert path + [bit] == [bit];
      assert [bit][1..] == [];
    } else {
      IndexAppend(path[1..], bit);
      assert (path + [bit])[1..] == path[1..] + [bit];
    }
  }

  lemma {:induction false} IndexOfBits(k: nat, n: nat)
    ensures Index(Bits(k, n)) == k % Pow2(n)
  {
    if n > 0 {
      IndexOfBits(k / 2, n - 1);
      IndexAppend(Bits(k / 2, n - 1), k % 2 == 1);
      HalfMod(k, Pow2(n - 1));
    }
  }

  lemma HalfMod(k: nat, p: nat)
    requires p > 0
    ensures k % (2 * p) == 2 * ((k / 2) % p) + k % 2
  {
    var h := k / 2;
    var q, r := h / p, h % p;
    assert h == q * p + r;
    assert 2 * (q * p) == q * (2 * p);
    DivUnique(k, 2 * p, q, 2 * r + k % 2);
  }

  lemma DivUnique(n: nat, d: nat, q: nat, r: nat)
    requires d > 0 && r < d && n == q * d + r
    ensures n / d == q && n % d == r
  {
    var q', r' := n / d, n % d;
    assert n == q' * d + r';
    MulLess(q', q, d);
    MulLess(q, q', d);
  }

  lemma {:induction false} MulLess(x: nat, y: nat, a: nat)
    ensures x < y ==> x * a + a <= y * a
    decreases y
  {
    if x < y {
      assert (y - 1 + 1) * a == (y - 1) * a + a;
      MulLess(x, y - 1, a);
    }
  }

  lemma {:induction false} BitsOfIndex(path: Path)
    ensures Bits(Index(path), |path|) == path
  {
    if path != [] {
      var init, last := path[..|path| - 1], path[|path| - 1];
      assert path == init + [last];
      IndexAppend(init, last);
      BitsOfIndex(init);
    }
  }

  /** For keys read as numbers: the leaf selected is the key modulo the number of leaves. */
  lemma KeySelectsLeaf(key: bytes, height: nat)
    requires height >= 1
    ensures Index(PathOf(key, height)) == FromBytes(key) % Pow2(height - 1)
  {
    IsLeftReadsBits(key, height);
    IndexOfBits(FromBytes(key), height - 1);
  }

  /** padKey changes no answer of isLeft. */
  lemma PaddingKeepsPath(key: bytes, zeros: nat, height: nat)
    requires height >= 1
    ensures PathOf(Zeros(zeros) + key, height) == PathOf(key, height)
  {
    FromBytesPadded(zeros, key);
    IsLeftReadsBits(key, height);
    IsLeftReadsBits(Zeros(zeros) + key, height);
  }

  /** Two keys share a leaf exactly when they are congruent modulo 2^(height-1). */
  lemma SameLeafIffCongruent(key1: bytes, key2: bytes, height: nat)
    requires height >= 1
    ensures PathOf(key1, height) == PathOf(key2, height) <==>
            FromBytes(key1) % Pow2(height - 1) == FromBytes(key2) % Pow2(height - 1)
  {
    KeySelectsLeaf(key1, height);
    KeySelectsLeaf(key2, height);
    BitsOfIndex(PathOf(key1, height));
    BitsOfIndex(PathOf(key2, height));
  }

  /** Bit 0 is the least significant bit of the first byte: not the order isLeft reads in. */
  predicate HasBit(data: bytes, position: nat)
    requires position < 8 * |data|
  {
    Rsh(data[position / 8] as nat, position % 8) % 2 == 1
  }

  lemma {:induction false} RshTwice(k: nat, m: nat, n: nat)
    ensures Rsh(Rsh(k, m), n) == Rsh(k, m + n)
  {
    if n > 0 { RshTwice(k, m, n - 1); }
  }

  lemma {:induction false} RshAboveByte(m: nat, x: nat, n: nat)
    requires n <= 8
    ensures Rsh(m * 256 + x, n) == Pow2(8 - n) * m + Rsh(x, n)
  {
    if n == 0 {
      assert Pow2(8) == 256;
    } else {
      RshAboveByte(m, x, n - 1);
      var p := Pow2(8 - n);
      assert Pow2(8 - (n - 1)) == 2 * p;
      assert 2 * p * m == 2 * (p * m);
    }
  }

  /** Where a bit of the number a byte string stands for lies in the order of hasBit. */
  function PositionOfBit(length: nat, b: nat): (position: nat)
    requires b < 8 * length
    ensures position < 8 * length
  {
    8 * (length - 1 - b / 8) + b % 8
  }

  lemma BitInLastByte(m: nat, x: nat, b: nat)
    requires b < 8
    ensures Rsh(m * 256 + x, b) % 2 == Rsh(x, b) % 2
  {
    hide Rsh;
    RshAboveByte(m, x, b);
    var p := Pow2(8 - b - 1);
    assert Pow2(8 - b) * m == 2 * (p * m);
  }

  lemma BitAboveByte(m: nat, x: nat, b: nat)
    requires x < 256 && b >= 8
    ensures Rsh(m * 256 + x, b) == Rsh(m, b - 8)
  {
    hide Rsh;
    assert Pow2(8) == 256;
    RshAboveByte(m, x, 8);
    RshSmall(x, 8);
    RshTwice(m * 256 + x, 8, b - 8);
  }

  /** Bit b of the big-endian number is bit b mod 8 of byte b / 8 from the end. */
  lemma {:induction false} BitOfNumber(data: bytes, b: nat)
    requires b < 8 * |data|
    ensures Rsh(FromBytes(data), b) % 2 == 1 <==> HasBit(data, PositionOfBit(|data|, b))
  {
    hide Rsh;
    var init, last := data[..|data| - 1], data[|data| - 1] as nat;
    if b < 8 {
      BitInLastByte(FromBytes(init), last, b);
    } else {
      BitAboveByte(FromBytes(init), last, b);
      BitOfNumber(init, b - 8);
      SameBit(init, last as byte, b);
    }
  }

  lemma SameBit(init: bytes, last: byte, b: nat)
    requires 8 <= b < 8 * |init| + 8
    ensures HasBit(init + [last], PositionOfBit(|init| + 1, b)) == HasBit(init, PositionOfBit(|init|, b - 8))
  {
    hide Rsh;
    DivUnique(b - 8, 8, b / 8 - 1, b % 8);
  }

  /** Adding 2^k to a number whose bit k is clear sets that bit and no other. */
  lemma {:induction false} AddClearBit(n: nat, k: nat, j: nat)
    requires Rsh(n, k) % 2 == 0
    ensures Rsh(n + Pow2(k), j) % 2 == (if j == k then 1 else Rsh(n, j) % 2)
    decreases k
  {
    if k == 0 {
      assert (n + 1) / 2 == n / 2;
    } else {
      assert (n + Pow2(k)) / 2 == n / 2 + Pow2(k - 1);
      RshLater(n, k - 1);
    }
    if j > 0 {
      RshLater(n, j - 1);
      RshLater(n + Pow2(k), j - 1);
    }
    if k > 0 && j > 0 {
      AddClearBit(n / 2, k - 1, j - 1);
    }
  }

  lemma {:induction false} ClearBitFits(n: nat, k: nat, width: nat)
    requires Rsh(n, k) % 2 == 0 && n < Pow2(width) && k < width
    ensures n + Pow2(k) < Pow2(width)
    decreases k
  {
    if k > 0 {
      RshLater(n, k - 1);
      ClearBitFits(n / 2, k - 1, width - 1);
    }
  }

  /** The mask after setBit; n |= 1 << k adds 2^k exactly when the bit was clear. */
  function WithBit(data: bytes, position: nat): (r: bytes)
    requires position < 8 * |data|
    ensures |r| == |data|
    ensures forall p :: 0 <= p < 8 * |data| ==> (HasBit(r, p) <==> p == position || HasBit(data, p))
  {
    var n, k := data[position / 8] as nat, position % 8;
    if HasBit(data, position) then data
    else
      assert Pow2(8) == 256;
      ClearBitFits(n, k, 8);
      assert forall j :: 0 <= j < 8 ==>
        Rsh(n + Pow2(k), j) % 2 == (if j == k then 1 else Rsh(n, j) % 2) by {
        forall j | 0 <= j < 8
          ensures Rsh(n + Pow2(k), j) % 2 == (if j == k then 1 else Rsh(n, j) % 2)
        {
          AddClearBit(n, k, j);
        }
      }
      data[position / 8 := (n + Pow2(k)) as byte]
  }

  method SetBit(data: array<byte>, position: nat)
    requires position < 8 * data.Length
    modifies data
    ensures data[..] == WithBit(old(data[..]), position)
  {
    ghost var was := data[..];
    if !HasBit(data[..], position) {
      assert Pow2(8) == 256;
      ClearBitFits(data[position / 8] as nat, position % 8, 8);
      data[position / 8] := (data[position / 8] as nat + Pow2(position % 8)) as byte;
      assert data[..] == WithBit(was, position);
    }
  }

  function SetBitsBelow(data: bytes, n: nat): set<nat>
    requires n <= 8 * |data|
  {
    set p: nat | p < n && HasBit(data, p)
  }

  method CountSetBits(data: bytes) returns (count: nat)
    ensures count == |SetBitsBelow(data, 8 * |data|)|
  {
    count := 0;
    var i := 0;
    assert SetBitsBelow(data, 0) == {};
    while i < |data| * 8
      invariant 0 <= i <= |data| * 8
      invariant count == |SetBitsBelow(data, i)|
    {
      assert SetBitsBelow(data, i + 1) == SetBitsBelow(data, i) + if HasBit(data, i) then {i} else {};
      if HasBit(data, i) {
        count := count + 1;
      }
      i := i + 1;
    }
  }
}
