/** Merkle proofs and their compacted form (smt/proofs.go). */
module Proofs {
  import opened ByteStrings
  import opened Errors
  import opened Namespaces
  import opened PathBits
  import opened MerkleTree
  import opened TrieStore
  import opened SparseMerkleTrees

  /** A proof, leaf's sibling first, folds a value along a path to a root. */
  ghost predicate Folds(h: Hasher, path: Path, value: bytes, proof: seq<bytes>, root: bytes) {
    |proof| == |path| && Fold(h, path, value, FitAll(Reverse(proof))) == root
  }

  /** The path is always the hash of the key, whether or not the tree hashes its keys. */
  method VerifyProof(proof: seq<bytes>, root: bytes, key: bytes, value: bytes, hasher: Hasher, height: nat)
    returns (ok: bool)
    ensures ok <==> height >= 1 && Folds(hasher, PathOf(hasher(key), height), value, proof, root)
  {
    hide FoldPreimages, IsLeft, FitAll, Fit;
    var path := hasher(key);
    var currentHash := hasher(value);
    if |proof| != height - 1 {
      return false;
    }
    ghost var bits := PathOf(path, height);
    ghost var sides := FitAll(Reverse(proof));
    ghost var xs := FoldPreimages(hasher, bits, value, sides);
    FoldStart(hasher, bits, value, sides);
    var i := height - 2;
    while i >= 0
      invariant -1 <= i <= height - 2
      invariant currentHash == hasher(xs[height - 2 - i])
    {
      var node: bytes := Fit(proof[height - 2 - i]);
      FoldStep(hasher, bits, value, sides, i);
      SideAt(proof, i);
      var below: bytes := currentHash;
      if !IsLeft(path, i, height) {
        below := node + below;
      } else {
        below := below + node;
      }
      assert below == Join(bits[i], currentHash, sides[i]);
      currentHash := hasher(below);
      i := i - 1;
    }
    ok := currentHash == root;
  }

  /**
   Two proofs accepted for one path and one root either prove the same value with the same siblings, after cutting or
   padding every sibling to 32 bytes, or show at the returned level two different strings with one hash.
   */
  lemma ProofsBind(h: Hasher, path: Path, v1: bytes, p1: seq<bytes>, v2: bytes, p2: seq<bytes>, root: bytes)
          returns (level: nat)
    requires Folds(h, path, v1, p1, root) && Folds(h, path, v2, p2, root)
    ensures level <= |path|
    ensures (v1 == v2 && FitAll(p1) == FitAll(p2)) ||
            Collide(h, FoldPreimages(h, path, v1, FitAll(Reverse(p1)))[level],
              FoldPreimages(h, path, v2, FitAll(Reverse(p2)))[level])
  {
    hide FoldPreimages, Fit;
    var s1, s2 := FitAll(Reverse(p1)), FitAll(Reverse(p2));
    level := Binding(h, path, v1, s1, v2, s2);
    if s1 == s2 {
      forall i | 0 <= i < |p1| ensures FitAll(p1)[i] == FitAll(p2)[i] {
        assert s1[|p1| - 1 - i] == Fit(p1[i]) && s2[|p1| - 1 - i] == Fit(p2[i]);
      }
    }
  }

  lemma SideAt(proof: seq<bytes>, i: nat)
    requires i < |proof|
    ensures FitAll(Reverse(proof))[i] == Fit(proof[|proof| - 1 - i])
  {
    hide Fit;
  }

  /** Every element copied into a 32-byte array. */
  method ConvertToInclusionProof(data: seq<bytes>) returns (proof: seq<Digest>)
    ensures proof == FitAll(data)
  {
    var copies := new Digest[|data|];
    var i := 0;
    while i < |data|
      invariant 0 <= i <= |data|
      invariant forall j :: 0 <= j < i ==> copies[j] == Fit(data[j])
    {
      copies[i] := Fit(data[i]);
      i := i + 1;
    }
    proof := copies[..];
  }

  /** Siblings are 32 bytes long already: copying a proof read from a tree changes nothing. */
  lemma FitReversed(sides: seq<Digest>)
    ensures FitAll(Reverse(sides)) == Reverse(sides)
  {
    FitDigests(Reverse(sides));
  }

  // ---------------------------------------------------------------- compaction

  predicate IsDefault(h: Hasher, proof: seq<bytes>, i: nat)
    requires i < |proof| && |proof| < HASH_BITS
  {
    Fit(proof[i]) == DefaultNode(h, i)
  }

  /** The mask written by the first n rounds. */
  function Mask(h: Hasher, proof: seq<bytes>, n: nat): (mask: bytes)
    requires n <= |proof| < HASH_BITS
    ensures |mask| == 32
  {
    if n == 0 then Zeros(32)
    else if IsDefault(h, proof, n - 1) then WithBit(Mask(h, proof, n - 1), n - 1)
    else Mask(h, proof, n - 1)
  }

  /** The entries kept by the first n rounds. */
  function Kept(h: Hasher, proof: seq<bytes>, n: nat): (kept: seq<bytes>)
    requires n <= |proof| < HASH_BITS
    ensures |kept| <= n
  {
    if n == 0 then []
    else if IsDefault(h, proof, n - 1) then Kept(h, proof, n - 1)
    else Kept(h, proof, n - 1) + [Fit(proof[n - 1])]
  }

  function Compacted(h: Hasher, proof: seq<bytes>): seq<bytes>
    requires |proof| < HASH_BITS
  {
    [Mask(h, proof, |proof|)] + Kept(h, proof, |proof|)
  }

  method CompactProof(proof: seq<bytes>, hasher: Hasher, height: nat) returns (r: Result<seq<bytes>>)
    requires height <= HASH_BITS
    ensures r == if |proof| != height - 1 then Err(BadProofSize) else Ok(Compacted(hasher, proof))
  {
    hide DefaultNode, HasBit, WithBit, Fit;
    if |proof| != height - 1 {
      return Err(BadProofSize);
    }
    var nodes := DefaultNodes(hasher);
    var bits := new byte[32](_ => 0);
    assert bits[..] == Zeros(32);
    var compact: seq<bytes> := [];
    var i := 0;
    while i < height - 1
      invariant 0 <= i <= height - 1
      invariant bits[..] == Mask(hasher, proof, i)
      invariant compact == Kept(hasher, proof, i)
      invariant forall j :: 0 <= j < HASH_BITS ==> nodes[j] == DefaultNode(hasher, j)
      invariant bits as object != nodes
    {
      var node := Fit(proof[i]);
      if node == nodes[i] {
        SetBit(bits, i);
      } else {
        compact := compact + [node];
      }
      i := i + 1;
    }
    r := Ok([bits[..]] + compact);
  }

  /** Rounds i onwards of the decompaction loop; running out of kept entries panics. */
  function ExpandFrom(h: Hasher, bits: bytes, kept: seq<bytes>, height: nat, i: nat,
          position: nat): (r: Result<seq<bytes>>)
    requires i < height <= HASH_BITS && position <= |kept|
    ensures r.Ok? ==> |r.value| == height - 1 - i
    decreases height - i
  {
    if i == height - 1 then Ok([])
    else if !IsLeft(bits, i, height)
      then Prepended([DefaultNode(h, i)], ExpandFrom(h, bits, kept, height, i + 1, position))
    else if position == |kept| then Err(Panic)
    else Prepended([kept[position]], ExpandFrom(h, bits, kept, height, i + 1, position + 1))
  }

  function Decompacted(h: Hasher, proof: seq<bytes>, height: nat): Result<seq<bytes>>
    requires height <= HASH_BITS
  {
    if |proof| == 0 || |proof[0]| != 32 || |proof| != (height - 1 - |SetBitsBelow(proof[0], 256)|) + 1
    then Err(BadProofSize)
    else if height == 0 then Err(Panic)
    else ExpandFrom(h, proof[0], proof[1..], height, 0, 0)
  }

  method DecompactProof(proof: seq<bytes>, hasher: Hasher, height: nat) returns (r: Result<seq<bytes>>)
    requires height <= HASH_BITS
    ensures r == Decompacted(hasher, proof, height)
  {
    hide IsLeft, DefaultNode, HasBit;
    if |proof| == 0 || |proof[0]| != 32 {
      return Err(BadProofSize);
    }
    var count := CountSetBits(proof[0]);
    if |proof| != (height - 1 - count) + 1 {
      return Err(BadProofSize);
    }
    if height == 0 {
      return Err(Panic);
    }
    var nodes := DefaultNodes(hasher);
    var bits, compact := proof[0], proof[1..];
    var decompacted: seq<bytes> := [];
    var position := 0;
    var i := 0;
    PrependedNone(ExpandFrom(hasher, bits, compact, height, 0, 0));
    while i < height - 1
      invariant 0 <= i <= height - 1
      invariant 0 <= position <= |compact|
      invariant forall j :: 0 <= j < HASH_BITS ==> nodes[j] == DefaultNode(hasher, j)
      invariant ExpandFrom(hasher, bits, compact, height, 0, 0) ==
                Prepended(decompacted, ExpandFrom(hasher, bits, compact, height, i, position))
    {
      if !IsLeft(bits, i, height) {
        PrependedTwice(decompacted, nodes[i], ExpandFrom(hasher, bits, compact, height, i + 1, position));
        decompacted := decompacted + [nodes[i]];
      } else {
        if position == |compact| {
          return Err(Panic);
        }
        PrependedTwice(decompacted, compact[position], ExpandFrom(hasher, bits, compact, height, i + 1, position + 1));
        decompacted := decompacted + [compact[position]];
        position := position + 1;
      }
      i := i + 1;
    }
    assert decompacted + [] == decompacted;
    r := Ok(decompacted);
  }

  method VerifyCompactProof(proof: seq<bytes>, root: bytes, key: bytes, value: bytes, hasher: Hasher, height: nat)
    returns (ok: bool)
    requires height <= HASH_BITS
    ensures ok <==> Decompacted(hasher, proof, height).Ok? &&
                    Folds(hasher, PathOf(hasher(key), height), value, Decompacted(hasher, proof, height).value, root)
  {
    var decompacted := DecompactProof(proof, hasher, height);
    if decompacted.Err? {
      return false;
    }
    ok := VerifyProof(decompacted.value, root, key, value, hasher, height);
  }

  /** ProveCompactForRoot: a proof of the tree, compacted. */
  function CompactProofOf(h: Hasher, cfg: TreeConfig, store: Store, key: bytes, root: bytes): Result<seq<bytes>>
    requires 1 <= cfg.height <= HASH_BITS
  {
    var proof :- ProofOf(h, cfg, store, key, root);
    Ok(Compacted(h, proof))
  }

  method ProveCompactForRoot(tree: SparseMerkleTree, key: bytes, fromRoot: bytes) returns (r: Result<seq<bytes>>)
    requires tree.Valid()
    ensures r == CompactProofOf(tree.hasher, tree.Config(), tree.db.store, key, fromRoot)
  {
    hide Backed, KeyPath, SideNodes, Compacted;
    var proof :- tree.ProveForRoot(key, fromRoot);
    r := CompactProof(proof, tree.hasher, tree.height);
  }

  // ---------------------------------------------------------------- when compaction can be undone

  function DefaultsBelow(h: Hasher, proof: seq<bytes>, n: nat): set<nat>
    requires n <= |proof| < HASH_BITS
  {
    set i: nat | i < n && IsDefault(h, proof, i)
  }

  lemma NoBitsInZeros()
    ensures SetBitsBelow(Zeros(32), 256) == {}
  {
    forall p: nat | p < 256 ensures !HasBit(Zeros(32), p) {
      RshSmall(0, p % 8);
    }
  }

  lemma {:induction false} MaskBits(h: Hasher, proof: seq<bytes>, n: nat)
    requires n <= |proof| < HASH_BITS
    ensures SetBitsBelow(Mask(h, proof, n), 256) == DefaultsBelow(h, proof, n)
  {
    hide HasBit, IsDefault, WithBit;
    if n == 0 {
      NoBitsInZeros();
      assert DefaultsBelow(h, proof, 0) == {};
    } else {
      MaskBits(h, proof, n - 1);
      var before, after := Mask(h, proof, n - 1), Mask(h, proof, n);
      assert after == if IsDefault(h, proof, n - 1) then WithBit(before, n - 1) else before;
      forall p: nat
        ensures p in SetBitsBelow(after, 256) <==> p in DefaultsBelow(h, proof, n)
      {
        assert p in SetBitsBelow(before, 256) <==> p in DefaultsBelow(h, proof, n - 1);
      }
    }
  }

  lemma {:induction false} KeptCount(h: Hasher, proof: seq<bytes>, n: nat)
    requires n <= |proof| < HASH_BITS
    ensures |Kept(h, proof, n)| + |DefaultsBelow(h, proof, n)| == n
  {
    hide IsDefault;
    if n == 0 {
      assert DefaultsBelow(h, proof, 0) == {};
    } else {
      KeptCount(h, proof, n - 1);
      assert DefaultsBelow(h, proof, n) ==
             DefaultsBelow(h, proof, n - 1) + if IsDefault(h, proof, n - 1) then {n - 1} else {};
    }
  }

  lemma CompactedPassesSizeCheck(h: Hasher, proof: seq<bytes>)
    requires |proof| < HASH_BITS
    ensures Decompacted(h, Compacted(h, proof), |proof| + 1) ==
            ExpandFrom(h, Mask(h, proof, |proof|), Kept(h, proof, |proof|), |proof| + 1, 0, 0)
  {
    MaskBits(h, proof, |proof|);
    KeptCount(h, proof, |proof|);
    assert Compacted(h, proof)[1..] == Kept(h, proof, |proof|);
  }

  /**
   A compact proof, entry by entry: bit p of the mask says that entry p was a default, and the others follow the
   mask in their order.
   */
  lemma CompactedIs(h: Hasher, proof: seq<bytes>, i: nat)
    requires i < |proof| < HASH_BITS
    ensures var compact, gone := Compacted(h, proof), |DefaultsBelow(h, proof, i)|;
            && |compact| == 1 + |proof| - |DefaultsBelow(h, proof, |proof|)| && |compact[0]| == 32
            && (forall p: nat :: p < 256 ==> (HasBit(compact[0], p) <==> p < |proof| && IsDefault(h, proof, p)))
            && gone <= i
            && (!IsDefault(h, proof, i) ==> 1 + i - gone < |compact| && compact[1 + i - gone] == Fit(proof[i]))
  {
    hide HasBit, IsDefault, Kept, Mask;
    var n := |proof|;
    MaskBits(h, proof, n);
    forall p: nat | p < 256 ensures HasBit(Mask(h, proof, n), p) <==> p < n && IsDefault(h, proof, p) {
      assert p in SetBitsBelow(Mask(h, proof, n), 256) <==> p in DefaultsBelow(h, proof, n);
    }
    KeptCount(h, proof, n);
    KeptCount(h, proof, i);
    KeptStep(h, proof, i);
  }

  /** The mask, written with setBit, reads back with isLeft as it was meant from entry i on. */
  ghost predicate MaskReadsBack(h: Hasher, proof: seq<bytes>, bits: bytes, i: nat)
    requires |proof| < HASH_BITS
  {
    forall j: nat :: i <= j < |proof| ==> (IsLeft(bits, j, |proof| + 1) <==> !IsDefault(h, proof, j))
  }

  lemma {:induction false} KeptPrefix(h: Hasher, proof: seq<bytes>, m: nat, n: nat)
    requires m <= n <= |proof| < HASH_BITS
    ensures Kept(h, proof, m) <= Kept(h, proof, n)
  {
    hide IsDefault;
    if m < n { KeptPrefix(h, proof, m, n - 1); }
  }

  lemma FitAllFrom(proof: seq<bytes>, i: nat)
    requires i < |proof|
    ensures FitAll(proof[i..]) == [Fit(proof[i])] + FitAll(proof[i + 1..])
  {
  }

  lemma {:induction false} ExpandUndoes(h: Hasher, proof: seq<bytes>, bits: bytes, i: nat)
    requires i <= |proof| < HASH_BITS && MaskReadsBack(h, proof, bits, i)
    ensures |Kept(h, proof, i)| <= |Kept(h, proof, |proof|)|
    ensures ExpandFrom(h, bits, Kept(h, proof, |proof|), |proof| + 1, i, |Kept(h, proof, i)|) == Ok(FitAll(proof[i..]))
    decreases |proof| - i
  {
    hide IsLeft, IsDefault, Kept;
    var n := |proof|;
    KeptPrefix(h, proof, i, n);
    if i < n {
      KeptStep(h, proof, i);
      ExpandUndoes(h, proof, bits, i + 1);
      assert IsLeft(bits, i, n + 1) <==> !IsDefault(h, proof, i);
      FitAllFrom(proof, i);
    }
  }

  lemma KeptStep(h: Hasher, proof: seq<bytes>, i: nat)
    requires i < |proof| < HASH_BITS
    ensures IsDefault(h, proof, i) ==> Fit(proof[i]) == DefaultNode(h, i) && Kept(h, proof, i + 1) == Kept(h, proof, i)
    ensures !IsDefault(h, proof, i) ==>
              && |Kept(h, proof, i + 1)| == |Kept(h, proof, i)| + 1 <= |Kept(h, proof, |proof|)|
              && Kept(h, proof, |proof|)[|Kept(h, proof, i)|] == Fit(proof[i])
  {
    hide DefaultNode;
    KeptPrefix(h, proof, i + 1, |proof|);
    assert Kept(h, proof, i + 1) == Kept(h, proof, i) + if IsDefault(h, proof, i) then [] else [Fit(proof[i])];
  }

  /** How many kept entries rounds i to j - 1 consume. */
  function ReadsBetween(bits: bytes, height: nat, i: nat, j: nat): nat
    requires i <= j < height
  {
    if i == j then 0 else ReadsBetween(bits, height, i, j - 1) + if IsLeft(bits, j - 1, height) then 1 else 0
  }

  lemma {:induction false} ReadsFirst(bits: bytes, height: nat, i: nat, j: nat)
    requires i < j < height
    ensures ReadsBetween(bits, height, i, j) ==
            (if IsLeft(bits, i, height) then 1 else 0) + ReadsBetween(bits, height, i + 1, j)
  {
    hide IsLeft;
    if i + 1 < j { ReadsFirst(bits, height, i, j - 1); }
  }

  lemma {:induction false} ExpandAt(h: Hasher, bits: bytes, kept: seq<bytes>, height: nat, i: nat, position: nat,
          j: nat)
    requires i <= j < height - 1 && height <= HASH_BITS && position <= |kept|
    requires ExpandFrom(h, bits, kept, height, i, position).Ok?
    ensures var at := position + ReadsBetween(bits, height, i, j);
            var entry := ExpandFrom(h, bits, kept, height, i, position).value[j - i];
            if IsLeft(bits, j, height) then at < |kept| && entry == kept[at] else entry == DefaultNode(h, j)
    decreases height - i
  {
    hide IsLeft, DefaultNode;
    if i < j {
      var next := position + if IsLeft(bits, i, height) then 1 else 0;
      ExpandAt(h, bits, kept, height, i + 1, next, j);
      ReadsFirst(bits, height, i, j);
      var whole, rest := ExpandFrom(h, bits, kept, height, i, position).value,
        ExpandFrom(h, bits, kept, height, i + 1, next).value;
      assert whole[1..] == rest && whole[j - i] == rest[j - (i + 1)];
    }
  }

  lemma {:induction false} ExpandOkIff(h: Hasher, bits: bytes, kept: seq<bytes>, height: nat, i: nat, position: nat)
    requires i < height <= HASH_BITS && position <= |kept|
    ensures ExpandFrom(h, bits, kept, height, i, position).Ok? <==>
            position + ReadsBetween(bits, height, i, height - 1) <= |kept|
    ensures var expanded := ExpandFrom(h, bits, kept, height, i, position);
            expanded.Err? ==> expanded.error == Panic
    decreases height - i
  {
    hide IsLeft, DefaultNode;
    if i < height - 1 {
      ReadsFirst(bits, height, i, height - 1);
      if !IsLeft(bits, i, height) {
        ExpandOkIff(h, bits, kept, height, i + 1, position);
      } else if position < |kept| {
        ExpandOkIff(h, bits, kept, height, i + 1, position + 1);
      }
    }
  }

  /** A 32-byte mask, and one entry for each of the height - 1 positions it does not mark. */
  predicate RightSize(compact: seq<bytes>, height: nat) {
    compact != [] && |compact[0]| == 32 && |compact| + |SetBitsBelow(compact[0], 256)| == height
  }

  /**
   A compact proof of the wrong size is refused; one of the right size expands unless isLeft asks for more entries
   than follow the mask, which panics.
   */
  lemma DecompactsIff(h: Hasher, compact: seq<bytes>, height: nat)
    requires height <= HASH_BITS
    ensures var expanded := Decompacted(h, compact, height);
            && (expanded.Ok? <==>
                  RightSize(compact, height) && ReadsBetween(compact[0], height, 0, height - 1) < |compact|)
            && (expanded.Err? ==> expanded.error == if RightSize(compact, height) then Panic else BadProofSize)
  {
    hide IsLeft, DefaultNode, ExpandFrom, ReadsBetween, SetBitsBelow;
    if RightSize(compact, height) {
      ExpandOkIff(h, compact[0], compact[1..], height, 0, 0);
    }
  }

  /**
   What any compact proof expands to: a default where isLeft reads a set bit of the mask, and otherwise the next of
   the entries that follow it.
   */
  lemma DecompactedIs(h: Hasher, compact: seq<bytes>, height: nat, j: nat)
    requires j + 1 < height <= HASH_BITS && Decompacted(h, compact, height).Ok?
    ensures compact != [] && |Decompacted(h, compact, height).value| == height - 1
    ensures var entry, at := Decompacted(h, compact, height).value[j], 1 + ReadsBetween(compact[0], height, 0, j);
            if IsLeft(compact[0], j, height) then at < |compact| && entry == compact[at] else entry == DefaultNode(h, j)
  {
    hide IsLeft, DefaultNode, ExpandFrom, ReadsBetween, SetBitsBelow;
    ExpandAt(h, compact[0], compact[1..], height, 0, 0, j);
  }

  lemma ExpandConsumes(h: Hasher, bits: bytes, kept: seq<bytes>, height: nat, i: nat, position: nat)
    requires i < height <= HASH_BITS && position <= |kept|
    requires ExpandFrom(h, bits, kept, height, i, position).Ok?
    ensures position + ReadsBetween(bits, height, i, height - 1) <= |kept|
    ensures forall j: nat :: i <= j < height - 1 && !IsLeft(bits, j, height) ==>
              ExpandFrom(h, bits, kept, height, i, position).value[j - i] == DefaultNode(h, j)
  {
    hide IsLeft, DefaultNode, ExpandFrom, ReadsBetween;
    ExpandOkIff(h, bits, kept, height, i, position);
    forall j: nat | i <= j < height - 1 && !IsLeft(bits, j, height)
      ensures ExpandFrom(h, bits, kept, height, i, position).value[j - i] == DefaultNode(h, j)
    {
      ExpandAt(h, bits, kept, height, i, position, j);
    }
  }

  lemma {:induction false} ReadsAtLeastKept(h: Hasher, proof: seq<bytes>, bits: bytes, i: nat)
    requires i <= |proof| < HASH_BITS
    requires forall j: nat :: j < |proof| && !IsLeft(bits, j, |proof| + 1) ==> IsDefault(h, proof, j)
    ensures ReadsBetween(bits, |proof| + 1, i, |proof|) + |Kept(h, proof, i)| >= |Kept(h, proof, |proof|)|
    ensures ReadsBetween(bits, |proof| + 1, i, |proof|) + |Kept(h, proof, i)| == |Kept(h, proof, |proof|)| ==>
              MaskReadsBack(h, proof, bits, i)
    decreases |proof| - i
  {
    hide IsLeft, IsDefault;
    if i < |proof| {
      ReadsAtLeastKept(h, proof, bits, i + 1);
      ReadsFirst(bits, |proof| + 1, i, |proof|);
    }
  }

  lemma ExpandOkReadsBack(h: Hasher, proof: seq<bytes>, bits: bytes)
    requires |proof| < HASH_BITS
    requires ExpandFrom(h, bits, Kept(h, proof, |proof|), |proof| + 1, 0, 0) == Ok(FitAll(proof))
    ensures MaskReadsBack(h, proof, bits, 0)
  {
    ExpandConsumes(h, bits, Kept(h, proof, |proof|), |proof| + 1, 0, 0);
    forall j: nat | j < |proof| && !IsLeft(bits, j, |proof| + 1)
      ensures IsDefault(h, proof, j)
    {
      assert FitAll(proof)[j - 0] == DefaultNode(h, j);
    }
    ReadsAtLeastKept(h, proof, bits, 0);
  }

  lemma CompactionReadsBackIff(h: Hasher, proof: seq<bytes>)
    requires |proof| < HASH_BITS
    ensures Decompacted(h, Compacted(h, proof), |proof| + 1) == Ok(FitAll(proof)) <==>
            MaskReadsBack(h, proof, Mask(h, proof, |proof|), 0)
  {
    CompactedPassesSizeCheck(h, proof);
    if MaskReadsBack(h, proof, Mask(h, proof, |proof|), 0) {
      ExpandUndoes(h, proof, Mask(h, proof, |proof|), 0);
      assert proof[0..] == proof;
    }
    if Decompacted(h, Compacted(h, proof), |proof| + 1) == Ok(FitAll(proof)) {
      ExpandOkReadsBack(h, proof, Mask(h, proof, |proof|));
    }
  }

  /** The entry whose bit of the mask the expansion of n entries looks at for entry j. */
  function EntryReadFor(n: nat, j: nat): nat
    requires j < n < HASH_BITS
  {
    PositionOfBit(32, n - 1 - j)
  }

  /** Every entry is default exactly when the entry read for it is there and default. */
  ghost predicate DefaultsAgree(h: Hasher, proof: seq<bytes>)
    requires |proof| < HASH_BITS
  {
    forall j: nat :: j < |proof| ==>
      var q := EntryReadFor(|proof|, j);
      IsDefault(h, proof, j) <==> q < |proof| && IsDefault(h, proof, q)
  }

  lemma ReadsEntry(h: Hasher, proof: seq<bytes>, j: nat)
    requires j < |proof| < HASH_BITS
    ensures var q := EntryReadFor(|proof|, j);
            IsLeft(Mask(h, proof, |proof|), j, |proof| + 1) <==> !(q < |proof| && IsDefault(h, proof, q))
  {
    hide HasBit, IsDefault, Lsh, Rsh, FromBytes;
    var n, mask := |proof|, Mask(h, proof, |proof|);
    ShiftsCancel(FromBytes(mask), j, n - 1 - j);
    BitOfNumber(mask, n - 1 - j);
    MaskBits(h, proof, n);
    var q := EntryReadFor(n, j);
    assert q in SetBitsBelow(mask, 256) <==> q in DefaultsBelow(h, proof, n);
  }

  /**
   The exact condition under which a compacted proof decompacts to its own 32-byte entries: setBit numbers the
   mask's bits from the first byte up and isLeft from the last byte down, so each default entry must be met by a
   default entry at the position its bit is read from.
   */
  lemma CompactionInvertibleIff(h: Hasher, proof: seq<bytes>)
    requires |proof| < HASH_BITS
    ensures Decompacted(h, Compacted(h, proof), |proof| + 1) == Ok(FitAll(proof)) <==> DefaultsAgree(h, proof)
  {
    hide Decompacted, Compacted, IsLeft, IsDefault, EntryReadFor, FitAll, Mask;
    CompactionReadsBackIff(h, proof);
    var mask := Mask(h, proof, |proof|);
    if DefaultsAgree(h, proof) {
      forall j: nat | j < |proof| ensures IsLeft(mask, j, |proof| + 1) <==> !IsDefault(h, proof, j) {
        ReadsEntry(h, proof, j);
      }
    }
    if MaskReadsBack(h, proof, mask, 0) {
      forall j: nat | j < |proof|
        ensures var q := EntryReadFor(|proof|, j);
                IsDefault(h, proof, j) <==> q < |proof| && IsDefault(h, proof, q)
      {
        ReadsEntry(h, proof, j);
        assert IsLeft(mask, j, |proof| + 1) <==> !IsDefault(h, proof, j);
      }
    }
  }

  /** The first seven entries of every eight are symmetric about the middle one, and the eighth is not default. */
  predicate MirroredAt(h: Hasher, proof: seq<bytes>, j: nat)
    requires j < |proof| == HASH_BITS - 1
  {
    if j % 8 == 7 then !IsDefault(h, proof, j)
    else (IsDefault(h, proof, j) <==> IsDefault(h, proof, j - j % 8 + (6 - j % 8)))
  }

  ghost predicate DefaultsMirrored(h: Hasher, proof: seq<bytes>)
    requires |proof| == HASH_BITS - 1
  {
    forall j: nat :: j < |proof| ==> MirroredAt(h, proof, j)
  }

  lemma EntryReadAtFullHeight(j: nat)
    requires j < HASH_BITS - 1
    ensures EntryReadFor(HASH_BITS - 1, j) == if j % 8 == 7 then j + 8 else j - j % 8 + (6 - j % 8)
  {
    var a, r := j / 8, j % 8;
    assert j == 8 * a + r;
    if r == 7 {
      DivUnique(254 - j, 8, 30 - a, 7);
    } else {
      DivUnique(254 - j, 8, 31 - a, 6 - r);
    }
  }

  lemma {:induction false} NoEighthEntry(h: Hasher, proof: seq<bytes>, j: nat)
    requires |proof| == HASH_BITS - 1 && DefaultsAgree(h, proof) && j < |proof| && j % 8 == 7
    ensures !IsDefault(h, proof, j)
    decreases |proof| - j
  {
    hide IsDefault, EntryReadFor;
    EntryReadAtFullHeight(j);
    assert IsDefault(h, proof, j) <==> j + 8 < |proof| && IsDefault(h, proof, j + 8);
    if j + 8 < |proof| {
      NoEighthEntry(h, proof, j + 8);
    }
  }

  /** At full height the condition is read byte by byte. */
  lemma FullHeightInvertibleIff(h: Hasher, proof: seq<bytes>)
    requires |proof| == HASH_BITS - 1
    ensures Decompacted(h, Compacted(h, proof), HASH_BITS) == Ok(FitAll(proof)) <==> DefaultsMirrored(h, proof)
  {
    hide Decompacted, Compacted, IsDefault, EntryReadFor, FitAll;
    CompactionInvertibleIff(h, proof);
    if DefaultsAgree(h, proof) {
      forall j: nat | j < |proof| ensures MirroredAt(h, proof, j) {
        EntryReadAtFullHeight(j);
        if j % 8 == 7 {
          NoEighthEntry(h, proof, j);
        } else {
          assert IsDefault(h, proof, j) <==> IsDefault(h, proof, EntryReadFor(|proof|, j));
        }
      }
    }
    if DefaultsMirrored(h, proof) {
      forall j: nat | j < |proof|
        ensures var q := EntryReadFor(|proof|, j);
                IsDefault(h, proof, j) <==> q < |proof| && IsDefault(h, proof, q)
      {
        EntryReadAtFullHeight(j);
        assert MirroredAt(h, proof, j);
        if j % 8 == 7 && j + 8 < |proof| {
          assert MirroredAt(h, proof, j + 8);
        }
      }
    }
  }

  /** Two defaults that mirror each other do survive. */
  lemma CompactionKeepsZeroAndSix(h: Hasher, proof: seq<bytes>)
    requires |proof| == HASH_BITS - 1
    requires forall i: nat :: i < |proof| ==> (IsDefault(h, proof, i) <==> i == 0 || i == 6)
    ensures Decompacted(h, Compacted(h, proof), HASH_BITS) == Ok(FitAll(proof))
  {
    hide Decompacted, Compacted, IsDefault, FitAll;
    FullHeightInvertibleIff(h, proof);
  }

  lemma {:induction false} NothingCompacted(h: Hasher, proof: seq<bytes>, n: nat)
    requires n <= |proof| < HASH_BITS && forall i: nat :: i < |proof| ==> !IsDefault(h, proof, i)
    ensures Mask(h, proof, n) == Zeros(32) && Kept(h, proof, n) == FitAll(proof[..n])
  {
    if n > 0 {
      NothingCompacted(h, proof, n - 1);
      assert FitAll(proof[..n]) == FitAll(proof[..n - 1]) + [Fit(proof[n - 1])];
    }
  }

  lemma ZeroMaskReadsLeft(i: nat, height: nat)
    requires height >= 2
    ensures IsLeft(Zeros(32), i, height)
  {
    FromBytesZeros(32);
    LshZero(i);
    RshSmall(0, height - 2);
  }

  /** One compacted entry is enough to lose the proof: the bit of entry 0 of a full-height proof is read for entry 6. */
  lemma CompactionLosesEntryZero(h: Hasher, proof: seq<bytes>)
    requires |proof| == HASH_BITS - 1 && IsDefault(h, proof, 0)
    requires forall i: nat :: 0 < i < |proof| ==> !IsDefault(h, proof, i)
    ensures Decompacted(h, Compacted(h, proof), HASH_BITS) != Ok(FitAll(proof))
  {
    hide Decompacted, Compacted, IsDefault, FitAll;
    FullHeightInvertibleIff(h, proof);
    assert !MirroredAt(h, proof, 0);
  }
}
