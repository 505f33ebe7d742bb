/** The Merkle tree over one block's transitions (types/rollup_block_info.go). */
module BlockTrees {
  import opened ByteStrings
  import opened Errors
  import opened Namespaces
  import opened MemoryDb
  import opened PathBits
  import opened MerkleTree
  import opened TrieStore
  import opened SparseMerkleTrees
  import opened Proofs
  import opened TreeRuns
  import opened Blocks

  datatype TransitionInclusionProof = TransitionInclusionProof(blockNumber: int, transitionIndex: nat,
          siblings: seq<bytes>)

  datatype IncludedTransition = IncludedTransition(transition: bytes, inclusionProof: TransitionInclusionProof)

  /** The height of a block's tree is the number of its transitions. */
  function BlockConfig(n: nat): TreeConfig {
    TreeConfig(Some(ROLLUP_BLOCK_TRIE), n, false)
  }

  /** int64 of a uint64. */
  function Int64(n: nat): int {
    if n % 0x1_0000_0000_0000_0000 < 0x8000_0000_0000_0000 then n % 0x1_0000_0000_0000_0000
    else n % 0x1_0000_0000_0000_0000 - 0x1_0000_0000_0000_0000
  }

  // ---------------------------------------------------------------- the tree as a function

  /** The tree after the first k transitions; the first failing update ends the construction. */
  function BlockTreeUpTo(h: Hasher, encoded: seq<bytes>, k: nat): Result<TreeState>
    requires 1 <= |encoded| <= HASH_BITS && k <= |encoded|
  {
    var cfg := BlockConfig(|encoded|);
    if k == 0 then Ok(InitialState(h, cfg, map[], {}))
    else
      var st :- BlockTreeUpTo(h, encoded, k - 1);
      var _ :- UpdateResult(h, cfg, st.store, ToBytes(k - 1), encoded[k - 1], st.root);
      Ok(Updated(h, cfg, st, ToBytes(k - 1), encoded[k - 1]))
  }

  /** Without transitions, or with more than 256, the table of empty subtrees is indexed out of range. */
  function BlockTree(h: Hasher, encoded: seq<bytes>): Result<TreeState> {
    if |encoded| == 0 || |encoded| > HASH_BITS then Err(Panic) else BlockTreeUpTo(h, encoded, |encoded|)
  }

  function Included(h: Hasher, block: RollupBlock, i: nat): Result<IncludedTransition> {
    var encoded := Encoded(block.transitions);
    var st :- BlockTree(h, encoded);
    var proof :- ProofOf(h, BlockConfig(|encoded|), st.store, ToBytes(i), st.root);
    if i >= |encoded| then Err(Panic)
    else Ok(IncludedTransition(encoded[i], TransitionInclusionProof(Int64(block.blockNumber), i, FitAll(proof))))
  }

  // ---------------------------------------------------------------- the object

  class RollupBlockInfo {
    const blockNumber: int
    const encodedTransitions: seq<bytes>
    const smt: SparseMerkleTree

    constructor (blockNumber: int, encodedTransitions: seq<bytes>, smt: SparseMerkleTree)
      ensures this.blockNumber == blockNumber && this.encodedTransitions == encodedTransitions && this.smt == smt
    {
      this.blockNumber, this.encodedTransitions, this.smt := blockNumber, encodedTransitions, smt;
    }

    ghost predicate Describes(h: Hasher, block: RollupBlock)
      reads smt, smt.db
    {
      && encodedTransitions == Encoded(block.transitions) && blockNumber == Int64(block.blockNumber)
      && smt.Valid() && smt.hasher == h && smt.Config() == BlockConfig(|encodedTransitions|)
      && BlockTree(h, encodedTransitions) == Ok(smt.State())
    }

    method GetNumTransitions() returns (n: nat)
      ensures n == |encodedTransitions|
    {
      n := |encodedTransitions|;
    }

    method GetTransitionInclusionProof(transitionIndex: nat) returns (r: Result<TransitionInclusionProof>)
      requires smt.Valid()
      ensures r.Ok? <==> ProofOf(smt.hasher, smt.Config(), smt.db.store, ToBytes(transitionIndex), smt.root).Ok?
      ensures r.Ok? ==> r.value == TransitionInclusionProof(blockNumber, transitionIndex,
                          FitAll(ProofOf(smt.hasher, smt.Config(), smt.db.store, ToBytes(transitionIndex),
                            smt.root).value))
      ensures r.Err? ==>
                ProofOf(smt.hasher, smt.Config(), smt.db.store, ToBytes(transitionIndex), smt.root) == Err(r.error)
    {
      hide Backed, ProofOf;
      var proofData :- smt.Prove(ToBytes(transitionIndex));
      var siblings := ConvertToInclusionProof(proofData);
      r := Ok(TransitionInclusionProof(blockNumber, transitionIndex, siblings));
    }

    method GetIncludedTransition(transitionIndex: nat, ghost h: Hasher, ghost block: RollupBlock)
      returns (r: Result<IncludedTransition>)
      requires Describes(h, block)
      ensures r == Included(h, block, transitionIndex)
    {
      hide Backed, ProofOf, BlockTree;
      var inclusionProof :- GetTransitionInclusionProof(transitionIndex);
      if transitionIndex >= |encodedTransitions| {
        return Err(Panic);
      }
      r := Ok(IncludedTransition(encodedTransitions[transitionIndex], inclusionProof));
    }
  }

  method EmptyBlockTree(hasher: Hasher, height: nat) returns (smt: SparseMerkleTree)
    requires 1 <= height <= HASH_BITS
    ensures fresh(smt) && fresh(smt.db) && smt.Valid() && smt.hasher == hasher && smt.Config() == BlockConfig(height)
    ensures smt.State() == InitialState(hasher, BlockConfig(height), map[], {})
  {
    hide Backed, DefaultNode, WriteAll, DefaultWrites;
    var db := new DB();
    FreshBacked(hasher);
    assert PrependNamespace(Some(ROLLUP_BLOCK_TRIE), INIT_MARKER) !in db.store;
    smt := new SparseMerkleTree(db, Some(ROLLUP_BLOCK_TRIE), hasher, None, height, false, {});
  }

  /** Builds a block's tree over a store of its own, one update per transition. */
  method NewRollupBlockInfo(hasher: Hasher, block: RollupBlock) returns (r: Result<RollupBlockInfo>)
    ensures r.Ok? <==> BlockTree(hasher, Encoded(block.transitions)).Ok?
    ensures r.Ok? ==> fresh(r.value) && fresh(r.value.smt) && r.value.Describes(hasher, block)
    ensures r.Err? ==> BlockTree(hasher, Encoded(block.transitions)) == Err(r.error)
  {
    hide Backed, InitialState, Updated, UpdateResult, Encoded, Int64, BlockTreeUpTo, Transitions.Serialize;
    var transitions := block.transitions;
    var numTransitions := |transitions|;
    ghost var encoded := Encoded(transitions);
    if numTransitions == 0 || numTransitions > HASH_BITS {
      return Err(Panic);
    }
    var smt := EmptyBlockTree(hasher, numTransitions);
    BuildFirst(hasher, encoded);
    var encodedTransitions: seq<bytes> := seq(numTransitions, _ => []);
    var i := 0;
    while i < numTransitions
      invariant 0 <= i <= numTransitions
      invariant |encodedTransitions| == numTransitions
      invariant forall j :: 0 <= j < i ==> encodedTransitions[j] == encoded[j]
      invariant smt.Valid()
      invariant BlockTreeUpTo(hasher, encoded, i) == Ok(smt.State())
    {
      EncodedAt(transitions, i);
      var encodedTransition := Transitions.Serialize(transitions[i]);
      encodedTransitions := encodedTransitions[i := encodedTransition];
      BuildNext(hasher, encoded, i, smt.State());
      var updated := smt.Update(ToBytes(i), encodedTransition);
      if updated.Err? {
        return Err(updated.error);
      }
      i := i + 1;
    }
    assert encodedTransitions == encoded;
    var info := new RollupBlockInfo(Int64(block.blockNumber), encodedTransitions, smt);
    r := Ok(info);
  }

  lemma EncodedAt(transitions: seq<Transitions.Transition>, i: nat)
    requires i < |transitions|
    ensures Encoded(transitions)[i] == Transitions.Serialize(transitions[i])
  {
  }

  lemma FreshBacked(h: Hasher)
    ensures Backed(h, Some(ROLLUP_BLOCK_TRIE), map[], {})
  {
  }

  lemma {:induction false} BuildStops(h: Hasher, encoded: seq<bytes>, k: nat, error: Error)
    requires 1 <= |encoded| <= HASH_BITS && k <= |encoded| && BlockTreeUpTo(h, encoded, k) == Err(error)
    ensures BlockTreeUpTo(h, encoded, |encoded|) == Err(error)
    decreases |encoded| - k
  {
    hide InitialState, Updated, UpdateResult;
    if k < |encoded| {
      BuildStops(h, encoded, k + 1, error);
    }
  }

  lemma BuildFirst(h: Hasher, encoded: seq<bytes>)
    requires 1 <= |encoded| <= HASH_BITS
    ensures BlockTreeUpTo(h, encoded, 0) == Ok(InitialState(h, BlockConfig(|encoded|), map[], {}))
  {
    hide InitialState;
  }

  lemma BuildNext(h: Hasher, encoded: seq<bytes>, k: nat, st: TreeState)
    requires k < |encoded| <= HASH_BITS && BlockTreeUpTo(h, encoded, k) == Ok(st)
    ensures var cfg := BlockConfig(|encoded|);
            var result := UpdateResult(h, cfg, st.store, ToBytes(k), encoded[k], st.root);
            && (result.Ok? ==> BlockTreeUpTo(h, encoded, k + 1) == Ok(Updated(h, cfg, st, ToBytes(k), encoded[k])))
            && (result.Err? ==> BlockTreeUpTo(h, encoded, |encoded|) == Err(result.error))
  {
    hide InitialState, Updated, UpdateResult;
    var result := UpdateResult(h, BlockConfig(|encoded|), st.store, ToBytes(k), encoded[k], st.root);
    if result.Err? {
      BuildStops(h, encoded, k + 1, result.error);
    }
  }

  // ---------------------------------------------------------------- every transition keeps its own leaf

  /** The same construction with failures skipped; used to name the strings it hashes. */
  function BlockRun(h: Hasher, encoded: seq<bytes>, k: nat): TreeState
    requires 1 <= |encoded| <= HASH_BITS && k <= |encoded|
  {
    var cfg := BlockConfig(|encoded|);
    if k == 0 then InitialState(h, cfg, map[], {})
    else Updated(h, cfg, BlockRun(h, encoded, k - 1), ToBytes(k - 1), encoded[k - 1])
  }

  /** Every string hashed while building the tree of a block. */
  function BlockStrings(h: Hasher, block: RollupBlock): set<bytes> {
    var encoded := Encoded(block.transitions);
    if 1 <= |encoded| <= HASH_BITS then BlockRun(h, encoded, |encoded|).recorded else {}
  }

  function BlockLeaves(encoded: seq<bytes>, k: nat): map<nat, bytes>
    requires k <= |encoded|
  {
    map i: nat | i < k :: encoded[i]
  }

  function BlockMerkle(encoded: seq<bytes>, k: nat): (t: Tree)
    requires 1 <= |encoded| && k <= |encoded|
    ensures Perfect(t, |encoded| - 1)
  {
    TreeOf(|encoded| - 1, 0, BlockLeaves(encoded, k))
  }

  function BlockRoot(h: Hasher, block: RollupBlock): Digest
    requires block.transitions != []
  {
    HashOf(h, BlockMerkle(Encoded(block.transitions), |block.transitions|))
  }

  /** A tree as high as it has transitions has room for all of them. */
  lemma RoomForAll(n: nat)
    requires n >= 1
    ensures n <= Pow2(n - 1)
  {
    Pow2Exceeds(n - 1);
  }

  lemma IndexKeyPath(h: Hasher, n: nat, i: nat)
    requires i < n <= HASH_BITS
    ensures KeyPath(h, BlockConfig(n), ToBytes(i)) == Ok(Bits(i, n - 1)) && Index(Bits(i, n - 1)) == i
  {
    hide IsLeft;
    assert Pow2(8) == 256 by { Abi.Pow2Of8(); }
    ToBytesLength(i, 1);
    FromToBytes(i);
    PaddingKeepsPath(ToBytes(i), 32 - |ToBytes(i)|, n);
    IsLeftReadsBits(ToBytes(i), n);
    IndexOfBits(i, n - 1);
    RoomForAll(n);
    SmallMod(i, Pow2(n - 1));
  }

  lemma SmallMod(i: nat, m: nat)
    requires i < m
    ensures i % m == i
  {
  }

  lemma PutNextLeaf(encoded: seq<bytes>, k: nat)
    requires k < |encoded| <= HASH_BITS
    ensures Put(BlockMerkle(encoded, k), Bits(k, |encoded| - 1), encoded[k]) == BlockMerkle(encoded, k + 1)
  {
    hide TreeOf, Put, Perfect, Bits, Pow2;
    var path := Bits(k, |encoded| - 1);
    PutTreeOf(|encoded| - 1, 0, BlockLeaves(encoded, k), path, encoded[k]);
    LeafIndexIsIndex(path);
    IndexKeyPath(_ => Zeros(32), |encoded|, k);
    assert BlockLeaves(encoded, k)[k := encoded[k]] == BlockLeaves(encoded, k + 1);
  }

  lemma {:induction false} BlockTracks(h: Hasher, encoded: seq<bytes>, k: nat)
    requires 1 <= |encoded| <= HASH_BITS && k <= |encoded|
    requires CollisionFree(h, BlockRun(h, encoded, k).recorded)
    ensures Tracks(h, BlockConfig(|encoded|), BlockRun(h, encoded, k), BlockMerkle(encoded, k), AllPaths(|encoded| - 1))
    ensures BlockTreeUpTo(h, encoded, k) == Ok(BlockRun(h, encoded, k))
  {
    hide InitialState, Updated, UpdateResult, UpdateWrites, CollisionFree, Tracks, TreeOf, Put, Perfect, KeyPath, Bits;
    var n := |encoded|;
    var cfg := BlockConfig(n);
    if k == 0 {
      FreshBacked(h);
      InitialTracks(h, cfg, map[], {});
      assert BlockLeaves(encoded, 0) == map[];
      TreeOfNothing(n - 1, 0);
    } else {
      var st, st' := BlockRun(h, encoded, k - 1), BlockRun(h, encoded, k);
      UpdateRecords(h, cfg, st, ToBytes(k - 1), encoded[k - 1]);
      CollisionFreeSubset(h, st.recorded, st'.recorded);
      BlockTracks(h, encoded, k - 1);
      IndexKeyPath(h, n, k - 1);
      UpdateTracks(h, cfg, st, BlockMerkle(encoded, k - 1), AllPaths(n - 1), ToBytes(k - 1), encoded[k - 1]);
      WritesDecideResult(h, cfg, st, ToBytes(k - 1), encoded[k - 1]);
      PutNextLeaf(encoded, k - 1);
    }
  }

  lemma WritesDecideResult(h: Hasher, cfg: TreeConfig, st: TreeState, key: bytes, value: bytes)
    requires cfg.height >= 1
    ensures UpdateWrites(h, cfg, st.store, key, value, st.root).Ok? ==>
            UpdateResult(h, cfg, st.store, key, value, st.root).Ok?
  {
    hide UpdateWrites;
  }

  /** Leaf i of the finished tree is transition i. */
  lemma LeafKept(encoded: seq<bytes>, i: nat)
    requires i < |encoded| <= HASH_BITS
    ensures Get(BlockMerkle(encoded, |encoded|), Bits(i, |encoded| - 1)) == encoded[i]
  {
    hide TreeOf, Perfect, Bits, Get, Pow2;
    var n := |encoded|;
    IndexKeyPath(_ => Zeros(32), n, i);
    GetTreeOf(n - 1, 0, BlockLeaves(encoded, n), Bits(i, n - 1));
    LeafIndexIsIndex(Bits(i, n - 1));
  }

  /** A block number as the contract's argument carries it: itself, or 2^64 less from 2^63 on. */
  predicate NumberCarried(blockNumber: nat, carried: int) {
    && (blockNumber < 0x8000_0000_0000_0000 ==> carried == blockNumber)
    && (0x8000_0000_0000_0000 <= blockNumber < 0x1_0000_0000_0000_0000 ==>
          carried == blockNumber - 0x1_0000_0000_0000_0000)
  }

  lemma Int64Carries(n: nat)
    ensures NumberCarried(n, Int64(n))
  {
  }

  /** The included transition is transition i of the block and folds along the bits of i to the block's root. */
  ghost predicate FoldsToBlock(h: Hasher, block: RollupBlock, i: nat, included: IncludedTransition)
    requires i < |block.transitions|
  {
    && included.transition == Transitions.Serialize(block.transitions[i])
    && NumberCarried(block.blockNumber, included.inclusionProof.blockNumber)
    && included.inclusionProof.transitionIndex == i
    && Folds(h, Bits(i, |block.transitions| - 1), included.transition, included.inclusionProof.siblings,
       BlockRoot(h, block))
  }

  lemma IncludedFromTree(h: Hasher, block: RollupBlock, i: nat)
    requires i < |block.transitions| <= HASH_BITS && CollisionFree(h, BlockStrings(h, block))
    ensures var encoded := Encoded(block.transitions);
            Included(h, block, i) ==
            Ok(IncludedTransition(encoded[i], TransitionInclusionProof(Int64(block.blockNumber), i,
                 Reverse(Siblings(h, BlockMerkle(encoded, |encoded|), Bits(i, |encoded| - 1))))))
  {
    hide InitialState, Updated, BlockMerkle, Perfect, KeyPath, Bits, BlockRun, BlockTreeUpTo, CollisionFree, Tracks,
      Encoded, Lookup, SideNodes, Folds, Siblings, FitAll, Int64;
    var encoded := Encoded(block.transitions);
    var n := |encoded|;
    BlockTracks(h, encoded, n);
    IndexKeyPath(h, n, i);
    ProofComplete(h, BlockConfig(n), BlockRun(h, encoded, n), BlockMerkle(encoded, n), AllPaths(n - 1), Bits(i, n - 1));
    FitReversed(Siblings(h, BlockMerkle(encoded, n), Bits(i, n - 1)));
  }

  /**
   Block trees separate their transitions: with 1 to 256 of them, every transition keeps a leaf of its own to
   the end, and what is handed out for i folds exactly transition i to the final root.
   */
  lemma BlockTreeSeparates(h: Hasher, block: RollupBlock, i: nat)
    requires i < |block.transitions| <= HASH_BITS && CollisionFree(h, BlockStrings(h, block))
    ensures Included(h, block, i).Ok? && FoldsToBlock(h, block, i, Included(h, block, i).value)
  {
    hide BlockMerkle, Perfect, Bits, BlockStrings, CollisionFree, Folds, Siblings, Encoded, Included, Int64;
    var encoded := Encoded(block.transitions);
    Int64Carries(block.blockNumber);
    IncludedFromTree(h, block, i);
    EncodedAt(block.transitions, i);
    LeafKept(encoded, i);
    TreeProofFolds(h, BlockMerkle(encoded, |encoded|), Bits(i, |encoded| - 1));
  }
}
