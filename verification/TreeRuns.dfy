/** What every run of tree operations keeps: agreement with a map, persistence, and proofs that verify. */
module TreeRuns {
  import opened ByteStrings
  import opened Errors
  import opened Namespaces
  import opened PathBits
  import opened MerkleTree
  import opened TrieStore
  import opened SparseMerkleTrees
  import opened Proofs

  ghost function AllPaths(levels: nat): iset<Path> {
    iset path: Path | |path| == levels
  }

  /** The stored tree is t, with the given paths of it present in the store. */
  ghost predicate Tracks(h: Hasher, cfg: TreeConfig, st: TreeState, t: Tree, paths: iset<Path>) {
    && cfg.height >= 1 && Perfect(t, cfg.height - 1)
    && st.root == HashOf(h, t)
    && Backed(h, cfg.namespace, st.store, st.recorded)
    && (forall p: Path :: p in paths ==> |p| == cfg.height - 1)
    && (forall p: Path :: p in paths ==> OnPath(h, st.recorded, t, p))
  }

  lemma UpdateRecords(h: Hasher, cfg: TreeConfig, st: TreeState, key: bytes, value: bytes)
    requires cfg.height >= 1
    ensures var xs := UpdateWrites(h, cfg, st.store, key, value, st.root);
            Updated(h, cfg, st, key, value).recorded == st.recorded + if xs.Ok? then ToSet(xs.value) else {}
    ensures st.recorded <= Updated(h, cfg, st, key, value).recorded
  {
    hide UpdateWrites, WriteAll;
  }

  /** An update of a present path is an update of one leaf of the mathematical tree. */
  lemma UpdateTracks(h: Hasher, cfg: TreeConfig, st: TreeState, t: Tree, paths: iset<Path>, key: bytes, value: bytes)
    requires Tracks(h, cfg, st, t, paths) && KeyPath(h, cfg, key).Ok? && KeyPath(h, cfg, key).value in paths
    requires CollisionFree(h, st.recorded)
    ensures var path := KeyPath(h, cfg, key).value;
            && UpdateWrites(h, cfg, st.store, key, value, st.root) ==
               Ok(FoldPreimages(h, path, value, Siblings(h, t, path)))
            && Tracks(h, cfg, Updated(h, cfg, st, key, value), Put(t, path, value), paths)
  {
    hide FoldPreimages, IsLeft, Backed;
    var path := KeyPath(h, cfg, key).value;
    SidesOnPath(h, cfg.namespace, st.store, st.recorded, t, path);
    FitDigests(Siblings(h, t, path));
    var xs := FoldPreimages(h, path, value, Siblings(h, t, path));
    var st' := Record(h, cfg, st, xs);
    BackedWriteAll(h, cfg.namespace, st.store, st.recorded, xs);
    FoldIsPut(h, t, path, value);
    forall p: Path | p in paths
      ensures OnPath(h, st'.recorded, Put(t, path, value), p)
    {
      PutOnPath(h, st.recorded, st'.recorded, t, path, value, p);
    }
  }

  /**
   Completeness: for a present path the value and the sibling list read from the store are those
   of the tree, and the list folds that value to the root.
   */
  lemma ProofComplete(h: Hasher, cfg: TreeConfig, st: TreeState, t: Tree, paths: iset<Path>, path: Path)
    requires Tracks(h, cfg, st, t, paths) && path in paths && CollisionFree(h, st.recorded)
    ensures Lookup(cfg.namespace, st.store, path, st.root) == Ok(Get(t, path))
    ensures SideNodes(cfg.namespace, st.store, path, st.root) == Ok(Siblings(h, t, path))
    ensures Folds(h, path, Get(t, path), Reverse(Siblings(h, t, path)), st.root)
  {
    LookupOnPath(h, cfg.namespace, st.store, st.recorded, t, path);
    SidesOnPath(h, cfg.namespace, st.store, st.recorded, t, path);
    TreeProofFolds(h, t, path);
  }

  /** Of a tree with hashed keys every proof is accepted by VerifyProof, which hashes the key it is given. */
  lemma ProvedVerifies(h: Hasher, cfg: TreeConfig, st: TreeState, t: Tree, paths: iset<Path>, key: bytes)
    requires cfg.hashKey && Tracks(h, cfg, st, t, paths) && PathOf(h(key), cfg.height) in paths
             && CollisionFree(h, st.recorded)
    ensures var proof, value := ProofOf(h, cfg, st.store, key, st.root), ReadKey(h, cfg, st.store, key, st.root);
            proof.Ok? && value.Ok? && Folds(h, PathOf(h(key), cfg.height), value.value, proof.value, st.root)
  {
    hide Lookup, SideNodes, IsLeft, FoldPreimages, Backed, OnPath;
    ProofComplete(h, cfg, st, t, paths, PathOf(h(key), cfg.height));
  }

  lemma TreeProofFolds(h: Hasher, t: Tree, path: Path)
    requires Perfect(t, |path|)
    ensures Folds(h, path, Get(t, path), Reverse(Siblings(h, t, path)), HashOf(h, t))
  {
    hide FoldPreimages;
    ReadingReversed(Siblings(h, t, path));
    FoldIsRoot(h, t, path);
  }

  /** A sibling list handed out reversed is folded in its own order again. */
  lemma ReadingReversed(sides: seq<Digest>)
    ensures FitAll(Reverse(Reverse(sides))) == sides
  {
    assert Reverse(Reverse(sides)) == sides;
    FitDigests(sides);
  }

  // ---------------------------------------------------------------- new trees

  lemma {:induction false} DefaultOnPath(h: Hasher, levels: nat, path: Path, rec: set<bytes>)
    requires |path| == levels
    requires forall k: nat :: k <= levels ==> Preimage(h, DefaultTree(k)) in rec
    ensures OnPath(h, rec, DefaultTree(levels), path)
  {
    if levels > 0 { DefaultOnPath(h, levels - 1, path[1..], rec); }
  }

  lemma InitialTracks(h: Hasher, cfg: TreeConfig, store: Store, rec: set<bytes>)
    requires 1 <= cfg.height <= HASH_BITS && Backed(h, cfg.namespace, store, rec)
    ensures Tracks(h, cfg, InitialState(h, cfg, store, rec), DefaultTree(cfg.height - 1), AllPaths(cfg.height - 1))
  {
    hide Backed, DefaultTree, Preimage, OnPath;
    InitialBacked(h, cfg, store, rec);
    var xs := DefaultWrites(h, cfg.height);
    forall k: nat | k <= cfg.height - 1
      ensures Preimage(h, DefaultTree(k)) in rec + ToSet(xs)
    {
      assert xs[cfg.height - 1 - k] in xs;
    }
    forall p: Path | |p| == cfg.height - 1
      ensures OnPath(h, rec + ToSet(xs), DefaultTree(cfg.height - 1), p)
    {
      DefaultOnPath(h, cfg.height - 1, p, rec + ToSet(xs));
    }
  }

  // ---------------------------------------------------------------- runs over versions

  /** UpdateForRoot applied to the version-th root handed out so far; version 0 is the new tree. */
  datatype TreeOp = TreeOp(version: nat, key: bytes, value: bytes)

  datatype Forest = Forest(store: Store, recorded: set<bytes>, roots: seq<bytes>)

  function StepForest(h: Hasher, cfg: TreeConfig, f: Forest, op: TreeOp): Forest
    requires cfg.height >= 1
  {
    if op.version >= |f.roots| then f
    else
      match UpdateWrites(h, cfg, f.store, op.key, op.value, f.roots[op.version])
      case Err(_) => f
      case Ok(xs) =>
        Forest(WriteAll(h, cfg.namespace, f.store, xs), f.recorded + ToSet(xs), f.roots + [h(xs[cfg.height - 1])])
  }

  function RunForest(h: Hasher, cfg: TreeConfig, f: Forest, ops: seq<TreeOp>): Forest
    requires cfg.height >= 1
  {
    if ops == [] then f
    else StepForest(h, cfg, RunForest(h, cfg, f, ops[..|ops| - 1]), ops[|ops| - 1])
  }

  /** The same run on plain maps from leaf positions to values. */
  function StepMaps(h: Hasher, cfg: TreeConfig, maps: seq<map<nat, bytes>>, op: TreeOp): seq<map<nat, bytes>>
    requires cfg.height >= 1
  {
    if op.version >= |maps| || KeyPath(h, cfg, op.key).Err? then maps
    else maps + [maps[op.version][Index(KeyPath(h, cfg, op.key).value) := op.value]]
  }

  function RunMaps(h: Hasher, cfg: TreeConfig, ops: seq<TreeOp>): seq<map<nat, bytes>>
    requires cfg.height >= 1
  {
    if ops == [] then [map[]] else StepMaps(h, cfg, RunMaps(h, cfg, ops[..|ops| - 1]), ops[|ops| - 1])
  }

  ghost predicate ForestTracks(h: Hasher, cfg: TreeConfig, f: Forest, maps: seq<map<nat, bytes>>)
    requires cfg.height >= 1
  {
    && Backed(h, cfg.namespace, f.store, f.recorded) && |f.roots| == |maps|
    && forall i :: 0 <= i < |maps| ==>
         Tracks(h, cfg, TreeState(f.store, f.roots[i], f.recorded), TreeOf(cfg.height - 1, 0, maps[i]),
           AllPaths(cfg.height - 1))
  }

  lemma TracksMonotone(h: Hasher, cfg: TreeConfig, st: TreeState, st': TreeState, t: Tree, paths: iset<Path>)
    requires Tracks(h, cfg, st, t, paths) && st'.root == st.root && st.recorded <= st'.recorded
    requires Backed(h, cfg.namespace, st'.store, st'.recorded)
    ensures Tracks(h, cfg, st', t, paths)
  {
    hide Backed;
    forall p: Path | p in paths
      ensures OnPath(h, st'.recorded, t, p)
    {
      OnPathMonotone(h, st.recorded, st'.recorded, t, p);
    }
  }

  lemma StepTracks(h: Hasher, cfg: TreeConfig, f: Forest, maps: seq<map<nat, bytes>>, op: TreeOp)
    requires cfg.height >= 1 && ForestTracks(h, cfg, f, maps)
    requires CollisionFree(h, StepForest(h, cfg, f, op).recorded)
    ensures ForestTracks(h, cfg, StepForest(h, cfg, f, op), StepMaps(h, cfg, maps, op))
  {
    hide FoldPreimages, IsLeft, Backed, KeyPath, UpdateWrites, TreeOf, OnPath, Put, WriteAll, Index, LeafIndex;
    if op.version < |maps| && KeyPath(h, cfg, op.key).Ok? {
      var levels := cfg.height - 1;
      var path := KeyPath(h, cfg, op.key).value;
      var st := TreeState(f.store, f.roots[op.version], f.recorded);
      assert Tracks(h, cfg, st, TreeOf(levels, 0, maps[op.version]), AllPaths(levels));
      StepRecords(h, cfg, f, op);
      CollisionFreeSubset(h, f.recorded, StepForest(h, cfg, f, op).recorded);
      UpdateTracks(h, cfg, st, TreeOf(levels, 0, maps[op.version]), AllPaths(levels), op.key, op.value);
      PutTreeOf(levels, 0, maps[op.version], path, op.value);
      LeafIndexIsIndex(path);
      var f', maps' := StepForest(h, cfg, f, op), StepMaps(h, cfg, maps, op);
      forall i | 0 <= i < |maps'|
        ensures Tracks(h, cfg, TreeState(f'.store, f'.roots[i], f'.recorded), TreeOf(levels, 0, maps'[i]),
                AllPaths(levels))
      {
        if i < |maps| {
          TracksMonotone(h, cfg, TreeState(f.store, f.roots[i], f.recorded),
            TreeState(f'.store, f'.roots[i], f'.recorded),
                         TreeOf(levels, 0, maps[i]), AllPaths(levels));
        }
      }
    } else {
      NoWritesWithoutPath(h, cfg, f.store, op);
    }
  }

  lemma NoWritesWithoutPath(h: Hasher, cfg: TreeConfig, store: Store, op: TreeOp)
    requires cfg.height >= 1
    ensures KeyPath(h, cfg, op.key).Err? ==> forall root :: UpdateWrites(h, cfg, store, op.key, op.value, root).Err?
  {
  }

  lemma StepRecords(h: Hasher, cfg: TreeConfig, f: Forest, op: TreeOp)
    requires cfg.height >= 1
    ensures f.recorded <= StepForest(h, cfg, f, op).recorded
  {
    hide UpdateWrites, WriteAll;
  }

  lemma {:induction false} RecordedGrows(h: Hasher, cfg: TreeConfig, f: Forest, ops: seq<TreeOp>)
    requires cfg.height >= 1
    ensures f.recorded <= RunForest(h, cfg, f, ops).recorded
  {
    if ops != [] { RecordedGrows(h, cfg, f, ops[..|ops| - 1]); }
  }

  function NewForest(h: Hasher, cfg: TreeConfig, store: Store, rec: set<bytes>): Forest
    requires 1 <= cfg.height <= HASH_BITS
  {
    var st := InitialState(h, cfg, store, rec);
    Forest(st.store, st.recorded, [st.root])
  }

  lemma {:induction false} RunTracks(h: Hasher, cfg: TreeConfig, store: Store, rec: set<bytes>, ops: seq<TreeOp>)
    requires 1 <= cfg.height <= HASH_BITS && Backed(h, cfg.namespace, store, rec)
    requires CollisionFree(h, RunForest(h, cfg, NewForest(h, cfg, store, rec), ops).recorded)
    ensures ForestTracks(h, cfg, RunForest(h, cfg, NewForest(h, cfg, store, rec), ops), RunMaps(h, cfg, ops))
  {
    hide Backed, CollisionFree, StepForest, StepMaps, TreeOf, InitialState, Perfect;
    var f0 := NewForest(h, cfg, store, rec);
    if ops == [] {
      InitialTracks(h, cfg, store, rec);
      TreeOfNothing(cfg.height - 1, 0);
    } else {
      var init := ops[..|ops| - 1];
      var f := RunForest(h, cfg, f0, init);
      StepRecords(h, cfg, f, ops[|ops| - 1]);
      CollisionFreeSubset(h, f.recorded, RunForest(h, cfg, f0, ops).recorded);
      RunTracks(h, cfg, store, rec, init);
      StepTracks(h, cfg, f, RunMaps(h, cfg, init), ops[|ops| - 1]);
    }
  }

  /**
   Map refinement and persistence in one: after any run of updates, each from any root handed out
   before it, every root ever handed out is the Merkle root of its own map, answers every lookup
   with that map's entry, and proves that entry, present or absent.
   */
  lemma EveryRootIsAMap(h: Hasher, cfg: TreeConfig, store: Store, rec: set<bytes>, ops: seq<TreeOp>, i: nat, path: Path)
    requires 1 <= cfg.height <= HASH_BITS && Backed(h, cfg.namespace, store, rec) && |path| == cfg.height - 1
    requires CollisionFree(h, RunForest(h, cfg, NewForest(h, cfg, store, rec), ops).recorded)
    requires i < |RunMaps(h, cfg, ops)|
    ensures var f, maps := RunForest(h, cfg, NewForest(h, cfg, store, rec), ops), RunMaps(h, cfg, ops);
            && |f.roots| == |maps|
            && f.roots[i] == HashOf(h, TreeOf(cfg.height - 1, 0, maps[i]))
            && Lookup(cfg.namespace, f.store, path, f.roots[i]) == Ok(LeafAt(maps[i], Index(path)))
            && SideNodes(cfg.namespace, f.store, path, f.roots[i]).Ok?
            && Folds(h, path, LeafAt(maps[i], Index(path)),
                     Reverse(SideNodes(cfg.namespace, f.store, path, f.roots[i]).value), f.roots[i])
  {
    hide FoldPreimages, IsLeft, Backed, CollisionFree, TreeOf;
    var f, maps := RunForest(h, cfg, NewForest(h, cfg, store, rec), ops), RunMaps(h, cfg, ops);
    RunTracks(h, cfg, store, rec, ops);
    var t := TreeOf(cfg.height - 1, 0, maps[i]);
    ProofComplete(h, cfg, TreeState(f.store, f.roots[i], f.recorded), t, AllPaths(cfg.height - 1), path);
    GetTreeOf(cfg.height - 1, 0, maps[i], path);
    LeafIndexIsIndex(path);
  }

  /** A root's answers are the same right after it was made and after any further updates. */
  lemma AnswersPersist(h: Hasher, cfg: TreeConfig, store: Store, rec: set<bytes>, ops: seq<TreeOp>, later: seq<TreeOp>,
                       i: nat, path: Path)
    requires 1 <= cfg.height <= HASH_BITS && Backed(h, cfg.namespace, store, rec) && |path| == cfg.height - 1
    requires CollisionFree(h, RunForest(h, cfg, NewForest(h, cfg, store, rec), ops + later).recorded)
    requires i < |RunForest(h, cfg, NewForest(h, cfg, store, rec), ops).roots|
    ensures var f0 := NewForest(h, cfg, store, rec);
            var f, g := RunForest(h, cfg, f0, ops), RunForest(h, cfg, f0, ops + later);
            && i < |g.roots| && g.roots[i] == f.roots[i]
            && Lookup(cfg.namespace, g.store, path, f.roots[i]) == Lookup(cfg.namespace, f.store, path, f.roots[i])
            && SideNodes(cfg.namespace, g.store, path, f.roots[i]) ==
               SideNodes(cfg.namespace, f.store, path, f.roots[i])
  {
    var f0 := NewForest(h, cfg, store, rec);
    var f, g := RunForest(h, cfg, f0, ops), RunForest(h, cfg, f0, ops + later);
    RunsCompose(h, cfg, f0, ops, later);
    RecordedGrows(h, cfg, f, later);
    RootsGrow(h, cfg, f, later);
    CollisionFreeSubset(h, f.recorded, g.recorded);
    RunTracks(h, cfg, store, rec, ops);
    RunTracks(h, cfg, store, rec, ops + later);
    MapsCompose(h, cfg, ops, later);
    var t := TreeOf(cfg.height - 1, 0, RunMaps(h, cfg, ops)[i]);
    ProofComplete(h, cfg, TreeState(f.store, f.roots[i], f.recorded), t, AllPaths(cfg.height - 1), path);
    ProofComplete(h, cfg, TreeState(g.store, g.roots[i], g.recorded), t, AllPaths(cfg.height - 1), path);
  }

  lemma {:induction false} RunsCompose(h: Hasher, cfg: TreeConfig, f: Forest, ops: seq<TreeOp>, later: seq<TreeOp>)
    requires cfg.height >= 1
    ensures RunForest(h, cfg, f, ops + later) == RunForest(h, cfg, RunForest(h, cfg, f, ops), later)
  {
    hide StepForest;
    if later == [] {
      assert ops + later == ops;
    } else {
      RunsCompose(h, cfg, f, ops, later[..|later| - 1]);
      assert (ops + later)[..|ops + later| - 1] == ops + later[..|later| - 1];
    }
  }

  lemma {:induction false} RootsGrow(h: Hasher, cfg: TreeConfig, f: Forest, later: seq<TreeOp>)
    requires cfg.height >= 1
    ensures f.roots <= RunForest(h, cfg, f, later).roots
  {
    if later != [] { RootsGrow(h, cfg, f, later[..|later| - 1]); }
  }

  lemma {:induction false} MapsCompose(h: Hasher, cfg: TreeConfig, ops: seq<TreeOp>, later: seq<TreeOp>)
    requires cfg.height >= 1
    ensures RunMaps(h, cfg, ops) <= RunMaps(h, cfg, ops + later)
  {
    if later == [] {
      assert ops + later == ops;
    } else {
      MapsCompose(h, cfg, ops, later[..|later| - 1]);
      assert (ops + later)[..|ops + later| - 1] == ops + later[..|later| - 1];
    }
  }

  // ---------------------------------------------------------------- partial trees

  /** The siblings AddBranches uses of a proof: as many as the tree has levels, from the end. */
  function BranchSides(height: nat, proof: seq<bytes>): (sides: seq<Digest>)
    requires 1 <= height <= |proof| + 1
    ensures |sides| == height - 1
  {
    FitAll(Reverse(proof)[..height - 1])
  }

  /** AddBranches with a proof that is long enough: the branch of a key is written below a new root. */
  function BranchAdded(h: Hasher, cfg: TreeConfig, st: TreeState, proof: seq<bytes>, key: bytes, value: bytes,
                       updateRoot: bool): TreeState
    requires 1 <= cfg.height <= |proof| + 1
  {
    var xs := FoldPreimages(h, PathOf(h(key), cfg.height), value, BranchSides(cfg.height, proof));
    var st' := Record(h, cfg, st, xs);
    if updateRoot then st'.(root := h(xs[cfg.height - 1])) else st'
  }

  /** The partial tree assembled from one tree's own proofs for the given keys, some of them moving the root. */
  function BranchesOf(h: Hasher, cfg: TreeConfig, t: Tree, keys: seq<bytes>, marks: seq<bool>): TreeState
    requires cfg.height >= 1 && Perfect(t, cfg.height - 1) && |marks| == |keys|
  {
    if keys == [] then TreeState(map[], [], {})
    else
      var n := |keys| - 1;
      var path := PathOf(h(keys[n]), cfg.height);
      BranchAdded(h, cfg, BranchesOf(h, cfg, t, keys[..n], marks[..n]), Reverse(Siblings(h, t, path)), keys[n],
        Get(t, path), marks[n])
  }

  lemma WholeProof(sides: seq<Digest>)
    ensures BranchSides(|sides| + 1, Reverse(sides)) == sides
  {
    assert Reverse(Reverse(sides))[..|sides|] == Reverse(Reverse(sides));
    ReadingReversed(sides);
  }

  ghost function KeyPaths(h: Hasher, height: nat, keys: seq<bytes>): iset<Path>
    requires height >= 1
  {
    iset i: nat | i < |keys| :: PathOf(h(keys[i]), height)
  }

  lemma BranchTracks(h: Hasher, cfg: TreeConfig, st: TreeState, t: Tree, key: bytes, mark: bool)
    requires cfg.height >= 1 && Perfect(t, cfg.height - 1) && Backed(h, cfg.namespace, st.store, st.recorded)
    ensures var path := PathOf(h(key), cfg.height);
            var st' := BranchAdded(h, cfg, st, Reverse(Siblings(h, t, path)), key, Get(t, path), mark);
            && Backed(h, cfg.namespace, st'.store, st'.recorded) && st.recorded <= st'.recorded
            && st'.root == (if mark then HashOf(h, t) else st.root)
            && OnPath(h, st'.recorded, t, path)
  {
    hide FoldPreimages, PathOf, Backed, BranchSides, WriteAll, Get, Siblings, HashOf, OnPath;
    var path := PathOf(h(key), cfg.height);
    var sides := Siblings(h, t, path);
    WholeProof(sides);
    var xs := FoldPreimages(h, path, Get(t, path), sides);
    BackedWriteAll(h, cfg.namespace, st.store, st.recorded, xs);
    FoldIsRoot(h, t, path);
    PutGet(t, path);
    WrittenOnPath(h, st.recorded + ToSet(xs), t, path, Get(t, path));
  }

  lemma {:induction false} BranchesTrack(h: Hasher, cfg: TreeConfig, t: Tree, keys: seq<bytes>, marks: seq<bool>)
    requires cfg.height >= 1 && Perfect(t, cfg.height - 1) && |marks| == |keys|
    ensures var st := BranchesOf(h, cfg, t, keys, marks);
            && Backed(h, cfg.namespace, st.store, st.recorded)
            && st.root == (if true in marks then HashOf(h, t) else [])
            && forall i :: 0 <= i < |keys| ==> OnPath(h, st.recorded, t, PathOf(h(keys[i]), cfg.height))
  {
    hide PathOf, Backed, BranchAdded, OnPath, Perfect, HashOf, Get, Siblings;
    if keys == [] {
      NothingBacked(h, cfg);
    } else {
      var n := |keys| - 1;
      var st, st' := BranchesOf(h, cfg, t, keys[..n], marks[..n]), BranchesOf(h, cfg, t, keys, marks);
      BranchesTrack(h, cfg, t, keys[..n], marks[..n]);
      BranchTracks(h, cfg, st, t, keys[n], marks[n]);
      assert marks == marks[..n] + [marks[n]];
      forall i | 0 <= i < n ensures OnPath(h, st'.recorded, t, PathOf(h(keys[i]), cfg.height)) {
        assert keys[..n][i] == keys[i];
        OnPathMonotone(h, st.recorded, st'.recorded, t, PathOf(h(keys[i]), cfg.height));
      }
    }
  }

  /** Folding a tree's own value along its own path writes only strings of that path. */
  lemma {:induction false} BranchStrings(h: Hasher, rec: set<bytes>, t: Tree, path: Path)
    requires Perfect(t, |path|) && OnPath(h, rec, t, path)
    ensures ToSet(FoldPreimages(h, path, Get(t, path), Siblings(h, t, path))) <= rec
    decreases |path|
  {
    var xs := FoldPreimages(h, path, Get(t, path), Siblings(h, t, path));
    FoldIsPut(h, t, path, Get(t, path));
    PutGet(t, path);
    if path != [] {
      var child := if path[0] then t.right else t.left;
      BranchStrings(h, rec, child, path[1..]);
      var below := FoldPreimages(h, path[1..], Get(child, path[1..]), Siblings(h, child, path[1..]));
      assert xs == below + [xs[|xs| - 1]];
      assert ToSet(xs) == ToSet(below) + {xs[|xs| - 1]};
    }
  }

  /** A partial tree holds no string its full tree does not hold. */
  lemma {:induction false} BranchesWithin(h: Hasher, cfg: TreeConfig, t: Tree, keys: seq<bytes>, marks: seq<bool>,
          rec: set<bytes>)
    requires cfg.height >= 1 && Perfect(t, cfg.height - 1) && |marks| == |keys|
    requires forall p: Path :: |p| == cfg.height - 1 ==> OnPath(h, rec, t, p)
    ensures BranchesOf(h, cfg, t, keys, marks).recorded <= rec
  {
    hide FoldPreimages, IsLeft, BranchSides, OnPath;
    if keys != [] {
      var n := |keys| - 1;
      var path := PathOf(h(keys[n]), cfg.height);
      BranchesWithin(h, cfg, t, keys[..n], marks[..n], rec);
      WholeProof(Siblings(h, t, path));
      BranchStrings(h, rec, t, path);
    }
  }

  lemma NothingBacked(h: Hasher, cfg: TreeConfig)
    ensures Backed(h, cfg.namespace, map[], {})
  {
  }

  datatype KeyValue = KeyValue(key: bytes, value: bytes)

  function RunUpdates(h: Hasher, cfg: TreeConfig, st: TreeState, ops: seq<KeyValue>): TreeState
    requires cfg.height >= 1
  {
    if ops == [] then st
    else Updated(h, cfg, RunUpdates(h, cfg, st, ops[..|ops| - 1]), ops[|ops| - 1].key, ops[|ops| - 1].value)
  }

  function PutAll(h: Hasher, cfg: TreeConfig, t: Tree, ops: seq<KeyValue>): (t': Tree)
    requires cfg.height >= 1 && Perfect(t, cfg.height - 1)
    ensures Perfect(t', cfg.height - 1)
  {
    if ops == [] then t
    else Put(PutAll(h, cfg, t, ops[..|ops| - 1]), PathOf(h(ops[|ops| - 1].key), cfg.height), ops[|ops| - 1].value)
  }

  /**
   A full tree and a partial one go through the same updates together: each keeps tracking the tree they both
   store, and the partial one keeps recording only strings of the full one.
   */
  lemma {:induction false} UpdatesTrack(h: Hasher, cfg: TreeConfig, full: TreeState, deepCfg: TreeConfig,
          deep: TreeState, t: Tree, paths: iset<Path>, ops: seq<KeyValue>)
    requires cfg.hashKey && deepCfg.hashKey && deepCfg.height == cfg.height >= 1 && Perfect(t, cfg.height - 1)
    requires Tracks(h, cfg, full, t, AllPaths(cfg.height - 1)) && Tracks(h, deepCfg, deep, t, paths)
    requires deep.recorded <= full.recorded
    requires forall op :: op in ops ==> PathOf(h(op.key), cfg.height) in paths
    requires CollisionFree(h, RunUpdates(h, cfg, full, ops).recorded)
    ensures var full', deep', t' := RunUpdates(h, cfg, full, ops), RunUpdates(h, deepCfg, deep, ops),
                                    PutAll(h, cfg, t, ops);
            && Tracks(h, cfg, full', t', AllPaths(cfg.height - 1)) && Tracks(h, deepCfg, deep', t', paths)
            && deep'.recorded <= full'.recorded
  {
    hide Tracks, CollisionFree, Updated, IsLeft, FoldPreimages, UpdateWrites, Put, Perfect;
    if ops != [] {
      var init, op := ops[..|ops| - 1], ops[|ops| - 1];
      var before, deepBefore := RunUpdates(h, cfg, full, init), RunUpdates(h, deepCfg, deep, init);
      UpdateRecords(h, cfg, before, op.key, op.value);
      CollisionFreeSubset(h, before.recorded, RunUpdates(h, cfg, full, ops).recorded);
      UpdatesTrack(h, cfg, full, deepCfg, deep, t, paths, init);
      assert op in ops;
      CollisionFreeSubset(h, deepBefore.recorded, before.recorded);
      UpdateTracks(h, cfg, before, PutAll(h, cfg, t, init), AllPaths(cfg.height - 1), op.key, op.value);
      UpdateTracks(h, deepCfg, deepBefore, PutAll(h, cfg, t, init), paths, op.key, op.value);
      UpdateRecords(h, deepCfg, deepBefore, op.key, op.value);
    }
  }

  function DeepRun(h: Hasher, deepCfg: TreeConfig, t: Tree, keys: seq<bytes>, marks: seq<bool>,
          ops: seq<KeyValue>): TreeState
    requires deepCfg.height >= 1 && Perfect(t, deepCfg.height - 1) && |marks| == |keys|
  {
    RunUpdates(h, deepCfg, BranchesOf(h, deepCfg, t, keys, marks), ops)
  }

  /**
   Partial-tree simulation: a subtree holding only the branches of some keys, taken from one root of a
   tree with hashed keys, goes through any updates of those keys with the full tree's roots, values and proofs,
   and never loses a node on their paths. At least one branch must have been added with updateRoot.
   */
  lemma PartialTreeSimulates(h: Hasher, cfg: TreeConfig, deepCfg: TreeConfig, full: TreeState, t: Tree,
                             keys: seq<bytes>, marks: seq<bool>, ops: seq<KeyValue>, key: bytes)
    requires cfg.hashKey && cfg.height >= 1 && deepCfg.hashKey && deepCfg.height == cfg.height
    requires Tracks(h, cfg, full, t, AllPaths(cfg.height - 1))
    requires |marks| == |keys| && true in marks
    requires key in keys && forall op :: op in ops ==> op.key in keys
    requires CollisionFree(h, RunUpdates(h, cfg, full, ops).recorded)
    ensures DeepRun(h, deepCfg, t, keys, marks, ops).root == RunUpdates(h, cfg, full, ops).root
    ensures var path := PathOf(h(key), cfg.height);
            var full', deep' := RunUpdates(h, cfg, full, ops), DeepRun(h, deepCfg, t, keys, marks, ops);
            && Lookup(deepCfg.namespace, deep'.store, path, deep'.root).Ok?
            && Lookup(deepCfg.namespace, deep'.store, path, deep'.root) ==
               Lookup(cfg.namespace, full'.store, path, full'.root)
            && SideNodes(deepCfg.namespace, deep'.store, path, deep'.root) ==
               SideNodes(cfg.namespace, full'.store, path, full'.root)
            && OnPath(h, deep'.recorded, PutAll(h, cfg, t, ops), path)
  {
    hide FoldPreimages, IsLeft, Backed, OnPath, Updated, BranchAdded, Lookup, SideNodes, Put;
    var path := PathOf(h(key), cfg.height);
    var paths := KeyPaths(h, cfg.height, keys);
    var deep := BranchesOf(h, deepCfg, t, keys, marks);
    BranchesTrack(h, deepCfg, t, keys, marks);
    BranchesWithin(h, deepCfg, t, keys, marks, full.recorded);
    assert Tracks(h, deepCfg, deep, t, paths);
    forall k | k in keys ensures PathOf(h(k), cfg.height) in paths {
      var i :| 0 <= i < |keys| && keys[i] == k;
    }
    UpdatesTrack(h, cfg, full, deepCfg, deep, t, paths, ops);
    var full', deep' := RunUpdates(h, cfg, full, ops), DeepRun(h, deepCfg, t, keys, marks, ops);
    CollisionFreeSubset(h, deep'.recorded, full'.recorded);
    ProofComplete(h, cfg, full', PutAll(h, cfg, t, ops), AllPaths(cfg.height - 1), path);
    ProofComplete(h, deepCfg, deep', PutAll(h, cfg, t, ops), paths, path);
  }

  // ---------------------------------------------------------------- compact proofs of stored trees

  /** The empty subtrees of every size, as hashed by the table of default nodes. */
  ghost function DefaultChain(h: Hasher): set<bytes> {
    set k: nat | k < HASH_BITS :: Preimage(h, DefaultTree(k))
  }

  /** A tree whose strings are all among the given ones and which has no 64-byte leaf. */
  ghost predicate Ordinary(h: Hasher, strings: set<bytes>, t: Tree, levels: nat) {
    && Perfect(t, levels)
    && forall p: Path :: |p| == levels ==> OnPath(h, strings, t, p) && |Get(t, p)| != 64
  }

  lemma OrdinaryChild(h: Hasher, strings: set<bytes>, t: Tree, levels: nat, bit: bool)
    requires Ordinary(h, strings, t, levels) && levels > 0
    ensures Ordinary(h, strings, if bit then t.right else t.left, levels - 1)
  {
    var child := if bit then t.right else t.left;
    forall p: Path | |p| == levels - 1
      ensures OnPath(h, strings, child, p) && |Get(child, p)| != 64
    {
      assert ([bit] + p)[1..] == p;
      assert OnPath(h, strings, t, [bit] + p) && |Get(t, [bit] + p)| != 64;
    }
  }

  lemma OrdinaryTop(h: Hasher, strings: set<bytes>, t: Tree, levels: nat)
    requires Ordinary(h, strings, t, levels)
    ensures Preimage(h, t) in strings
    ensures |Preimage(h, t)| != 64 || levels > 0
  {
    var down: Path := seq(levels, _ => false);
    assert OnPath(h, strings, t, down) && |Get(t, down)| != 64;
  }

  /** Trees of different heights have different roots, unless strings collide or a leaf is 64 bytes long. */
  lemma {:induction false} HeightsApart(h: Hasher, strings: set<bytes>, t: Tree, levels: nat, other: nat)
    requires Ordinary(h, strings, t, levels) && levels != other && other < HASH_BITS
    requires CollisionFree(h, strings) && DefaultChain(h) <= strings
    ensures HashOf(h, t) != HashOf(h, DefaultTree(other))
    decreases levels
  {
    OrdinaryTop(h, strings, t, levels);
    assert Preimage(h, DefaultTree(other)) in DefaultChain(h);
    if HashOf(h, t) == HashOf(h, DefaultTree(other)) {
      assert Preimage(h, t) == Preimage(h, DefaultTree(other));
      if levels > 0 && other > 0 {
        OrdinaryChild(h, strings, t, levels, false);
        HeightsApart(h, strings, t.left, levels - 1, other - 1);
        var child := HashOf(h, DefaultTree(other - 1));
        JoinInjective(true, HashOf(h, t.right), HashOf(h, t.left), child, child);
      }
    }
  }

  lemma SubtreeIsNotDefault(h: Hasher, strings: set<bytes>, t: Tree, levels: nat)
    requires Ordinary(h, strings, t, levels) && levels < HASH_BITS
    requires CollisionFree(h, strings) && DefaultChain(h) <= strings
    ensures HashOf(h, t) != DefaultNode(h, levels)
  {
    hide Ordinary, CollisionFree, DefaultChain, DefaultTree;
    HeightsApart(h, strings, t, levels, HASH_BITS - 1 - levels);
  }

  /** No sibling equals the table entry CompactProof compares it with: their subtrees differ in height. */
  lemma {:induction false} SiblingsAreNotDefaults(h: Hasher, strings: set<bytes>, t: Tree, path: Path, i: nat)
    requires Perfect(t, |path|) && Ordinary(h, strings, t, |path|) && i < |path| < HASH_BITS
    requires CollisionFree(h, strings) && DefaultChain(h) <= strings
    ensures Siblings(h, t, path)[|path| - 1 - i] != DefaultNode(h, i)
    decreases |path|
  {
    hide Ordinary, CollisionFree, DefaultChain, DefaultNode, HashOf;
    var side, child := if path[0] then t.left else t.right, if path[0] then t.right else t.left;
    OrdinaryChild(h, strings, t, |path|, path[0]);
    OrdinaryChild(h, strings, t, |path|, !path[0]);
    assert Siblings(h, t, path) == [HashOf(h, side)] + Siblings(h, child, path[1..]);
    if i == |path| - 1 {
      SubtreeIsNotDefault(h, strings, side, i);
    } else {
      SiblingsAreNotDefaults(h, strings, child, path[1..], i);
    }
  }

  lemma TrackedIsOrdinary(h: Hasher, cfg: TreeConfig, st: TreeState, t: Tree, strings: set<bytes>)
    requires cfg.height >= 1 && Tracks(h, cfg, st, t, AllPaths(cfg.height - 1)) && st.recorded <= strings
    requires forall p: Path :: |p| == cfg.height - 1 ==> |Get(t, p)| != 64
    ensures Ordinary(h, strings, t, cfg.height - 1)
  {
    hide Backed;
    forall p: Path | |p| == cfg.height - 1
      ensures OnPath(h, strings, t, p)
    {
      OnPathMonotone(h, st.recorded, strings, t, p);
    }
  }

  lemma ProvedHasNoDefaults(h: Hasher, cfg: TreeConfig, st: TreeState, t: Tree, path: Path)
    requires 1 <= cfg.height <= HASH_BITS && |path| == cfg.height - 1
    requires Tracks(h, cfg, st, t, AllPaths(cfg.height - 1))
    requires CollisionFree(h, st.recorded + DefaultChain(h))
    requires forall p: Path :: |p| == cfg.height - 1 ==> |Get(t, p)| != 64
    ensures forall i: nat :: i < |path| ==> !IsDefault(h, Reverse(Siblings(h, t, path)), i)
  {
    hide OnPath, Backed, DefaultNode, Ordinary, CollisionFree, DefaultChain, Get, Preimage;
    var strings := st.recorded + DefaultChain(h);
    TrackedIsOrdinary(h, cfg, st, t, strings);
    var proof := Reverse(Siblings(h, t, path));
    FitDigests(proof);
    forall i: nat | i < |path|
      ensures !IsDefault(h, proof, i)
    {
      SiblingsAreNotDefaults(h, strings, t, path, i);
      assert FitAll(proof)[i] == proof[i];
    }
  }

  /** Compacting a proof read from a tree sets no bit, so decompacting returns the proof unchanged. */
  lemma ProvedCompactRoundTrip(h: Hasher, cfg: TreeConfig, st: TreeState, t: Tree, path: Path)
    requires 1 <= cfg.height <= HASH_BITS && |path| == cfg.height - 1
    requires Tracks(h, cfg, st, t, AllPaths(cfg.height - 1))
    requires CollisionFree(h, st.recorded + DefaultChain(h))
    requires forall p: Path :: |p| == cfg.height - 1 ==> |Get(t, p)| != 64
    ensures var proof := Reverse(Siblings(h, t, path));
            Compacted(h, proof) == [Zeros(32)] + proof && Decompacted(h, Compacted(h, proof), cfg.height) == Ok(proof)
  {
    hide OnPath, Backed, CollisionFree, IsLeft, DefaultNode, IsDefault, Decompacted, Get, Preimage;
    var proof := Reverse(Siblings(h, t, path));
    ProvedHasNoDefaults(h, cfg, st, t, path);
    FitDigests(proof);
    TakeAll(proof);
    NothingCompacted(h, proof, |proof|);
    assert MaskReadsBack(h, proof, Zeros(32), 0) by {
      forall j: nat | j < |proof|
        ensures IsLeft(Zeros(32), j, |proof| + 1) <==> !IsDefault(h, proof, j)
      {
        ZeroMaskReadsLeft(j, |proof| + 1);
      }
    }
    CompactionReadsBackIff(h, proof);
  }

  /** Every compact proof made from a tree with hashed keys is accepted for the value stored at its key. */
  lemma ProvedCompactVerifies(h: Hasher, cfg: TreeConfig, st: TreeState, t: Tree, key: bytes)
    requires cfg.hashKey && 1 <= cfg.height <= HASH_BITS && Tracks(h, cfg, st, t, AllPaths(cfg.height - 1))
    requires CollisionFree(h, st.recorded + DefaultChain(h))
    requires forall p: Path :: |p| == cfg.height - 1 ==> |Get(t, p)| != 64
    ensures var compact, value := CompactProofOf(h, cfg, st.store, key, st.root),
            ReadKey(h, cfg, st.store, key, st.root);
            && compact.Ok? && value.Ok?
            && Decompacted(h, compact.value, cfg.height).Ok?
            && Folds(h, PathOf(h(key), cfg.height), value.value, Decompacted(h, compact.value, cfg.height).value,
               st.root)
  {
    hide FoldPreimages, IsLeft, Backed, OnPath, CollisionFree, Compacted, Decompacted, Lookup, SideNodes;
    var path := PathOf(h(key), cfg.height);
    CollisionFreeSubset(h, st.recorded, st.recorded + DefaultChain(h));
    ProofComplete(h, cfg, st, t, AllPaths(cfg.height - 1), path);
    ProvedCompactRoundTrip(h, cfg, st, t, path);
  }
}
