/** The sparse Merkle tree object over a key-value store (smt/smt.go, smt/defaultnodes.go). */
module SparseMerkleTrees {
  import opened ByteStrings
  import opened Errors
  import opened Namespaces
  import opened MemoryDb
  import opened PathBits
  import opened MerkleTree
  import opened TrieStore

  const HASH_BITS: nat := 256
  const INIT_MARKER: bytes := [105, 110, 105, 116]

  /** The hash of the empty subtree with HASH_BITS - 1 - i levels below its top. */
  function DefaultNode(h: Hasher, i: nat): Digest
    requires i < HASH_BITS
  {
    HashOf(h, DefaultTree(HASH_BITS - 1 - i))
  }

  lemma DefaultBelow(h: Hasher, i: nat)
    requires i < HASH_BITS - 1
    ensures DefaultNode(h, i) == h(DefaultNode(h, i + 1) + DefaultNode(h, i + 1))
  {
    var child := DefaultTree(HASH_BITS - 1 - (i + 1));
    assert DefaultTree(HASH_BITS - 1 - i) == Node(child, child);
  }

  lemma DefaultLeaf(h: Hasher)
    ensures DefaultNode(h, HASH_BITS - 1) == h(DEFAULT_VALUE)
  {
  }

  /** The table of empty-subtree hashes, filled from the bottom level upwards. */
  method DefaultNodes(h: Hasher) returns (nodes: array<Digest>)
    ensures fresh(nodes) && nodes.Length == HASH_BITS
    ensures forall i :: 0 <= i < HASH_BITS ==> nodes[i] == DefaultNode(h, i)
  {
    hide DefaultNode, DefaultTree;
    var depth := HASH_BITS;
    nodes := new Digest[depth];
    nodes[depth - 1] := h(DEFAULT_VALUE);
    DefaultLeaf(h);
    var i := depth - 1;
    while i > 0
      invariant 0 <= i < depth
      invariant forall j :: i <= j < depth ==> nodes[j] == DefaultNode(h, j)
    {
      DefaultBelow(h, i - 1);
      var node: bytes := nodes[i];
      nodes[i - 1] := h(node + node);
      i := i - 1;
    }
  }

  /** The strings a new tree of this height stores: its empty subtrees, the largest first. */
  function DefaultWrites(h: Hasher, height: nat): (xs: seq<bytes>)
    ensures |xs| == height
  {
    seq(height, i requires 0 <= i < height => Preimage(h, DefaultTree(height - 1 - i)))
  }

  lemma DefaultWriteAt(h: Hasher, height: nat, i: nat)
    requires i < height <= HASH_BITS
    ensures i < height - 1 ==>
              DefaultWrites(h, height)[i] ==
              DefaultNode(h, HASH_BITS - height + i + 1) + DefaultNode(h, HASH_BITS - height + i + 1)
    ensures i == height - 1 ==> DefaultWrites(h, height)[i] == DEFAULT_VALUE
    ensures DefaultNode(h, HASH_BITS - height + i) == h(DefaultWrites(h, height)[i])
  {
    var levels := height - 1 - i;
    assert DefaultWrites(h, height)[i] == Preimage(h, DefaultTree(levels));
    if i < height - 1 {
      assert DefaultTree(levels) == Node(DefaultTree(levels - 1), DefaultTree(levels - 1));
    }
  }

  /** The state NewSparseMerkleTree leaves when the namespace was never initialised. */
  function InitialState(h: Hasher, cfg: TreeConfig, store: Store, rec: set<bytes>): TreeState
    requires 1 <= cfg.height <= HASH_BITS
  {
    TreeState(WriteAll(h, cfg.namespace, store, DefaultWrites(h, cfg.height))
                [PrependNamespace(cfg.namespace, INIT_MARKER) := []],
              DefaultNode(h, HASH_BITS - cfg.height),
              rec + ToSet(DefaultWrites(h, cfg.height)))
  }

  lemma InitialBacked(h: Hasher, cfg: TreeConfig, store: Store, rec: set<bytes>)
    requires 1 <= cfg.height <= HASH_BITS && Backed(h, cfg.namespace, store, rec)
    ensures var st := InitialState(h, cfg, store, rec); Backed(h, cfg.namespace, st.store, st.recorded)
  {
    var xs := DefaultWrites(h, cfg.height);
    var ns := cfg.namespace;
    BackedWriteAll(h, ns, store, rec, xs);
    var written := WriteAll(h, ns, store, xs);
    forall d: Digest | PrependNamespace(ns, d) == PrependNamespace(ns, INIT_MARKER)
      ensures false
    {
      PrependInjective(ns, d, INIT_MARKER);
    }
    BackedElsewhere(h, ns, written, written[PrependNamespace(ns, INIT_MARKER) := []], rec + ToSet(xs));
  }

  class SparseMerkleTree {
    const hasher: Hasher
    const db: DB
    const namespace: Option<bytes>
    const height: nat
    const hashKey: bool
    var root: bytes
    ghost var recorded: set<bytes>

    ghost function Config(): TreeConfig {
      TreeConfig(namespace, height, hashKey)
    }

    ghost function State(): TreeState
      reads this, db
    {
      TreeState(db.store, root, recorded)
    }

    ghost predicate Valid()
      reads this, db
    {
      1 <= height <= HASH_BITS && Backed(hasher, namespace, db.store, recorded)
    }

    /** A tree object with no root yet, as embedded by the deep subtree. */
    constructor Bare(db: DB, namespace: Option<bytes>, hasher: Hasher, height: nat, hashKey: bool,
            ghost rec: set<bytes>)
      requires 1 <= height <= HASH_BITS && Backed(hasher, namespace, db.store, rec)
      ensures Valid() && this.db == db && this.hasher == hasher && Config() == TreeConfig(namespace, height, hashKey)
      ensures root == [] && recorded == rec
    {
      this.db, this.namespace, this.hasher, this.height, this.hashKey := db, namespace, hasher, height, hashKey;
      root, recorded := [], rec;
    }

    /** Creates the tree, or reopens it when the namespace carries the init marker. */
    constructor (db: DB, namespace: Option<bytes>, hasher: Hasher, givenRoot: Option<bytes>, height: nat, hashKey: bool,
                 ghost rec: set<bytes>)
      requires 1 <= height <= HASH_BITS && Backed(hasher, namespace, db.store, rec)
      modifies db
      ensures Valid() && this.db == db && this.hasher == hasher && Config() == TreeConfig(namespace, height, hashKey)
      ensures givenRoot.Some? ==> root == givenRoot.value
      ensures givenRoot.None? ==> root == DefaultNode(hasher, HASH_BITS - height)
      ensures PrependNamespace(namespace, INIT_MARKER) in old(db.store) ==> db.store == old(db.store) && recorded == rec
      ensures PrependNamespace(namespace, INIT_MARKER) !in old(db.store) ==>
                State() == InitialState(hasher, Config(), old(db.store), rec).(root := root)
    {
      this.db, this.namespace, this.hasher, this.height, this.hashKey := db, namespace, hasher, height, hashKey;
      root, recorded := [], rec;
      new;
      var _, exists_ := db.Get(namespace, INIT_MARKER);
      var nodes := DefaultNodes(hasher);
      if !exists_ {
        StoreDefaults(nodes);
      }
      root := match givenRoot case Some(r) => r case None => nodes[HASH_BITS - height];
    }

    /** Writes the empty subtrees and the init marker in one batch. */
    method StoreDefaults(nodes: array<Digest>)
      requires Valid() && nodes.Length == HASH_BITS
      requires forall i :: 0 <= i < HASH_BITS ==> nodes[i] == DefaultNode(hasher, i)
      modifies db, this`recorded
      ensures Valid()
      ensures State() == InitialState(hasher, Config(), old(db.store), old(recorded)).(root := old(root))
    {
      hide DefaultNode, DefaultTree, DefaultWrites, Backed, WriteOps;
      var bulk := new Bulk(db);
      ghost var xs := DefaultWrites(hasher, height);
      ghost var done: seq<bytes> := [];
      var start := HASH_BITS - height;
      var i := start;
      while i < HASH_BITS - 1
        invariant start <= i <= HASH_BITS - 1
        invariant done == xs[..i - start]
        invariant bulk.ops == WriteOps(hasher, namespace, done)
        invariant !bulk.isDiscard && !bulk.isCommit
        modifies bulk
      {
        var child: bytes := nodes[i + 1];
        bulk.Set(namespace, nodes[i], child + child);
        WriteOpsAppend(hasher, namespace, done, child + child);
        DefaultWriteAt(hasher, height, i - start);
        TakeNext(xs, i - start);
        done := done + [child + child];
        i := i + 1;
      }
      bulk.Set(namespace, nodes[HASH_BITS - 1], DEFAULT_VALUE);
      WriteOpsAppend(hasher, namespace, done, DEFAULT_VALUE);
      DefaultWriteAt(hasher, height, height - 1);
      TakeNext(xs, height - 1);
      TakeAll(xs);
      assert bulk.ops == WriteOps(hasher, namespace, xs);
      bulk.Set(namespace, INIT_MARKER, []);
      assert bulk.ops[..height] == WriteOps(hasher, namespace, xs);
      var flushed := bulk.Flush();
      recorded := recorded + ToSet(xs);
      InitialBacked(hasher, Config(), old(db.store), old(recorded));
    }

    method SetRoot(newRoot: bytes)
      modifies this`root
      ensures root == newRoot
    {
      root := newRoot;
    }

    method GetPath(key: bytes) returns (r: Result<bytes>)
      ensures r == PaddedKey(hasher, Config(), key)
    {
      if hashKey {
        r := Ok(hasher(key));
      } else {
        if |key| > 32 {
          return Err(KeyTooLong);
        }
        r := Ok(Zeros(32 - |key|) + key);
      }
    }

    method GetForRoot(key: bytes, fromRoot: bytes) returns (r: Result<bytes>)
      requires Valid()
      ensures r == ReadKey(hasher, Config(), db.store, key, fromRoot)
    {
      var path :- GetPath(key);
      ghost var bits := PathOf(path, height);
      var currentHash := fromRoot;
      var i := 0;
      while i < height - 1
        invariant 0 <= i <= height - 1
        invariant Lookup(namespace, db.store, bits, fromRoot) == Lookup(namespace, db.store, bits[i..], currentHash)
      {
        var currentValue, exists_ := db.Get(namespace, currentHash);
        if !exists_ {
          return Err(CorruptDb);
        }
        if |currentValue| < 32 {
          return Err(Panic);
        }
        assert bits[i..][1..] == bits[i + 1..];
        if !IsLeft(path, i, height) {
          currentHash := currentValue[32..];
        } else {
          currentHash := currentValue[..32];
        }
        i := i + 1;
      }
      var value, exists_ := db.Get(namespace, currentHash);
      if !exists_ {
        return Err(CorruptDb);
      }
      r := Ok(value);
    }

    method Get(key: bytes) returns (r: Result<bytes>)
      requires Valid()
      ensures r == ReadKey(hasher, Config(), db.store, key, root)
    {
      r := GetForRoot(key, root);
    }

    method SideNodesForRoot(path: bytes, fromRoot: bytes) returns (r: Result<array<bytes>>)
      requires Valid()
      ensures r.Ok? ==> fresh(r.value) && r.value.Length == height - 1
      ensures r.Ok? ==> SideNodes(namespace, db.store, PathOf(path, height), fromRoot) == Ok(r.value[..])
      ensures r.Err? ==> SideNodes(namespace, db.store, PathOf(path, height), fromRoot) == Err(r.error)
    {
      hide IsLeft, PrependNamespace, Backed;
      var currentValue, exists_ := db.Get(namespace, fromRoot);
      if !exists_ {
        return Err(CorruptDb);
      }
      ghost var bits := PathOf(path, height);
      ghost var top := currentValue;
      var sideNodes := new bytes[height - 1];
      assert bits[0..] == bits && sideNodes[..0] == [];
      PrependedNone(SidesBelow(namespace, db.store, bits, top));
      var i := 0;
      while i < height - 1
        invariant 0 <= i <= height - 1
        invariant SidesBelow(namespace, db.store, bits, top) ==
                  Prepended(sideNodes[..i], SidesBelow(namespace, db.store, bits[i..], currentValue))
      {
        if |currentValue| < 32 {
          return Err(Panic);
        }
        assert bits[i..][1..] == bits[i + 1..];
        ghost var done := sideNodes[..i];
        var next;
        if !IsLeft(path, i, height) {
          sideNodes[i] := currentValue[..32];
          next := currentValue[32..];
        } else {
          sideNodes[i] := currentValue[32..];
          next := currentValue[..32];
        }
        currentValue, exists_ := db.Get(namespace, next);
        if !exists_ {
          return Err(CorruptDb);
        }
        assert sideNodes[..i + 1] == done + [sideNodes[i]];
        PrependedTwice(done, sideNodes[i], SidesBelow(namespace, db.store, bits[i + 1..], currentValue));
        i := i + 1;
      }
      assert bits[height - 1..] == [];
      assert sideNodes[..height - 1] + [] == sideNodes[..];
      r := Ok(sideNodes);
    }

    /** The hashing loop of updateWithSideNodes: queues every node of the path, leaf first. */
    method QueuePath(bulk: Bulk, path: bytes, value: bytes, sideNodes: seq<bytes>) returns (newRoot: Digest)
      requires height >= 1 && |sideNodes| == height - 1
      requires bulk.ops == [] && !bulk.isDiscard && !bulk.isCommit
      modifies bulk
      ensures newRoot == Fold(hasher, PathOf(path, height), value, FitAll(sideNodes))
      ensures bulk.ops == WriteOps(hasher, namespace,
                                   FoldPreimages(hasher, PathOf(path, height), value, FitAll(sideNodes)))
      ensures !bulk.isDiscard && !bulk.isCommit
    {
      hide FoldPreimages, IsLeft, WriteOps;
      ghost var bits := PathOf(path, height);
      ghost var sides := FitAll(sideNodes);
      ghost var xs := FoldPreimages(hasher, bits, value, sides);
      var currentHash := hasher(value);
      bulk.Set(namespace, currentHash, value);
      FirstWrite(hasher, namespace, bits, value, sides);
      var i := height - 2;
      while i >= 0
        invariant -1 <= i <= height - 2
        invariant currentHash == hasher(xs[height - 2 - i])
        invariant bulk.ops == WriteOps(hasher, namespace, xs[..height - 1 - i])
        invariant !bulk.isDiscard && !bulk.isCommit
        modifies bulk
      {
        var sideNode: bytes := Fit(sideNodes[i]);
        var currentValue: bytes := currentHash;
        if !IsLeft(path, i, height) {
          currentValue := sideNode + currentValue;
        } else {
          currentValue := currentValue + sideNode;
        }
        assert currentValue == Join(bits[i], currentHash, sides[i]);
        NextWrite(hasher, namespace, bits, value, sides, i);
        currentHash := hasher(currentValue);
        bulk.Set(namespace, currentHash, currentValue);
        i := i - 1;
      }
      TakeAll(xs);
      newRoot := currentHash;
    }

    /**
     Hashes a value up a path and stores every node on the way in one batch. Siblings past the height are not
     looked at; when there are too few, the first one read is out of range and nothing is flushed.
     */
    method UpdateWithSideNodes(path: bytes, value: bytes, sideNodes: array<bytes>) returns (r: Result<Digest>)
      requires Valid()
      modifies db, this`recorded
      ensures Valid()
      ensures sideNodes.Length < height - 1 ==> r == Err(Panic) && State() == old(State())
      ensures sideNodes.Length >= height - 1 ==>
                var sides := FitAll(sideNodes[..height - 1]);
                && r == Ok(Fold(hasher, PathOf(path, height), value, sides))
                && State() == Record(hasher, Config(), old(State()),
                                     FoldPreimages(hasher, PathOf(path, height), value, sides))
    {
      if sideNodes.Length < height - 1 {
        return Err(Panic);
      }
      ghost var xs := FoldPreimages(hasher, PathOf(path, height), value, FitAll(sideNodes[..height - 1]));
      var bulk := new Bulk(db);
      var newRoot := QueuePath(bulk, path, value, sideNodes[..height - 1]);
      var flushed := bulk.Flush();
      recorded := recorded + ToSet(xs);
      BackedWriteAll(hasher, namespace, old(db.store), old(recorded), xs);
      r := Ok(newRoot);
    }

    method UpdateForRoot(key: bytes, value: bytes, fromRoot: bytes) returns (r: Result<Digest>)
      requires Valid()
      modifies db, this`recorded
      ensures Valid()
      ensures r == UpdateResult(hasher, Config(), old(db.store), key, value, fromRoot)
      ensures State() == UpdatedAt(hasher, Config(), old(State()), key, value, fromRoot)
    {
      var path :- GetPath(key);
      var sideNodes :- SideNodesForRoot(path, fromRoot);
      assert sideNodes[..height - 1] == sideNodes[..];
      r := UpdateWithSideNodes(path, value, sideNodes);
    }

    method Update(key: bytes, value: bytes) returns (r: Result<Digest>)
      requires Valid()
      modifies db, this`recorded, this`root
      ensures Valid()
      ensures r == UpdateResult(hasher, Config(), old(db.store), key, value, old(root))
      ensures State() == Updated(hasher, Config(), old(State()), key, value)
    {
      r := UpdateForRoot(key, value, root);
      if r.Ok? {
        root := r.value;
      }
    }

    /** The sibling list in the contract's order: the leaf's sibling first. */
    method ProveForRoot(key: bytes, fromRoot: bytes) returns (r: Result<seq<bytes>>)
      requires Valid()
      ensures r == ProofOf(hasher, Config(), db.store, key, fromRoot)
    {
      var path :- GetPath(key);
      var sideNodes :- SideNodesForRoot(path, fromRoot);
      ReverseProof(sideNodes);
      r := Ok(sideNodes[..]);
    }

    method Prove(key: bytes) returns (r: Result<seq<bytes>>)
      requires Valid()
      ensures r == ProofOf(hasher, Config(), db.store, key, root)
    {
      r := ProveForRoot(key, root);
    }
  }

  lemma {:induction false} FoldStart(h: Hasher, path: Path, value: bytes, sides: seq<Digest>)
    requires |sides| == |path|
    ensures FoldPreimages(h, path, value, sides)[0] == value
  {
    if path != [] {
      FoldStart(h, path[1..], value, sides[1..]);
    }
  }

  /** The string hashed at depth i joins the hash of the one below with that depth's sibling. */
  lemma {:induction false} FoldStep(h: Hasher, path: Path, value: bytes, sides: seq<Digest>, i: nat)
    requires |sides| == |path| && i < |path|
    ensures FoldPreimages(h, path, value, sides)[|path| - i] ==
            Join(path[i], h(FoldPreimages(h, path, value, sides)[|path| - i - 1]), sides[i])
  {
    if i > 0 {
      FoldStep(h, path[1..], value, sides[1..], i - 1);
    }
  }

  lemma FirstWrite(h: Hasher, ns: Option<bytes>, path: Path, value: bytes, sides: seq<Digest>)
    requires |sides| == |path|
    ensures FoldPreimages(h, path, value, sides)[0] == value
    ensures WriteOps(h, ns, FoldPreimages(h, path, value, sides)[..1]) == [SetOp(PrependNamespace(ns, h(value)), value)]
  {
    FoldStart(h, path, value, sides);
  }

  lemma NextWrite(h: Hasher, ns: Option<bytes>, path: Path, value: bytes, sides: seq<Digest>, i: nat)
    requires |sides| == |path| && i < |path|
    ensures var xs := FoldPreimages(h, path, value, sides);
            var x := Join(path[i], h(xs[|path| - i - 1]), sides[i]);
            && xs[|path| - i] == x
            && WriteOps(h, ns, xs[..|path| - i + 1]) ==
               WriteOps(h, ns, xs[..|path| - i]) + [SetOp(PrependNamespace(ns, h(x)), x)]
  {
    FoldStep(h, path, value, sides, i);
    var xs := FoldPreimages(h, path, value, sides);
    TakeNext(xs, |path| - i);
    WriteOpsAppend(h, ns, xs[..|path| - i], xs[|path| - i]);
  }

  /** Reverses a proof in place, exchanging entries from the middle outwards. */
  method ReverseProof(proof: array<bytes>)
    modifies proof
    ensures proof[..] == Reverse(old(proof[..]))
  {
    var n := proof.Length;
    var i := n / 2 - 1;
    while i >= 0
      invariant -1 <= i <= n / 2 - 1
      invariant forall k :: i < k < n - 1 - i ==> proof[k] == old(proof[n - 1 - k])
      invariant forall k :: 0 <= k < n && (k <= i || n - 1 - i <= k) ==> proof[k] == old(proof[k])
    {
      var opp := n - 1 - i;
      proof[i], proof[opp] := proof[opp], proof[i];
      i := i - 1;
    }
  }
}
