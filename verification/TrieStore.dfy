/**
 The stored tree: nodes kept in the key-value store under their hash. Reading walks down by
 hash, updating adds the nodes of one path. Everything here is a function of the store, so the
 methods of SparseMerkleTree can be held against it exactly, failures included.
 */
module TrieStore {
  import opened ByteStrings
  import opened Errors
  import opened Namespaces
  import opened MemoryDb
  import opened PathBits
  import opened MerkleTree

  datatype TreeConfig = TreeConfig(namespace: Option<bytes>, height: nat, hashKey: bool)

  /** The store, the current root, and every string ever written under its own hash. */
  datatype TreeState = TreeState(store: Store, root: bytes, recorded: set<bytes>)

  // ---------------------------------------------------------------- reading

  function PaddedKey(h: Hasher, cfg: TreeConfig, key: bytes): Result<bytes> {
    if cfg.hashKey then Ok(h(key))
    else if |key| > 32 then Err(KeyTooLong)
    else Ok(Zeros(32 - |key|) + key)
  }

  function KeyPath(h: Hasher, cfg: TreeConfig, key: bytes): (r: Result<Path>)
    requires cfg.height >= 1
    ensures r.Ok? ==> |r.value| == cfg.height - 1
  {
    var padded :- PaddedKey(h, cfg, key);
    Ok(PathOf(padded, cfg.height))
  }

  /** The value reached from a node hash; a node too short to be split makes Go panic. */
  function Lookup(ns: Option<bytes>, store: Store, path: Path, hash: bytes): Result<bytes>
    decreases |path|
  {
    var k := PrependNamespace(ns, hash);
    if k !in store then Err(CorruptDb)
    else if path == [] then Ok(store[k])
    else if |store[k]| < 32 then Err(Panic)
    else Lookup(ns, store, path[1..], if path[0] then store[k][32..] else store[k][..32])
  }

  function Prepended(done: seq<bytes>, rest: Result<seq<bytes>>): (r: Result<seq<bytes>>)
    ensures r.Ok? <==> rest.Ok?
    ensures r.Ok? ==> |r.value| == |done| + |rest.value|
  {
    match rest
    case Ok(sides) => Ok(done + sides)
    case Err(e) => Err(e)
  }

  lemma PrependedNone(rest: Result<seq<bytes>>)
    ensures Prepended([], rest) == rest
  {
    if rest.Ok? {
      assert [] + rest.value == rest.value;
    }
  }

  lemma PrependedTwice(done: seq<bytes>, side: bytes, rest: Result<seq<bytes>>)
    ensures Prepended(done, Prepended([side], rest)) == Prepended(done + [side], rest)
  {
    if rest.Ok? {
      assert done + ([side] + rest.value) == (done + [side]) + rest.value;
    }
  }

  /** Siblings along a path below a node whose content is at hand, root first. */
  function SidesBelow(ns: Option<bytes>, store: Store, path: Path, node: bytes): (r: Result<seq<bytes>>)
    ensures r.Ok? ==> |r.value| == |path|
    decreases |path|
  {
    if path == [] then Ok([])
    else if |node| < 32 then Err(Panic)
    else
      var side := if path[0] then node[..32] else node[32..];
      var k := PrependNamespace(ns, if path[0] then node[32..] else node[..32]);
      if k !in store then Err(CorruptDb)
      else Prepended([side], SidesBelow(ns, store, path[1..], store[k]))
  }

  function SideNodes(ns: Option<bytes>, store: Store, path: Path, root: bytes): (r: Result<seq<bytes>>)
    ensures r.Ok? ==> |r.value| == |path|
  {
    var k := PrependNamespace(ns, root);
    if k !in store then Err(CorruptDb) else SidesBelow(ns, store, path, store[k])
  }

  /** A stored node holds a hash as its left or its right half. */
  ghost predicate Holds(ns: Option<bytes>, store: Store, hash: bytes, right: bool, next: bytes) {
    && PrependNamespace(ns, hash) in store
    && var node := store[PrependNamespace(ns, hash)];
       |node| >= 32 && next == if right then node[32..] else node[..32]
  }

  /** Hashes from a root down a path, each stored and each but the last holding the next as its half. */
  ghost predicate Chain(ns: Option<bytes>, store: Store, path: Path, hashes: seq<bytes>) {
    && |hashes| == |path| + 1 && PrependNamespace(ns, hashes[|path|]) in store
    && forall i :: 0 <= i < |path| ==> Holds(ns, store, hashes[i], path[i], hashes[i + 1])
  }

  lemma {:induction false} LookupFollows(ns: Option<bytes>, store: Store, path: Path, hash: bytes)
    returns (hashes: seq<bytes>)
    requires Lookup(ns, store, path, hash).Ok?
    ensures Chain(ns, store, path, hashes) && hashes[0] == hash
    ensures Lookup(ns, store, path, hash) == Ok(store[PrependNamespace(ns, hashes[|path|])])
    decreases |path|
  {
    hide PrependNamespace;
    var node := store[PrependNamespace(ns, hash)];
    if path == [] {
      hashes := [hash];
    } else {
      var rest := LookupFollows(ns, store, path[1..], if path[0] then node[32..] else node[..32]);
      hashes := [hash] + rest;
      forall i | 0 <= i < |path| ensures Holds(ns, store, hashes[i], path[i], hashes[i + 1]) {
        if i > 0 {
          assert Holds(ns, store, rest[i - 1], path[1..][i - 1], rest[i]);
        }
      }
    }
  }

  lemma ChainBelow(ns: Option<bytes>, store: Store, path: Path, hashes: seq<bytes>)
    requires Chain(ns, store, path, hashes) && path != []
    ensures Chain(ns, store, path[1..], hashes[1..])
    ensures Holds(ns, store, hashes[0], path[0], hashes[1])
    ensures PrependNamespace(ns, hashes[1]) in store
  {
    hide PrependNamespace, Holds;
    forall i | 0 <= i < |path| - 1 ensures Holds(ns, store, hashes[1..][i], path[1..][i], hashes[1..][i + 1]) {
      assert Holds(ns, store, hashes[i + 1], path[i + 1], hashes[i + 2]);
    }
    if |path| > 1 {
      assert PrependNamespace(ns, hashes[1]) in store by {
        assert Holds(ns, store, hashes[1], path[1], hashes[2]);
        StoredWhenHolds(ns, store, hashes[1], path[1], hashes[2]);
      }
    }
  }

  lemma StoredWhenHolds(ns: Option<bytes>, store: Store, hash: bytes, right: bool, next: bytes)
    requires Holds(ns, store, hash, right, next)
    ensures PrependNamespace(ns, hash) in store
  {
  }

  lemma {:induction false} FollowedIsLookup(ns: Option<bytes>, store: Store, path: Path, hashes: seq<bytes>)
    requires Chain(ns, store, path, hashes)
    ensures Lookup(ns, store, path, hashes[0]) == Ok(store[PrependNamespace(ns, hashes[|path|])])
    decreases |path|
  {
    hide PrependNamespace;
    if path != [] {
      ChainBelow(ns, store, path, hashes);
      FollowedIsLookup(ns, store, path[1..], hashes[1..]);
      assert hashes[1..][|path| - 1] == hashes[|path|];
    }
  }

  /** A lookup answers exactly what is linked: the end of a chain of stored nodes along the path. */
  lemma LookupIff(ns: Option<bytes>, store: Store, path: Path, hash: bytes, value: bytes)
    ensures Lookup(ns, store, path, hash) == Ok(value) <==>
            exists hashes :: Chain(ns, store, path, hashes) && hashes[0] == hash &&
              store[PrependNamespace(ns, hashes[|path|])] == value
  {
    hide Lookup, PrependNamespace;
    if Lookup(ns, store, path, hash) == Ok(value) {
      var hashes := LookupFollows(ns, store, path, hash);
      assert Chain(ns, store, path, hashes);
    }
    if hashes :| Chain(ns, store, path, hashes) && hashes[0] == hash &&
                 store[PrependNamespace(ns, hashes[|path|])] == value {
      FollowedIsLookup(ns, store, path, hashes);
    }
  }

  lemma {:induction false} SidesBelowFail(ns: Option<bytes>, store: Store, path: Path, hash: bytes, error: Error)
    requires PrependNamespace(ns, hash) in store
    ensures SidesBelow(ns, store, path, store[PrependNamespace(ns, hash)]) == Err(error) <==>
            Lookup(ns, store, path, hash) == Err(error)
    decreases |path|
  {
    hide PrependNamespace;
    var node := store[PrependNamespace(ns, hash)];
    if path != [] && |node| >= 32 {
      var next := if path[0] then node[32..] else node[..32];
      if PrependNamespace(ns, next) in store {
        SidesBelowFail(ns, store, path[1..], next, error);
      }
    }
  }

  /** Sibling lists fail as lookups do, for the same paths and with the same errors. */
  lemma SidesFailAlike(ns: Option<bytes>, store: Store, path: Path, root: bytes, error: Error)
    ensures SideNodes(ns, store, path, root) == Err(error) <==> Lookup(ns, store, path, root) == Err(error)
  {
    hide PrependNamespace, SidesBelow;
    if PrependNamespace(ns, root) in store {
      SidesBelowFail(ns, store, path, root, error);
    }
  }

  lemma {:induction false} SidesBelowAlong(ns: Option<bytes>, store: Store, path: Path, hashes: seq<bytes>, i: nat)
    requires Chain(ns, store, path, hashes) && PrependNamespace(ns, hashes[0]) in store
    ensures var sides := SidesBelow(ns, store, path, store[PrependNamespace(ns, hashes[0])]);
            sides.Ok? && (i < |path| ==> Holds(ns, store, hashes[i], !path[i], sides.value[i]))
    decreases |path|
  {
    hide PrependNamespace;
    if path != [] {
      ChainBelow(ns, store, path, hashes);
      SidesBelowAlong(ns, store, path[1..], hashes[1..], if i > 0 then i - 1 else 0);
      if 0 < i < |path| {
        assert path[1..][i - 1] == path[i] && hashes[1..][i - 1] == hashes[i];
      }
    }
  }

  /** Sibling i is the half of the i-th node on the way that the path does not take. */
  lemma SidesAlong(ns: Option<bytes>, store: Store, path: Path, hashes: seq<bytes>, i: nat)
    requires Chain(ns, store, path, hashes) && i < |path|
    ensures var sides := SideNodes(ns, store, path, hashes[0]);
            sides.Ok? && Holds(ns, store, hashes[i], !path[i], sides.value[i])
  {
    hide PrependNamespace, SidesBelow, Holds;
    ChainBelow(ns, store, path, hashes);
    StoredWhenHolds(ns, store, hashes[0], path[0], hashes[1]);
    SidesBelowAlong(ns, store, path, hashes, i);
  }

  function FitAll(sides: seq<bytes>): (r: seq<Digest>)
    ensures |r| == |sides|
  {
    seq(|sides|, i requires 0 <= i < |sides| => Fit(sides[i]))
  }

  lemma FitDigests(sides: seq<Digest>)
    ensures FitAll(sides) == sides
  {
    forall i | 0 <= i < |sides| ensures FitAll(sides)[i] == sides[i] {
      assert sides[i][..32] == sides[i];
    }
  }

  // ---------------------------------------------------------------- writing

  /** Each string is queued under its own hash. */
  function WriteOps(h: Hasher, ns: Option<bytes>, xs: seq<bytes>): (ops: seq<TxOp>)
    ensures |ops| == |xs|
  {
    seq(|xs|, i requires 0 <= i < |xs| => SetOp(PrependNamespace(ns, h(xs[i])), xs[i]))
  }

  lemma WriteOpsAppend(h: Hasher, ns: Option<bytes>, xs: seq<bytes>, x: bytes)
    ensures WriteOps(h, ns, xs + [x]) == WriteOps(h, ns, xs) + [SetOp(PrependNamespace(ns, h(x)), x)]
  {
  }

  function WriteAll(h: Hasher, ns: Option<bytes>, store: Store, xs: seq<bytes>): Store {
    ApplyOps(store, WriteOps(h, ns, xs))
  }

  function ToSet(xs: seq<bytes>): set<bytes> {
    set x | x in xs
  }

  /** The strings hashed by an update of one key at a root, leaf first. */
  function UpdateWrites(h: Hasher, cfg: TreeConfig, store: Store, key: bytes, value: bytes, root: bytes)
    : (r: Result<seq<bytes>>)
    requires cfg.height >= 1
    ensures r.Ok? ==> |r.value| == cfg.height
  {
    var path :- KeyPath(h, cfg, key);
    var sides :- SideNodes(cfg.namespace, store, path, root);
    Ok(FoldPreimages(h, path, value, FitAll(sides)))
  }

  function Record(h: Hasher, cfg: TreeConfig, st: TreeState, xs: seq<bytes>): TreeState {
    st.(store := WriteAll(h, cfg.namespace, st.store, xs), recorded := st.recorded + ToSet(xs))
  }

  /** What Get, Prove and Update answer, and the state an update leaves. */
  function ReadKey(h: Hasher, cfg: TreeConfig, store: Store, key: bytes, root: bytes): Result<bytes>
    requires cfg.height >= 1
  {
    var path :- KeyPath(h, cfg, key);
    Lookup(cfg.namespace, store, path, root)
  }

  function ProofOf(h: Hasher, cfg: TreeConfig, store: Store, key: bytes, root: bytes): Result<seq<bytes>>
    requires cfg.height >= 1
  {
    var path :- KeyPath(h, cfg, key);
    var sides :- SideNodes(cfg.namespace, store, path, root);
    Ok(Reverse(sides))
  }

  function UpdateResult(h: Hasher, cfg: TreeConfig, store: Store, key: bytes, value: bytes, root: bytes): Result<Digest>
    requires cfg.height >= 1
  {
    var xs :- UpdateWrites(h, cfg, store, key, value, root);
    Ok(h(xs[cfg.height - 1]))
  }

  function UpdatedAt(h: Hasher, cfg: TreeConfig, st: TreeState, key: bytes, value: bytes, root: bytes): TreeState
    requires cfg.height >= 1
  {
    match UpdateWrites(h, cfg, st.store, key, value, root)
    case Ok(xs) => Record(h, cfg, st, xs)
    case Err(_) => st
  }

  function Updated(h: Hasher, cfg: TreeConfig, st: TreeState, key: bytes, value: bytes): TreeState
    requires cfg.height >= 1
  {
    var result := UpdateResult(h, cfg, st.store, key, value, st.root);
    UpdatedAt(h, cfg, st, key, value, st.root).(root := if result.Ok? then result.value else st.root)
  }

  // ---------------------------------------------------------------- invariants

  /**
   Every recorded string has an entry under its hash, and every entry under a digest is a
   recorded string with that hash. Which of several colliding strings is kept is left open.
   */
  ghost predicate Backed(h: Hasher, ns: Option<bytes>, store: Store, rec: set<bytes>) {
    && (forall x :: x in rec ==> PrependNamespace(ns, h(x)) in store)
    && (forall d: Digest :: PrependNamespace(ns, d) in store ==>
          store[PrependNamespace(ns, d)] in rec && h(store[PrependNamespace(ns, d)]) == d)
  }

  lemma BackedRead(h: Hasher, ns: Option<bytes>, store: Store, rec: set<bytes>, x: bytes)
    requires Backed(h, ns, store, rec) && CollisionFree(h, rec) && x in rec
    ensures PrependNamespace(ns, h(x)) in store && store[PrependNamespace(ns, h(x))] == x
  {
    var d: Digest := h(x);
    assert PrependNamespace(ns, d) in store;
  }

  lemma BackedWrite(h: Hasher, ns: Option<bytes>, store: Store, rec: set<bytes>, x: bytes)
    requires Backed(h, ns, store, rec)
    ensures Backed(h, ns, store[PrependNamespace(ns, h(x)) := x], rec + {x})
  {
    var k := PrependNamespace(ns, h(x));
    forall d: Digest | PrependNamespace(ns, d) == k
      ensures d == h(x)
    {
      PrependInjective(ns, d, h(x));
    }
  }

  lemma WriteAllNext(h: Hasher, ns: Option<bytes>, store: Store, xs: seq<bytes>, x: bytes)
    ensures WriteAll(h, ns, store, xs + [x]) == WriteAll(h, ns, store, xs)[PrependNamespace(ns, h(x)) := x]
  {
    hide PrependNamespace, WriteOps;
    WriteOpsAppend(h, ns, xs, x);
    var ops := WriteOps(h, ns, xs + [x]);
    assert ops[..|ops| - 1] == WriteOps(h, ns, xs);
  }

  lemma ToSetNext(xs: seq<bytes>, x: bytes)
    ensures ToSet(xs + [x]) == ToSet(xs) + {x}
  {
  }

  lemma {:induction false} BackedWriteAll(h: Hasher, ns: Option<bytes>, store: Store, rec: set<bytes>, xs: seq<bytes>)
    requires Backed(h, ns, store, rec)
    ensures Backed(h, ns, WriteAll(h, ns, store, xs), rec + ToSet(xs))
  {
    hide Backed, PrependNamespace;
    if xs == [] {
      assert rec + ToSet(xs) == rec;
    } else {
      hide WriteAll, ToSet;
      var init, x := xs[..|xs| - 1], xs[|xs| - 1];
      assert xs == init + [x];
      BackedWriteAll(h, ns, store, rec, init);
      BackedWrite(h, ns, WriteAll(h, ns, store, init), rec + ToSet(init), x);
      WriteAllNext(h, ns, store, init, x);
      ToSetNext(init, x);
      assert rec + ToSet(xs) == rec + ToSet(init) + {x};
    }
  }

  /** A write outside the namespace leaves the tree's part of the store alone. */
  lemma BackedElsewhere(h: Hasher, ns: Option<bytes>, store: Store, store': Store, rec: set<bytes>)
    requires Backed(h, ns, store, rec)
    requires forall d: Digest :: (PrependNamespace(ns, d) in store' <==> PrependNamespace(ns, d) in store) &&
               (PrependNamespace(ns, d) in store ==> store'[PrependNamespace(ns, d)] == store[PrependNamespace(ns, d)])
    ensures Backed(h, ns, store', rec)
  {
    forall x | x in rec
      ensures PrependNamespace(ns, h(x)) in store'
    {
      var d: Digest := h(x);
      assert PrependNamespace(ns, d) in store;
    }
  }

  lemma WriteOnlyAdds(h: Hasher, ns: Option<bytes>, store: Store, rec: set<bytes>, x: bytes)
    requires Backed(h, ns, store, rec) && CollisionFree(h, rec + {x})
    ensures PrependNamespace(ns, h(x)) in store ==> store[PrependNamespace(ns, h(x))] == x
  {
    var d: Digest := h(x);
    if PrependNamespace(ns, d) in store {
      assert store[PrependNamespace(ns, d)] in rec;
    }
  }

  ghost predicate Extends(store: Store, store': Store) {
    forall k :: k in store ==> k in store' && store'[k] == store[k]
  }

  /** No flushed write replaces an entry: the store only grows. */
  lemma {:induction false} WritesOnlyAdd(h: Hasher, ns: Option<bytes>, store: Store, rec: set<bytes>, xs: seq<bytes>)
    requires Backed(h, ns, store, rec) && CollisionFree(h, rec + ToSet(xs))
    ensures Extends(store, WriteAll(h, ns, store, xs))
  {
    hide Backed, CollisionFree, PrependNamespace;
    if xs != [] {
      hide WriteAll, ToSet;
      var init, x := xs[..|xs| - 1], xs[|xs| - 1];
      assert xs == init + [x];
      ToSetNext(init, x);
      assert rec + ToSet(xs) == rec + ToSet(init) + {x};
      CollisionFreeSubset(h, rec + ToSet(init), rec + ToSet(xs));
      WritesOnlyAdd(h, ns, store, rec, init);
      BackedWriteAll(h, ns, store, rec, init);
      WriteOnlyAdds(h, ns, WriteAll(h, ns, store, init), rec + ToSet(init), x);
      WriteAllNext(h, ns, store, init, x);
    }
  }

  /** A write under one namespace is invisible under another. */
  lemma {:induction false} WritesStayInside(h: Hasher, ns: bytes, store: Store, xs: seq<bytes>, k: bytes)
    requires forall key :: k != Key(ns, key)
    ensures k in WriteAll(h, Some(ns), store, xs) <==> k in store
    ensures k in store ==> WriteAll(h, Some(ns), store, xs)[k] == store[k]
  {
    forall op | op in WriteOps(h, Some(ns), xs) ensures op.key != k {
      var i :| 0 <= i < |xs| && op == WriteOps(h, Some(ns), xs)[i];
      assert op.key == Key(ns, h(xs[i]));
    }
    UntouchedKeyStays(store, WriteOps(h, Some(ns), xs), k);
  }

  /** The nodes of a tree on one path are all recorded. */
  ghost predicate OnPath(h: Hasher, rec: set<bytes>, t: Tree, path: Path)
    requires Perfect(t, |path|)
    decreases |path|
  {
    Preimage(h, t) in rec &&
    (path != [] ==> OnPath(h, rec, if path[0] then t.right else t.left, path[1..]))
  }

  lemma {:induction false} OnPathMonotone(h: Hasher, small: set<bytes>, large: set<bytes>, t: Tree, path: Path)
    requires Perfect(t, |path|) && small <= large && OnPath(h, small, t, path)
    ensures OnPath(h, large, t, path)
    decreases |path|
  {
    if path != [] {
      OnPathMonotone(h, small, large, if path[0] then t.right else t.left, path[1..]);
    }
  }

  // ---------------------------------------------------------------- reading a recorded path

  lemma {:induction false} LookupOnPath(h: Hasher, ns: Option<bytes>, store: Store, rec: set<bytes>, t: Tree,
          path: Path)
    requires Perfect(t, |path|) && OnPath(h, rec, t, path)
    requires Backed(h, ns, store, rec) && CollisionFree(h, rec)
    ensures Lookup(ns, store, path, HashOf(h, t)) == Ok(Get(t, path))
    decreases |path|
  {
    BackedRead(h, ns, store, rec, Preimage(h, t));
    if path != [] {
      var l: bytes, r: bytes := HashOf(h, t.left), HashOf(h, t.right);
      assert (l + r)[..32] == l && (l + r)[32..] == r;
      LookupOnPath(h, ns, store, rec, if path[0] then t.right else t.left, path[1..]);
    }
  }

  lemma {:induction false} SidesOnPath(h: Hasher, ns: Option<bytes>, store: Store, rec: set<bytes>, t: Tree, path: Path)
    requires Perfect(t, |path|) && OnPath(h, rec, t, path)
    requires Backed(h, ns, store, rec) && CollisionFree(h, rec)
    ensures SideNodes(ns, store, path, HashOf(h, t)) == Ok(Siblings(h, t, path))
    decreases |path|
  {
    BackedRead(h, ns, store, rec, Preimage(h, t));
    if path != [] {
      var l: bytes, r: bytes := HashOf(h, t.left), HashOf(h, t.right);
      assert (l + r)[..32] == l && (l + r)[32..] == r;
      SidesOnPath(h, ns, store, rec, if path[0] then t.right else t.left, path[1..]);
    }
  }

  /**
   Writing one path of a tree keeps every recorded path of it recorded, the shared upper
   part in its new form.
   */
  lemma {:induction false} PutOnPath(h: Hasher, rec: set<bytes>, rec': set<bytes>, t: Tree, path: Path, value: bytes,
          other: Path)
    requires Perfect(t, |path|) && |other| == |path|
    requires OnPath(h, rec, t, other) && rec <= rec'
    requires ToSet(FoldPreimages(h, path, value, Siblings(h, t, path))) <= rec'
    ensures OnPath(h, rec', Put(t, path, value), other)
    decreases |path|
  {
    var xs := FoldPreimages(h, path, value, Siblings(h, t, path));
    FoldIsPut(h, t, path, value);
    assert xs[|xs| - 1] in ToSet(xs);
    if path != [] {
      var child := if path[0] then t.right else t.left;
      if path[0] == other[0] {
        var below := FoldPreimages(h, path[1..], value, Siblings(h, child, path[1..]));
        assert xs[..|xs| - 1] == below;
        assert ToSet(below) <= ToSet(xs);
        PutOnPath(h, rec, rec', child, path[1..], value, other[1..]);
      } else {
        OnPathMonotone(h, rec, rec', if other[0] then t.right else t.left, other[1..]);
      }
    }
  }

  /** The path just written is recorded, whatever was recorded before. */
  lemma {:induction false} WrittenOnPath(h: Hasher, rec: set<bytes>, t: Tree, path: Path, value: bytes)
    requires Perfect(t, |path|)
    requires ToSet(FoldPreimages(h, path, value, Siblings(h, t, path))) <= rec
    ensures OnPath(h, rec, Put(t, path, value), path)
    decreases |path|
  {
    var xs := FoldPreimages(h, path, value, Siblings(h, t, path));
    FoldIsPut(h, t, path, value);
    assert xs[|xs| - 1] in ToSet(xs);
    if path != [] {
      var child := if path[0] then t.right else t.left;
      var below := FoldPreimages(h, path[1..], value, Siblings(h, child, path[1..]));
      assert xs[..|xs| - 1] == below;
      assert ToSet(below) <= ToSet(xs);
      WrittenOnPath(h, rec, child, path[1..], value);
    }
  }

  // ---------------------------------------------------------------- answers persist

  lemma {:induction false} LookupMonotone(ns: Option<bytes>, store: Store, store': Store, path: Path, hash: bytes)
    requires Extends(store, store')
    requires Lookup(ns, store, path, hash).Ok?
    ensures Lookup(ns, store', path, hash) == Lookup(ns, store, path, hash)
    decreases |path|
  {
    if path != [] {
      var v := store[PrependNamespace(ns, hash)];
      LookupMonotone(ns, store, store', path[1..], if path[0] then v[32..] else v[..32]);
    }
  }

  lemma {:induction false} SidesMonotone(ns: Option<bytes>, store: Store, store': Store, path: Path, node: bytes)
    requires Extends(store, store')
    requires SidesBelow(ns, store, path, node).Ok?
    ensures SidesBelow(ns, store', path, node) == SidesBelow(ns, store, path, node)
    decreases |path|
  {
    if path != [] {
      var k := PrependNamespace(ns, if path[0] then node[32..] else node[..32]);
      SidesMonotone(ns, store, store', path[1..], store[k]);
    }
  }

  /** A successful read or proof from any root whatever is repeated by the store after any update from any root. */
  lemma AnyAnswerPersists(h: Hasher, cfg: TreeConfig, st: TreeState, key: bytes, value: bytes, root: bytes,
                          path: Path, asked: bytes)
    requires cfg.height >= 1 && Backed(h, cfg.namespace, st.store, st.recorded)
    requires CollisionFree(h, UpdatedAt(h, cfg, st, key, value, root).recorded)
    ensures var st' := UpdatedAt(h, cfg, st, key, value, root);
            && (Lookup(cfg.namespace, st.store, path, asked).Ok? ==>
                  Lookup(cfg.namespace, st'.store, path, asked) == Lookup(cfg.namespace, st.store, path, asked))
            && (SideNodes(cfg.namespace, st.store, path, asked).Ok? ==>
                  SideNodes(cfg.namespace, st'.store, path, asked) == SideNodes(cfg.namespace, st.store, path, asked))
  {
    hide Backed, CollisionFree, UpdateWrites;
    var writes := UpdateWrites(h, cfg, st.store, key, value, root);
    if writes.Ok? {
      var st' := UpdatedAt(h, cfg, st, key, value, root);
      WritesOnlyAdd(h, cfg.namespace, st.store, st.recorded, writes.value);
      if Lookup(cfg.namespace, st.store, path, asked).Ok? {
        LookupMonotone(cfg.namespace, st.store, st'.store, path, asked);
      }
      if SideNodes(cfg.namespace, st.store, path, asked).Ok? {
        SidesMonotone(cfg.namespace, st.store, st'.store, path, st.store[PrependNamespace(cfg.namespace, asked)]);
      }
    }
  }
}
