/**
 The mathematical tree behind the stored one: a perfect binary tree of byte strings,
 its root hash, and the folding of a sibling list.
 */
module MerkleTree {
  import opened ByteStrings
  import opened PathBits

  datatype Tree = Leaf(value: bytes) | Node(left: Tree, right: Tree)

  const DEFAULT_VALUE: bytes := Zeros(32)

  ghost predicate Perfect(t: Tree, levels: nat) {
    match t
    case Leaf(_) => levels == 0
    case Node(l, r) => levels > 0 && Perfect(l, levels - 1) && Perfect(r, levels - 1)
  }

  /** What is hashed to name a node: the leaf's value, or its children's hashes side by side. */
  function Preimage(h: Hasher, t: Tree): bytes {
    match t
    case Leaf(v) => v
    case Node(l, r) => h(Preimage(h, l)) + h(Preimage(h, r))
  }

  function HashOf(h: Hasher, t: Tree): Digest {
    h(Preimage(h, t))
  }

  function Get(t: Tree, path: Path): bytes
    requires Perfect(t, |path|)
  {
    match t
    case Leaf(v) => v
    case Node(l, r) => Get(if path[0] then r else l, path[1..])
  }

  function Put(t: Tree, path: Path, value: bytes): (t': Tree)
    requires Perfect(t, |path|)
    ensures Perfect(t', |path|)
  {
    match t
    case Leaf(_) => Leaf(value)
    case Node(l, r) =>
      if path[0] then Node(l, Put(r, path[1..], value)) else Node(Put(l, path[1..], value), r)
  }

  /** Hashes of the subtrees hanging off a path, the one next to the root first. */
  function Siblings(h: Hasher, t: Tree, path: Path): (s: seq<Digest>)
    requires Perfect(t, |path|)
    ensures |s| == |path|
  {
    match t
    case Leaf(_) => []
    case Node(l, r) =>
      if path[0] then [HashOf(h, l)] + Siblings(h, r, path[1..])
      else [HashOf(h, r)] + Siblings(h, l, path[1..])
  }

  function Join(right: bool, below: Digest, side: Digest): bytes {
    if right then side + below else below + side
  }

  /** The strings hashed on the way up from a value, leaf first, with siblings given root first. */
  function FoldPreimages(h: Hasher, path: Path, value: bytes, sides: seq<Digest>): (xs: seq<bytes>)
    requires |sides| == |path|
    ensures |xs| == |path| + 1
  {
    if path == [] then [value]
    else
      var below := FoldPreimages(h, path[1..], value, sides[1..]);
      below + [Join(path[0], h(below[|below| - 1]), sides[0])]
  }

  function Fold(h: Hasher, path: Path, value: bytes, sides: seq<Digest>): Digest
    requires |sides| == |path|
  {
    var xs := FoldPreimages(h, path, value, sides);
    h(xs[|xs| - 1])
  }

  // ---------------------------------------------------------------- trees as maps

  lemma {:induction false} GetPut(t: Tree, path: Path, value: bytes, other: Path)
    requires Perfect(t, |path|) && |other| == |path|
    ensures Get(Put(t, path, value), other) == if other == path then value else Get(t, other)
  {
    if path != [] && path[0] == other[0] {
      assert path == [path[0]] + path[1..] && other == [other[0]] + other[1..];
      GetPut(if path[0] then t.right else t.left, path[1..], value, other[1..]);
    }
  }

  /** The recursive Merkle tree over the leaves base * 2^levels onwards of a sparse map. */
  function TreeOf(levels: nat, base: nat, leaves: map<nat, bytes>): (t: Tree)
    ensures Perfect(t, levels)
  {
    if levels == 0 then Leaf(if base in leaves then leaves[base] else DEFAULT_VALUE)
    else Node(TreeOf(levels - 1, 2 * base, leaves), TreeOf(levels - 1, 2 * base + 1, leaves))
  }

  function LeafAt(leaves: map<nat, bytes>, i: nat): bytes {
    if i in leaves then leaves[i] else DEFAULT_VALUE
  }

  /** The empty tree of a given height. */
  function DefaultTree(levels: nat): (t: Tree)
    ensures Perfect(t, levels)
  {
    if levels == 0 then Leaf(DEFAULT_VALUE)
    else Node(DefaultTree(levels - 1), DefaultTree(levels - 1))
  }

  lemma {:induction false} TreeOfNothing(levels: nat, base: nat)
    ensures TreeOf(levels, base, map[]) == DefaultTree(levels)
  {
    if levels > 0 {
      TreeOfNothing(levels - 1, 2 * base);
      TreeOfNothing(levels - 1, 2 * base + 1);
    }
  }

  /** The map entry a path leads to from the subtree with the given base. */
  function LeafIndex(base: nat, path: Path): nat
    decreases |path|
  {
    if path == [] then base
    else LeafIndex(2 * base + if path[0] then 1 else 0, path[1..])
  }

  lemma {:induction false} LeafIndexAppend(base: nat, path: Path, bit: bool)
    ensures LeafIndex(base, path + [bit]) == 2 * LeafIndex(base, path) + if bit then 1 else 0
    decreases |path|
  {
    if path == [] {
      assert (path + [bit])[1..] == [];
    } else {
      LeafIndexAppend(2 * base + if path[0] then 1 else 0, path[1..], bit);
      assert (path + [bit])[1..] == path[1..] + [bit];
    }
  }

  lemma {:induction false} LeafIndexInjective(base1: nat, path1: Path, base2: nat, path2: Path)
    requires |path1| == |path2| && LeafIndex(base1, path1) == LeafIndex(base2, path2)
    ensures base1 == base2 && path1 == path2
    decreases |path1|
  {
    if path1 != [] {
      var n := |path1| - 1;
      assert path1 == path1[..n] + [path1[n]] && path2 == path2[..n] + [path2[n]];
      LeafIndexAppend(base1, path1[..n], path1[n]);
      LeafIndexAppend(base2, path2[..n], path2[n]);
      LeafIndexInjective(base1, path1[..n], base2, path2[..n]);
    }
  }

  lemma {:induction false} LeafIndexIsIndex(path: Path)
    ensures LeafIndex(0, path) == Index(path)
    decreases |path|
  {
    if path != [] {
      var n := |path| - 1;
      assert path == path[..n] + [path[n]];
      LeafIndexAppend(0, path[..n], path[n]);
      IndexAppend(path[..n], path[n]);
      LeafIndexIsIndex(path[..n]);
    }
  }

  lemma {:induction false} GetTreeOf(levels: nat, base: nat, leaves: map<nat, bytes>, path: Path)
    requires |path| == levels
    ensures Get(TreeOf(levels, base, leaves), path) == LeafAt(leaves, LeafIndex(base, path))
  {
    if levels > 0 {
      GetTreeOf(levels - 1, 2 * base + if path[0] then 1 else 0, leaves, path[1..]);
    }
  }

  lemma {:induction false} TreeOfOutside(levels: nat, base: nat, leaves: map<nat, bytes>, at: nat, value: bytes)
    requires forall path: Path :: |path| == levels ==> LeafIndex(base, path) != at
    ensures TreeOf(levels, base, leaves[at := value]) == TreeOf(levels, base, leaves)
  {
    if levels == 0 {
      assert LeafIndex(base, []) == base;
    } else {
      forall path: Path | |path| == levels - 1
        ensures LeafIndex(2 * base, path) != at && LeafIndex(2 * base + 1, path) != at
      {
        assert ([false] + path)[1..] == path && ([true] + path)[1..] == path;
        assert LeafIndex(base, [false] + path) != at && LeafIndex(base, [true] + path) != at;
      }
      TreeOfOutside(levels - 1, 2 * base, leaves, at, value);
      TreeOfOutside(levels - 1, 2 * base + 1, leaves, at, value);
    }
  }

  /** Writing a leaf of the tree is updating one entry of the map. */
  lemma {:induction false} PutTreeOf(levels: nat, base: nat, leaves: map<nat, bytes>, path: Path, value: bytes)
    requires |path| == levels
    ensures Put(TreeOf(levels, base, leaves), path, value) ==
            TreeOf(levels, base, leaves[LeafIndex(base, path) := value])
  {
    if levels > 0 {
      var at := LeafIndex(base, path);
      var bit := if path[0] then 1 else 0;
      forall other: Path | |other| == levels - 1
        ensures LeafIndex(2 * base + 1 - bit, other) != at
      {
        if LeafIndex(2 * base + 1 - bit, other) == at {
          LeafIndexInjective(2 * base + 1 - bit, other, 2 * base + bit, path[1..]);
        }
      }
      TreeOfOutside(levels - 1, 2 * base + 1 - bit, leaves, at, value);
      PutTreeOf(levels - 1, 2 * base + bit, leaves, path[1..], value);
    }
  }

  // ---------------------------------------------------------------- folding

  /** Folding the siblings of any replacement value gives the root of the tree holding that value. */
  lemma {:induction false} FoldIsPut(h: Hasher, t: Tree, path: Path, value: bytes)
    requires Perfect(t, |path|)
    ensures var xs := FoldPreimages(h, path, value, Siblings(h, t, path));
            xs[|xs| - 1] == Preimage(h, Put(t, path, value))
    ensures Fold(h, path, value, Siblings(h, t, path)) == HashOf(h, Put(t, path, value))
  {
    if path != [] {
      FoldIsPut(h, if path[0] then t.right else t.left, path[1..], value);
    }
  }

  lemma {:induction false} PutGet(t: Tree, path: Path)
    requires Perfect(t, |path|)
    ensures Put(t, path, Get(t, path)) == t
  {
    if path != [] {
      PutGet(if path[0] then t.right else t.left, path[1..]);
    }
  }

  lemma FoldIsRoot(h: Hasher, t: Tree, path: Path)
    requires Perfect(t, |path|)
    ensures Fold(h, path, Get(t, path), Siblings(h, t, path)) == HashOf(h, t)
  {
    FoldIsPut(h, t, path, Get(t, path));
    PutGet(t, path);
  }

  // ---------------------------------------------------------------- collisions

  ghost predicate Collide(h: Hasher, x: bytes, y: bytes) {
    x != y && h(x) == h(y)
  }

  ghost predicate CollisionFree(h: Hasher, xs: set<bytes>) {
    forall x, y :: x in xs && y in xs && h(x) == h(y) ==> x == y
  }

  lemma CollisionFreeSubset(h: Hasher, small: set<bytes>, large: set<bytes>)
    requires small <= large && CollisionFree(h, large)
    ensures CollisionFree(h, small)
  {
  }

  lemma JoinInjective(right: bool, b1: Digest, s1: Digest, b2: Digest, s2: Digest)
    requires Join(right, b1, s1) == Join(right, b2, s2)
    ensures b1 == b2 && s1 == s2
  {
    var j := Join(right, b1, s1);
    if right {
      assert s1 == j[..32] == s2 && b1 == j[32..] == b2;
    } else {
      assert b1 == j[..32] == b2 && s1 == j[32..] == s2;
    }
  }

  /**
   Binding: two openings of one root along one path are the same opening, or some level
   of the two foldings hashes two different strings to one digest. The level is returned.
   */
  lemma {:induction false} Binding(h: Hasher, path: Path,
                                   v1: bytes, s1: seq<Digest>, v2: bytes, s2: seq<Digest>) returns (level: nat)
    requires |s1| == |path| && |s2| == |path|
    requires Fold(h, path, v1, s1) == Fold(h, path, v2, s2)
    ensures level <= |path|
    ensures (v1 == v2 && s1 == s2) ||
            Collide(h, FoldPreimages(h, path, v1, s1)[level], FoldPreimages(h, path, v2, s2)[level])
  {
    level := |path|;
    var xs, ys := FoldPreimages(h, path, v1, s1), FoldPreimages(h, path, v2, s2);
    if path != [] && xs[|path|] == ys[|path|] {
      var xs', ys' := FoldPreimages(h, path[1..], v1, s1[1..]), FoldPreimages(h, path[1..], v2, s2[1..]);
      JoinInjective(path[0], h(xs'[|path| - 1]), s1[0], h(ys'[|path| - 1]), s2[0]);
      level := Binding(h, path[1..], v1, s1[1..], v2, s2[1..]);
      assert s1 == [s1[0]] + s1[1..] && s2 == [s2[0]] + s2[1..];
      assert xs == xs' + [xs[|path|]] && ys == ys' + [ys[|path|]];
    }
  }

  /** All strings hashed to build a tree. */
  ghost function Preimages(h: Hasher, t: Tree): set<bytes> {
    {Preimage(h, t)} + match t case Leaf(_) => {} case Node(l, r) => Preimages(h, l) + Preimages(h, r)
  }

  /** Equal roots mean equal leaf maps, up to a collision between a node of one tree and a node of the other. */
  lemma {:induction false} RootsBind(h: Hasher, t1: Tree, t2: Tree, levels: nat) returns (x: bytes, y: bytes)
    requires Perfect(t1, levels) && Perfect(t2, levels) && HashOf(h, t1) == HashOf(h, t2)
    ensures t1 == t2 || (x in Preimages(h, t1) && y in Preimages(h, t2) && Collide(h, x, y))
  {
    x, y := Preimage(h, t1), Preimage(h, t2);
    if levels > 0 && x == y {
      assert Join(true, HashOf(h, t1.right), HashOf(h, t1.left)) == Join(true, HashOf(h, t2.right), HashOf(h, t2.left));
      JoinInjective(true, HashOf(h, t1.right), HashOf(h, t1.left), HashOf(h, t2.right), HashOf(h, t2.left));
      if t1.left != t2.left {
        x, y := RootsBind(h, t1.left, t2.left, levels - 1);
      } else {
        x, y := RootsBind(h, t1.right, t2.right, levels - 1);
      }
    }
  }
}
