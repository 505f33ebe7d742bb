/** A tree object holding only the branches added to it (smt/deepsubtree.go). */
module DeepSubtree {
  import opened ByteStrings
  import opened Errors
  import opened MemoryDb
  import opened PathBits
  import opened MerkleTree
  import opened TrieStore
  import opened SparseMerkleTrees
  import opened TreeRuns

  class DeepSparseMerkleSubTree {
    const tree: SparseMerkleTree

    ghost predicate Valid()
      reads this, tree, tree.db
    {
      tree.Valid() && tree.namespace.None?
    }

    /** The store is given empty and keys go into it without a namespace. */
    constructor (db: DB, hasher: Hasher, height: nat, hashKey: bool)
      requires 1 <= height <= HASH_BITS && db.store == map[]
      ensures Valid() && fresh(tree) && tree.db == db && tree.hasher == hasher
      ensures tree.Config() == TreeConfig(None, height, hashKey)
      ensures tree.State() == BranchesOf(hasher, tree.Config(), DefaultTree(height - 1), [], [])
    {
      tree := new SparseMerkleTree.Bare(db, None, hasher, height, hashKey, {});
    }

    /**
     Writes the nodes of one proved branch, and reverses the caller's proof on the way; the key is always hashed.
     Of a proof longer than the tree is high the entries past its height, once reversed, are not looked at.
     */
    method AddBranches(proof: array<bytes>, key: bytes, value: bytes, updateRoot: bool) returns (r: Result<Digest>)
      requires Valid()
      modifies proof, tree.db, tree
      ensures Valid() && proof[..] == Reverse(old(proof[..]))
      ensures proof.Length < tree.height - 1 ==> r == Err(Panic) && tree.State() == old(tree.State())
      ensures proof.Length >= tree.height - 1 ==>
                && r == Ok(Fold(tree.hasher, PathOf(tree.hasher(key), tree.height), value,
                                BranchSides(tree.height, old(proof[..]))))
                && tree.State() ==
                   BranchAdded(tree.hasher, tree.Config(), old(tree.State()), old(proof[..]), key, value, updateRoot)
    {
      var path := tree.hasher(key);
      ReverseProof(proof);
      r := tree.UpdateWithSideNodes(path, value, proof);
      if r.Ok? && updateRoot {
        tree.SetRoot(r.value);
      }
    }
  }
}
