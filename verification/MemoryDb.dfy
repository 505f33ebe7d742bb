/** The in-memory key-value store with its deferred writers (db/memorydb). */
module MemoryDb {
  import opened ByteStrings
  import opened Errors
  import opened Namespaces

  datatype TxOp = SetOp(key: bytes, value: bytes) | DeleteOp(key: bytes)

  /** The effect of a list of queued operations, in order. */
  function ApplyOps(store: Store, ops: seq<TxOp>): Store {
    if ops == [] then store
    else
      var before := ApplyOps(store, ops[..|ops| - 1]);
      match ops[|ops| - 1]
      case SetOp(k, v) => before[k := v]
      case DeleteOp(k) => before - {k}
  }

  lemma {:induction false} ApplyOpsAppend(store: Store, ops: seq<TxOp>, more: seq<TxOp>)
    ensures ApplyOps(store, ops + more) == ApplyOps(ApplyOps(store, ops), more)
  {
    if more == [] {
      assert ops + more == ops;
    } else {
      ApplyOpsAppend(store, ops, more[..|more| - 1]);
      assert (ops + more)[..|ops + more| - 1] == ops + more[..|more| - 1];
    }
  }

  lemma {:induction false} UntouchedKeyStays(store: Store, ops: seq<TxOp>, key: bytes)
    requires forall op :: op in ops ==> op.key != key
    ensures key in ApplyOps(store, ops) <==> key in store
    ensures key in store ==> ApplyOps(store, ops)[key] == store[key]
  {
    if ops != [] {
      assert ops[|ops| - 1] in ops;
      UntouchedKeyStays(store, ops[..|ops| - 1], key);
    }
  }

  /** After a flush a key holds what the last operation on it left there. */
  lemma LastWriteWins(store: Store, before: seq<TxOp>, op: TxOp, after: seq<TxOp>)
    requires forall later :: later in after ==> later.key != op.key
    ensures op.key in ApplyOps(store, before + [op] + after) <==> op.SetOp?
    ensures op.SetOp? ==> ApplyOps(store, before + [op] + after)[op.key] == op.value
  {
    ApplyOpsAppend(store, before + [op], after);
    UntouchedKeyStays(ApplyOps(store, before + [op]), after, op.key);
    assert (before + [op])[..|before|] == before;
  }

  class DB {
    var store: Store

    constructor ()
      ensures store == map[]
    {
      store := map[];
    }

    method Set(namespace: Option<bytes>, key: bytes, value: bytes)
      modifies this
      ensures store == old(store)[PrependNamespace(namespace, key) := value]
    {
      store := store[PrependNamespace(namespace, key) := value];
    }

    method Delete(namespace: Option<bytes>, key: bytes)
      modifies this
      ensures store == old(store) - {PrependNamespace(namespace, key)}
    {
      store := store - {PrependNamespace(namespace, key)};
    }

    method Get(namespace: Option<bytes>, key: bytes) returns (value: bytes, exists_: bool)
      ensures exists_ <==> PrependNamespace(namespace, key) in store
      ensures value == if exists_ then store[PrependNamespace(namespace, key)] else []
    {
      var k := PrependNamespace(namespace, key);
      exists_ := k in store;
      value := if k in store then store[k] else [];
    }
  }

  /** A batch of writes; nothing reaches the store before Flush. */
  class Bulk {
    const db: DB
    var ops: seq<TxOp>
    var isDiscard: bool
    var isCommit: bool

    constructor (db: DB)
      ensures this.db == db && ops == [] && !isDiscard && !isCommit
    {
      this.db := db;
      ops, isDiscard, isCommit := [], false, false;
    }

    method Set(namespace: Option<bytes>, key: bytes, value: bytes)
      modifies this
      ensures ops == old(ops) + [SetOp(PrependNamespace(namespace, key), value)]
      ensures isDiscard == old(isDiscard) && isCommit == old(isCommit)
    {
      ops := ops + [SetOp(PrependNamespace(namespace, key), value)];
    }

    method Delete(namespace: Option<bytes>, key: bytes)
      modifies this
      ensures ops == old(ops) + [DeleteOp(PrependNamespace(namespace, key))]
      ensures isDiscard == old(isDiscard) && isCommit == old(isCommit)
    {
      ops := ops + [DeleteOp(PrependNamespace(namespace, key))];
    }

    method Flush() returns (r: Result<()>)
      modifies this, db
      ensures ops == old(ops) && isDiscard == old(isDiscard)
      ensures isDiscard ==> r == Err(CommitAfterDiscard)
      ensures !isDiscard && old(isCommit) ==> r == Err(CommitTwice)
      ensures !isDiscard && !old(isCommit) ==> r.Ok? && isCommit
      ensures r.Ok? ==> db.store == ApplyOps(old(db.store), ops)
      ensures r.Err? ==> db.store == old(db.store) && isCommit == old(isCommit)
    {
      if isDiscard {
        return Err(CommitAfterDiscard);
      } else if isCommit {
        return Err(CommitTwice);
      }
      var i := 0;
      while i < |ops|
        invariant 0 <= i <= |ops|
        invariant db.store == ApplyOps(old(db.store), ops[..i])
        invariant ops == old(ops) && isDiscard == old(isDiscard)
      {
        var op := ops[i];
        assert ops[..i + 1][..i] == ops[..i];
        match op {
          case SetOp(k, v) => db.store := db.store[k := v];
          case DeleteOp(k) => db.store := db.store - {k};
        }
        i := i + 1;
      }
      assert ops[..|ops|] == ops;
      isCommit := true;
      r := Ok(());
    }

    method DiscardLast()
      modifies this
      ensures isDiscard && ops == old(ops) && isCommit == old(isCommit)
    {
      isDiscard := true;
    }
  }

  /** An atomic group of writes: all of them reach the store at Commit, or none does. */
  class Transaction {
    const db: DB
    var ops: seq<TxOp>
    var isDiscard: bool
    var isCommit: bool

    constructor (db: DB)
      ensures this.db == db && ops == [] && !isDiscard && !isCommit
    {
      this.db := db;
      ops, isDiscard, isCommit := [], false, false;
    }

    method Set(namespace: Option<bytes>, key: bytes, value: bytes)
      modifies this
      ensures ops == old(ops) + [SetOp(PrependNamespace(namespace, key), value)]
      ensures isDiscard == old(isDiscard) && isCommit == old(isCommit)
    {
      ops := ops + [SetOp(PrependNamespace(namespace, key), value)];
    }

    method Delete(namespace: Option<bytes>, key: bytes)
      modifies this
      ensures ops == old(ops) + [DeleteOp(PrependNamespace(namespace, key))]
      ensures isDiscard == old(isDiscard) && isCommit == old(isCommit)
    {
      ops := ops + [DeleteOp(PrependNamespace(namespace, key))];
    }

    method Commit() returns (r: Result<()>)
      modifies this, db
      ensures ops == old(ops) && isDiscard == old(isDiscard)
      ensures isDiscard ==> r == Err(CommitAfterDiscard)
      ensures !isDiscard && old(isCommit) ==> r == Err(CommitTwice)
      ensures !isDiscard && !old(isCommit) ==> r.Ok? && isCommit
      ensures r.Ok? ==> db.store == ApplyOps(old(db.store), ops)
      ensures r.Err? ==> db.store == old(db.store) && isCommit == old(isCommit)
    {
      if isDiscard {
        return Err(CommitAfterDiscard);
      } else if isCommit {
        return Err(CommitTwice);
      }
      var i := 0;
      while i < |ops|
        invariant 0 <= i <= |ops|
        invariant db.store == ApplyOps(old(db.store), ops[..i])
        invariant ops == old(ops) && isDiscard == old(isDiscard)
      {
        var op := ops[i];
        assert ops[..i + 1][..i] == ops[..i];
        match op {
          case SetOp(k, v) => db.store := db.store[k := v];
          case DeleteOp(k) => db.store := db.store - {k};
        }
        i := i + 1;
      }
      assert ops[..|ops|] == ops;
      isCommit := true;
      r := Ok(());
    }

    method Discard()
      modifies this
      ensures isDiscard && ops == old(ops) && isCommit == old(isCommit)
    {
      isDiscard := true;
    }
  }
}
