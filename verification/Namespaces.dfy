/** Key construction of the shared key-value store (db/utils.go). */
module Namespaces {
  import opened ByteStrings

  type Store = map<bytes, bytes>

  const SEPARATOR: byte := 124
  const EMPTY_KEY: bytes := []

  const STATE_TRIE: bytes := [115, 116]
  const ROLLUP_BLOCK_TRIE: bytes := [114, 98, 116]
  const TOKEN_ADDRESS_TO_INDEX: bytes := [116, 97, 116, 116, 105]
  const TOKEN_INDEX_TO_ADDRESS: bytes := [116, 105, 116, 116, 97]
  const ACCOUNT_ADDRESS_TO_KEY: bytes := [97, 97, 116, 107]
  const LAST_KEY: bytes := [108, 107]
  const KEY_TO_ACCOUNT_INFO: bytes := [107, 116, 97, 105]
  const ROLLUP_BLOCK_NUMBER: bytes := [114, 98, 110]

  /** A nil namespace leaves the key as it is. */
  function PrependNamespace(namespace: Option<bytes>, key: bytes): bytes {
    match namespace
    case None => key
    case Some(ns) => ns + [SEPARATOR] + key
  }

  function Key(ns: bytes, key: bytes): bytes {
    PrependNamespace(Some(ns), key)
  }

  /** Namespaces without a separator never overlap: the stored key determines both parts. */
  lemma NamespacesNeverOverlap(ns1: bytes, key1: bytes, ns2: bytes, key2: bytes)
    requires SEPARATOR !in ns1 && SEPARATOR !in ns2
    ensures Key(ns1, key1) == Key(ns2, key2) <==> ns1 == ns2 && key1 == key2
  {
    if Key(ns1, key1) == Key(ns2, key2) {
      var k := Key(ns1, key1);
      assert k[|ns1|] == SEPARATOR && k[|ns2|] == SEPARATOR;
      assert forall i :: 0 <= i < |ns1| ==> k[i] == ns1[i];
      assert forall i :: 0 <= i < |ns2| ==> k[i] == ns2[i];
      assert ns1 == k[..|ns1|] == ns2;
      assert key1 == k[|ns1| + 1..] == key2;
    }
  }

  /** Within one namespace, or none, distinct keys are stored apart. */
  lemma PrependInjective(namespace: Option<bytes>, key1: bytes, key2: bytes)
    requires PrependNamespace(namespace, key1) == PrependNamespace(namespace, key2)
    ensures key1 == key2
  {
    match namespace
    case None =>
    case Some(ns) =>
      assert key1 == Key(ns, key1)[|ns| + 1..] == Key(ns, key2)[|ns| + 1..] == key2;
  }

  // ---------------------------------------------------------------- tables

  /** The part of the store kept under one namespace. */
  ghost function Table(store: Store, ns: bytes): imap<bytes, bytes> {
    imap key: bytes | Key(ns, key) in store :: store[Key(ns, key)]
  }

  /** A namespaced write changes one entry of one table. */
  lemma TableSet(store: Store, ns: bytes, key: bytes, value: bytes, other: bytes)
    requires SEPARATOR !in ns && SEPARATOR !in other
    ensures Table(store[Key(ns, key) := value], other) ==
            if other == ns then Table(store, ns)[key := value] else Table(store, other)
  {
    forall k: bytes
      ensures Key(other, k) == Key(ns, key) <==> other == ns && k == key
    {
      NamespacesNeverOverlap(other, k, ns, key);
    }
  }

  lemma TableRead(store: Store, ns: bytes, key: bytes)
    ensures key in Table(store, ns) <==> Key(ns, key) in store
    ensures key in Table(store, ns) ==> Table(store, ns)[key] == store[Key(ns, key)]
  {
  }
}
