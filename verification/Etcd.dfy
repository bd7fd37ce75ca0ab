/** The store underneath: a byte-string map changed by atomic compare-then-act transactions. */
module Etcd {
  import opened Bytes
  import opened Keys

  type Store = map<Bytes, Bytes>

  function Find(s: Store, key: Bytes): Option<Bytes> {
    if key in s then Some(s[key]) else None
  }

  datatype Request =
    | Put(key: Bytes, value: Bytes)
    | Delete(key: Bytes)
    | Read(key: Bytes)

  /** One VALUE == comparison; the first list runs when it holds, the second when it does not. */
  datatype Txn = Txn(key: Bytes, value: Bytes, success: seq<Request>, failure: seq<Request>)

  /** A comparison on an absent key fails. */
  predicate Succeeds(s: Store, t: Txn) {
    t.key in s && s[t.key] == t.value
  }

  function Perform(s: Store, r: Request): Store {
    match r
    case Put(key, value) => s[key := value]
    case Delete(key) => s - {key}
    case Read(_) => s
  }

  function PerformAll(s: Store, rs: seq<Request>): Store
    decreases |rs|
  {
    if rs == [] then s else PerformAll(Perform(s, rs[0]), rs[1..])
  }

  function Apply(s: Store, t: Txn): Store {
    PerformAll(s, if Succeeds(s, t) then t.success else t.failure)
  }

  // ---------- the transactions mydis issues ----------

  function LockTxn(key: Bytes): Txn {
    Txn(LockName(key), ZERO_BYTE, [], [Put(LockName(key), ZERO_BYTE)])
  }

  function SetTxn(key: Bytes, value: Bytes): Txn {
    Txn(LockName(key), ZERO_BYTE, [], [Put(key, value)])
  }

  function DeleteTxn(key: Bytes): Txn {
    Txn(LockName(key), ZERO_BYTE, [], [Delete(key)])
  }

  /** Its comparison is a dummy: the work is meant to happen in the failure branch. */
  function UnlockThenSetTxn(key: Bytes, value: Bytes): Txn {
    Txn(ZERO_BYTE, ZERO_BYTE, [], [Delete(LockName(key)), Put(key, value)])
  }

  /** "\0" holding [0] would make the dummy comparison succeed. */
  predicate SentinelClear(s: Store) {
    !(ZERO_BYTE in s && s[ZERO_BYTE] == ZERO_BYTE)
  }

  predicate Locked(s: Store, key: Bytes) {
    Find(s, LockName(key)) == Some(ZERO_BYTE)
  }

  lemma PerformFew(s: Store, r: Request, q: Request)
    ensures PerformAll(s, []) == s
    ensures PerformAll(s, [r]) == Perform(s, r)
    ensures PerformAll(s, [r, q]) == Perform(Perform(s, r), q)
  {
    assert [r][1..] == [] && [q][1..] == [] && [r, q][1..] == [q];
    assert PerformAll(Perform(s, r), [q]) == Perform(Perform(s, r), q);
  }

  /** What the four transactions do to the map. */
  lemma TxnEffects(s: Store, key: Bytes, value: Bytes)
    ensures Succeeds(s, LockTxn(key)) == Succeeds(s, SetTxn(key, value)) == Succeeds(s, DeleteTxn(key)) == Locked(s, key)
    ensures Apply(s, LockTxn(key)) == if Locked(s, key) then s else s[LockName(key) := ZERO_BYTE]
    ensures Apply(s, SetTxn(key, value)) == if Locked(s, key) then s else s[key := value]
    ensures Apply(s, DeleteTxn(key)) == if Locked(s, key) then s else s - {key}
    ensures Apply(s, UnlockThenSetTxn(key, value)) ==
            if SentinelClear(s) then (s - {LockName(key)})[key := value] else s
  {
    hide PerformAll;
    PerformFew(s, Put(LockName(key), ZERO_BYTE), Put(key, value));
    PerformFew(s, Put(key, value), Put(key, value));
    PerformFew(s, Delete(key), Put(key, value));
    PerformFew(s, Delete(LockName(key)), Put(key, value));
  }
}
