/**
 Two operations hide their work in the branch of a comparison that is meant never to hold: "\0" == [0].
 Every write the server can make, with any arguments, the unguarded ones included, leaves it so.
 */
module Sentinel {
  import opened Bytes
  import opened Keys
  import opened Etcd

  datatype ServerWrite =
    | Lock(key: Bytes)
    | Set(key: Bytes, value: Bytes)
    | DeleteKey(key: Bytes)
    | UnlockThenSet(key: Bytes, value: Bytes)
    | SetExpire(key: Bytes) // puts an empty value without looking at locks
    | LeaseRunsOut(key: Bytes)
    | Clear

  function After(s: Store, w: ServerWrite): Store {
    match w
    case Lock(key) => Apply(s, LockTxn(key))
    case Set(key, value) => if ValidKey(key) then Apply(s, SetTxn(key, value)) else s
    case DeleteKey(key) => Apply(s, DeleteTxn(key))
    case UnlockThenSet(key, value) => if ValidKey(key) then Apply(s, UnlockThenSetTxn(key, value)) else s
    case SetExpire(key) => s[key := []]
    case LeaseRunsOut(key) => s - {key}
    case Clear => map k | k in s && !InRange(k, ZERO_BYTE, ZERO_BYTE) :: s[k]
  }

  function AfterAll(s: Store, ws: seq<ServerWrite>): Store {
    if ws == [] then s else After(AfterAll(s, ws[..|ws| - 1]), ws[|ws| - 1])
  }

  lemma WriteKeepsSentinelClear(s: Store, w: ServerWrite)
    requires SentinelClear(s)
    ensures SentinelClear(After(s, w))
  {
    hide Apply;
    if !w.Clear? {
      TxnEffects(s, w.key, if w.Set? || w.UnlockThenSet? then w.value else []);
      LockNameInjective(w.key, w.key);
    }
  }

  lemma {:induction false} SentinelStaysClear(s: Store, ws: seq<ServerWrite>)
    requires SentinelClear(s)
    ensures SentinelClear(AfterAll(s, ws))
    decreases |ws|
  {
    hide After, SentinelClear;
    if ws != [] {
      SentinelStaysClear(s, ws[..|ws| - 1]);
      WriteKeepsSentinelClear(AfterAll(s, ws[..|ws| - 1]), ws[|ws| - 1]);
    }
  }

  /** So in every reachable store UnlockThenSet does both its writes. */
  lemma UnlockThenSetDoesBoth(ws: seq<ServerWrite>, key: Bytes, value: Bytes)
    ensures var s := AfterAll(map[], ws);
            Apply(s, UnlockThenSetTxn(key, value)) == (s - {LockName(key)})[key := value]
  {
    hide Apply, AfterAll;
    SentinelStaysClear(map[], ws);
    TxnEffects(AfterAll(map[], ws), key, value);
  }
}
