/** Reads of more than one key: KeysWithPrefix, GetWithPrefix and GetMany. */
module Reads {
  import opened Bytes
  import opened Keys
  import opened Etcd
  import opened Sorting

  function KeysInRange(s: Store, key: Bytes, end: Bytes): set<Bytes> {
    set k | k in s && InRange(k, key, end)
  }

  /** The store answers a range in key order, cut to the limit when there is one. */
  ghost predicate AnswersRange(keys: seq<Bytes>, s: Store, key: Bytes, end: Bytes, limit: nat) {
    exists every :: Enumerates(every, KeysInRange(s, key, end)) &&
                    keys == if limit == 0 || |every| <= limit then every else every[..limit]
  }

  method Smallest(all: set<Bytes>) returns (m: Bytes)
    requires all != {}
    ensures m in all && forall k :: k in all ==> k == m || Less(m, k)
  {
    m :| m in all;
    var rest := all - {m};
    while rest != {}
      invariant rest <= all && m in all
      invariant forall k :: k in all - rest ==> k == m || Less(m, k)
      decreases rest
    {
      var k :| k in rest;
      LessTotal(k, m);
      if Less(k, m) {
        forall x | x in all - rest && x != m ensures Less(k, x) {
          LessTransitive(k, m, x);
        }
        m := k;
      }
      rest := rest - {k};
    }
  }

  method Range(s: Store, key: Bytes, end: Bytes, limit: nat) returns (keys: seq<Bytes>)
    ensures AnswersRange(keys, s, key, end, limit)
  {
    var every := [];
    var rest := KeysInRange(s, key, end);
    while rest != {}
      invariant rest <= KeysInRange(s, key, end) && Increasing(every)
      invariant forall k :: k in KeysInRange(s, key, end) <==> k in rest || k in every
      invariant forall i, k :: 0 <= i < |every| && k in rest ==> Less(every[i], k)
      decreases rest
    {
      var m := Smallest(rest);
      every, rest := every + [m], rest - {m};
    }
    assert Enumerates(every, KeysInRange(s, key, end));
    keys := if limit == 0 || |every| <= limit then every else every[..limit];
  }

  lemma PrefixKeys(s: Store, prefix: Bytes)
    ensures KeysInRange(s, prefix, PrefixEnd(prefix)) == set k | k in s && HasPrefix(k, prefix)
  {
    forall k ensures InRange(k, prefix, PrefixEnd(prefix)) <==> HasPrefix(k, prefix) {
      PrefixRangeExact(k, prefix);
    }
  }

  /** KeysWithPrefix: exactly the stored keys with the prefix, in order. */
  method KeysWithPrefix(s: Store, prefix: Bytes) returns (list: seq<Bytes>)
    ensures Enumerates(list, set k | k in s && HasPrefix(k, prefix))
  {
    PrefixKeys(s, prefix);
    var end := GetPrefix(prefix);
    var keys := Range(s, prefix, end, 0);
    list := [];
    for i := 0 to |keys|
      invariant list == keys[..i]
    {
      list := list + [keys[i]];
    }
  }

  /** GetWithPrefix: the stored pairs with the prefix; with a limit, those of the smallest keys only. */
  method GetWithPrefix(s: Store, prefix: Bytes, limit: nat) returns (h: map<Bytes, Bytes>)
    ensures limit == 0 ==> h == map k | k in s && HasPrefix(k, prefix) :: s[k]
    ensures forall every :: Enumerates(every, set k | k in s && HasPrefix(k, prefix)) && limit > 0 ==>
              h == map k | k in s && k in every[..if |every| <= limit then |every| else limit] :: s[k]
  {
    PrefixKeys(s, prefix);
    var end := GetPrefix(prefix);
    var keys := Range(s, prefix, end, limit);
    ghost var all := KeysInRange(s, prefix, end);
    ghost var every :| Enumerates(every, all) && keys == if limit == 0 || |every| <= limit then every else every[..limit];
    h := map[];
    for i := 0 to |keys|
      invariant h == map k | k in s && k in keys[..i] :: s[k]
    {
      assert keys[i] in every;
      assert keys[..i + 1] == keys[..i] + [keys[i]];
      h := h[keys[i] := s[keys[i]]];
    }
    assert keys[..|keys|] == keys;
    forall other | Enumerates(other, all) ensures other == every {
      EnumerationUnique(other, every, all);
    }
  }

  function Responses(s: Store, rs: seq<Request>): seq<Option<Bytes>> {
    seq(|rs|, i requires 0 <= i < |rs| => Find(s, rs[i].key))
  }

  /**
   GetMany reads all keys in one transaction, in the branch its dummy comparison leaves. It answers the store
   restricted to the keys asked for, unless "\0" holds [0], when it answers nothing.
   */
  method GetMany(s: Store, keys: seq<Bytes>) returns (h: map<Bytes, Bytes>)
    ensures h == if SentinelClear(s) then map k | k in keys && k in s :: s[k] else map[]
  {
    if |keys| == 0 {
      return map[];
    }
    var requests: seq<Request> := [];
    for i := 0 to |keys|
      invariant |requests| == i && forall j :: 0 <= j < i ==> requests[j] == Read(keys[j])
    {
      requests := requests + [Read(keys[i])];
    }
    var t := Txn(ZERO_BYTE, ZERO_BYTE, [], requests);
    var responses := Responses(s, if Succeeds(s, t) then t.success else t.failure);
    h := map[];
    for i := 0 to |responses|
      invariant h == map k | k in keys[..i] && k in s :: s[k]
    {
      assert keys[..i + 1] == keys[..i] + [keys[i]];
      if responses[i].Some? {
        h := h[keys[i] := responses[i].value];
      }
    }
    assert keys[..|keys|] == keys;
  }
}
