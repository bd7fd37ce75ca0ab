/** Listing a hash: HashFields, HashValues and HashLength of mydis/type_hash.go. */
module HashEnumeration {
  import opened Bytes
  import opened Sorting

  /** Ranging over the map appends its fields in no particular order. */
  method CollectFields(h: map<Bytes, Bytes>) returns (keys: seq<Bytes>)
    ensures forall k :: k in keys <==> k in h
    ensures forall i, j :: 0 <= i < j < |keys| ==> keys[i] != keys[j]
  {
    keys := [];
    var rest := h.Keys;
    while rest != {}
      invariant rest <= h.Keys
      invariant forall k :: k in h <==> k in rest || k in keys
      invariant forall k :: k in keys ==> k !in rest
      invariant forall i, j :: 0 <= i < j < |keys| ==> keys[i] != keys[j]
      decreases rest
    {
      var field :| field in rest;
      keys, rest := keys + [field], rest - {field};
    }
  }

  /** Whatever the iteration order was, the answer is the one increasing enumeration of the fields. */
  method HashFields(h: map<Bytes, Bytes>) returns (keys: seq<Bytes>)
    ensures Enumerates(keys, h.Keys) && |keys| == |h|
    ensures forall other :: Enumerates(other, h.Keys) ==> other == keys
  {
    keys := CollectFields(h);
    SortOrders(keys);
    keys := Sort(keys);
    forall other | Enumerates(other, h.Keys) ensures other == keys && |keys| == |h| {
      EnumerationUnique(other, keys, h.Keys);
    }
    EnumerationUnique(keys, keys, h.Keys);
  }

  /** The values, index by index with the fields HashFields lists. */
  method HashValues(h: map<Bytes, Bytes>) returns (values: seq<Bytes>)
    ensures forall keys :: Enumerates(keys, h.Keys) ==>
              |values| == |keys| && forall i :: 0 <= i < |keys| ==> values[i] == h[keys[i]]
  {
    var keys := HashFields(h);
    values := [];
    for n := 0 to |keys|
      invariant |values| == n && forall i :: 0 <= i < n ==> values[i] == h[keys[i]]
    {
      assert keys[n] in keys;
      values := values + [h[keys[n]]];
    }
  }

  function Zip(keys: seq<Bytes>, values: seq<Bytes>): map<Bytes, Bytes>
    requires |keys| == |values|
  {
    if keys == [] then map[] else Zip(keys[1..], values[1..])[keys[0] := values[0]]
  }

  /** Putting the two listings together again gives exactly the hash. */
  lemma {:induction false} ZipRebuilds(h: map<Bytes, Bytes>, keys: seq<Bytes>, values: seq<Bytes>)
    requires Enumerates(keys, h.Keys)
    requires |values| == |keys| && forall i :: 0 <= i < |keys| ==> values[i] == h[keys[i]]
    ensures Zip(keys, values) == h && |keys| == |h|
    decreases |keys|
  {
    hide Increasing;
    EnumerationUnique(keys, keys, h.Keys);
    if keys == [] {
      assert h.Keys == {};
    } else {
      assert keys[0] in keys;
      EnumeratesTail(keys, h.Keys);
      var rest := h - {keys[0]};
      assert rest.Keys == h.Keys - {keys[0]};
      forall i | 0 <= i < |keys[1..]| ensures values[1..][i] == rest[keys[1..][i]] {
        assert keys[1..][i] in keys[1..];
      }
      ZipRebuilds(rest, keys[1..], values[1..]);
      PutBack(h, keys[0]);
    }
  }

  lemma PutBack(h: map<Bytes, Bytes>, field: Bytes)
    requires field in h
    ensures (h - {field})[field := h[field]] == h
  {
  }
}
