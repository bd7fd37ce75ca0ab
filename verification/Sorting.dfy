/** Byte strings in increasing order: sort.Strings, and why a sorted enumeration is canonical. */
module Sorting {
  import opened Bytes

  predicate Increasing(s: seq<Bytes>) {
    forall i, j :: 0 <= i < j < |s| ==> Less(s[i], s[j])
  }

  /** `keys` enumerates `all`, in increasing order, each once. */
  ghost predicate Enumerates(keys: seq<Bytes>, all: set<Bytes>) {
    Increasing(keys) && forall k :: k in keys <==> k in all
  }

  lemma SmallestComesFirst(keys: seq<Bytes>, all: set<Bytes>, k: Bytes)
    requires Enumerates(keys, all) && k in all
    ensures k == keys[0] || Less(keys[0], k)
  {
    var i :| 0 <= i < |keys| && keys[i] == k;
  }

  lemma EnumeratesTail(keys: seq<Bytes>, all: set<Bytes>)
    requires Enumerates(keys, all) && keys != []
    ensures Enumerates(keys[1..], all - {keys[0]})
  {
    forall k ensures k in keys[1..] <==> k in all - {keys[0]} {
      LessIrreflexive(keys[0]);
      if k in keys[1..] {
        var i :| 0 <= i < |keys[1..]| && keys[1..][i] == k;
        assert keys[i + 1] == k && Less(keys[0], keys[i + 1]);
      }
      assert keys == [keys[0]] + keys[1..];
    }
  }

  lemma LessIrreflexive(a: Bytes)
    ensures !Less(a, a)
  {
    if Less(a, a) {
      LessAsymmetric(a, a);
    }
  }

  /** There is only one increasing enumeration of a set, and it is as long as the set is large. */
  lemma {:induction false} EnumerationUnique(a: seq<Bytes>, b: seq<Bytes>, all: set<Bytes>)
    requires Enumerates(a, all) && Enumerates(b, all)
    ensures a == b && |a| == |all|
    decreases |a|
  {
    assert b != [] ==> b[0] in b;
    if a == [] {
      assert all == {};
    } else {
      assert a[0] in all && b != [] by {
        assert a[0] in a && a[0] in b;
      }
      assert b[0] in b && b[0] in all;
      SmallestComesFirst(a, all, b[0]);
      SmallestComesFirst(b, all, a[0]);
      if Less(a[0], b[0]) {
        LessAsymmetric(a[0], b[0]);
      }
      EnumeratesTail(a, all);
      EnumeratesTail(b, all);
      EnumerationUnique(a[1..], b[1..], all - {a[0]});
      assert a == [a[0]] + a[1..] && b == [b[0]] + b[1..];
    }
  }

  function Place(k: Bytes, sorted: seq<Bytes>): (r: seq<Bytes>)
    ensures forall x :: x in r <==> x == k || x in sorted
  {
    if sorted == [] || Less(k, sorted[0]) then [k] + sorted
    else
      assert sorted == [sorted[0]] + sorted[1..];
      [sorted[0]] + Place(k, sorted[1..])
  }

  /** sort.Strings */
  function Sort(s: seq<Bytes>): (r: seq<Bytes>)
    ensures forall x :: x in r <==> x in s
  {
    if s == [] then []
    else
      assert s == [s[0]] + s[1..];
      Place(s[0], Sort(s[1..]))
  }

  lemma {:induction false} PlaceKeepsOrder(k: Bytes, sorted: seq<Bytes>)
    requires Increasing(sorted) && k !in sorted
    ensures Increasing(Place(k, sorted))
  {
    if sorted == [] {
    } else if Less(k, sorted[0]) {
      forall j | 0 <= j < |sorted| ensures Less(k, sorted[j]) {
        if j > 0 {
          LessTransitive(k, sorted[0], sorted[j]);
        }
      }
    } else {
      var rest := Place(k, sorted[1..]);
      assert forall i :: 0 <= i < |sorted[1..]| ==> sorted[1..][i] == sorted[i + 1];
      assert k !in sorted[1..];
      PlaceKeepsOrder(k, sorted[1..]);
      assert sorted[0] in sorted && k != sorted[0];
      LessTotal(k, sorted[0]);
      forall j | 0 <= j < |rest| ensures Less(sorted[0], rest[j]) {
        assert rest[j] in rest;
      }
    }
  }

  lemma {:induction false} SortOrders(s: seq<Bytes>)
    requires forall i, j :: 0 <= i < j < |s| ==> s[i] != s[j]
    ensures Increasing(Sort(s))
  {
    if s != [] {
      assert s[0] !in s[1..];
      SortOrders(s[1..]);
      PlaceKeepsOrder(s[0], Sort(s[1..]));
    }
  }
}
