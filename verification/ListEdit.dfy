/** In-place editing of a stored list: the slice surgery of mydis/type_list.go and enforceListLimit. */
module ListEdit {
  import opened Bytes

  // ---------- what the edits mean ----------

  function Spliced<T>(s: seq<T>, i: nat, v: T): seq<T> {
    if i >= |s| then s + [v] else s[..i] + [v] + s[i..]
  }

  function Without<T>(s: seq<T>, i: nat): seq<T>
    requires i < |s|
  {
    s[..i] + s[i + 1..]
  }

  /** The newest `limit` items; zero means no limit. */
  function KeepLast<T>(s: seq<T>, limit: nat): seq<T> {
    if limit == 0 || |s| <= limit then s else s[|s| - limit..]
  }

  /** Index of the first occurrence, or -1. */
  function IndexOf<T(==)>(s: seq<T>, v: T): (i: int)
    ensures -1 <= i < |s|
    ensures i >= 0 ==> s[i] == v && v !in s[..i]
    ensures i == -1 <==> v !in s
  {
    if s == [] then -1
    else if s[0] == v then 0
    else
      var i := IndexOf(s[1..], v);
      if i == -1 then -1
      else
        assert s[..i + 1] == [s[0]] + s[1..][..i];
        i + 1
  }

  /** Deleting the first occurrence takes away one copy of the value and nothing else. */
  lemma FirstOccurrenceRemoved<T>(s: seq<T>, v: T)
    requires v in s
    ensures var i := IndexOf(s, v);
            multiset(Without(s, i)) == multiset(s) - multiset{v} && v !in Without(s, i)[..i]
  {
    var i := IndexOf(s, v);
    var before, after := s[..i], s[i + 1..];
    assert s == before + ([v] + after);
    assert multiset(s) == multiset(before) + multiset([v] + after);
    assert multiset([v] + after) == multiset{v} + multiset(after);
    assert Without(s, i)[..i] == before;
  }

  /** Inserting and then deleting at the same place gives the list back. */
  lemma SpliceThenWithout<T>(s: seq<T>, i: nat, v: T)
    requires i <= |s|
    ensures Without(Spliced(s, i, v), i) == s
    ensures Spliced(s, i, v)[i] == v
  {
  }

  lemma KeepLastBound<T>(s: seq<T>, limit: nat)
    ensures limit > 0 ==> |KeepLast(s, limit)| <= limit
    ensures exists dropped: seq<T> :: s == dropped + KeepLast(s, limit)
  {
    var cut := |s| - |KeepLast(s, limit)|;
    assert s == s[..cut] + KeepLast(s, limit);
  }

  /** Appending one by one with a limit. */
  function AppendAll<T>(s: seq<T>, vs: seq<T>, limit: nat): seq<T>
    decreases |vs|
  {
    if vs == [] then s else AppendAll(KeepLast(s + [vs[0]], limit), vs[1..], limit)
  }

  lemma KeepLastThenAppend<T>(s: seq<T>, t: seq<T>, limit: nat)
    ensures KeepLast(KeepLast(s, limit) + t, limit) == KeepLast(s + t, limit)
  {
    if limit > 0 && |s| > limit {
      assert KeepLast(s, limit) + t == (s + t)[|s| - limit..];
    }
  }

  lemma {:induction false} AppendAllIsTheNewest<T>(s: seq<T>, vs: seq<T>, limit: nat)
    requires vs != []
    ensures AppendAll(s, vs, limit) == KeepLast(s + vs, limit)
    decreases |vs|
  {
    hide KeepLast;
    var first := KeepLast(s + [vs[0]], limit);
    if |vs| == 1 {
      assert vs == [vs[0]];
    } else {
      AppendAllIsTheNewest(first, vs[1..], limit);
      KeepLastThenAppend(s + [vs[0]], vs[1..], limit);
      assert s + vs == s + [vs[0]] + vs[1..];
    }
  }

  /** Appending n items to an empty list with limit L leaves the last min(n, L) of them. */
  lemma AppendsToEmpty<T>(vs: seq<T>, limit: nat)
    ensures AppendAll([], vs, limit) == KeepLast(vs, limit)
    ensures limit > 0 ==> |AppendAll([], vs, limit)| == if |vs| < limit then |vs| else limit
  {
    if vs != [] {
      AppendAllIsTheNewest([], vs, limit);
      assert [] + vs == vs;
    }
  }

  // ---------- how the code does it ----------

  /** `was` after `n` elements from `src` on have been copied to `dst` on. */
  function Copied<T>(was: seq<T>, dst: nat, src: nat, n: nat): seq<T>
    requires dst + n <= |was| && src + n <= |was|
  {
    seq(|was|, p requires 0 <= p < |was| => if dst <= p < dst + n then was[p - dst + src] else was[p])
  }

  /** Go's copy(a[dst:], a[src:]): the overlap is handled as if through a temporary. */
  method CopyWithin<T>(a: array<T>, dst: nat, src: nat)
    requires dst <= a.Length && src <= a.Length
    modifies a
    ensures a[..] == Copied(old(a[..]), dst, src, a.Length - if dst > src then dst else src)
  {
    if dst > src {
      CopyUp(a, dst, src);
    } else {
      CopyDown(a, dst, src);
    }
  }

  method CopyUp<T>(a: array<T>, dst: nat, src: nat)
    requires src < dst <= a.Length
    modifies a
    ensures a[..] == Copied(old(a[..]), dst, src, a.Length - dst)
  {
    ghost var was := a[..];
    var k := a.Length - dst;
    while k > 0
      invariant 0 <= k <= a.Length - dst
      invariant forall p :: 0 <= p < dst + k ==> a[p] == was[p]
      invariant forall p :: dst + k <= p < a.Length ==> a[p] == was[p - dst + src]
    {
      k := k - 1;
      a[dst + k] := a[src + k];
    }
  }

  method CopyDown<T>(a: array<T>, dst: nat, src: nat)
    requires dst <= src <= a.Length
    modifies a
    ensures a[..] == Copied(old(a[..]), dst, src, a.Length - src)
  {
    ghost var was := a[..];
    var n, k := a.Length - src, 0;
    while k < n
      invariant 0 <= k <= n
      invariant forall p :: 0 <= p < dst ==> a[p] == was[p]
      invariant forall p :: dst <= p < dst + k ==> a[p] == was[p - dst + src]
      invariant forall p :: dst + k <= p < a.Length ==> a[p] == was[p]
    {
      a[dst + k] := a[src + k];
      k := k + 1;
    }
  }

  lemma ShiftUpIsSplice<T>(s: seq<T>, i: nat, v: T, filler: T)
    requires i < |s|
    ensures Copied(s + [filler], i + 1, i, |s| - i)[i := v] == Spliced(s, i, v)
  {
  }

  lemma ShiftDownIsWithout<T>(s: seq<T>, i: nat)
    requires i < |s|
    ensures Copied(s, i, i + 1, |s| - i - 1)[..|s| - 1] == Without(s, i)
  {
  }

  /** The mutable pb.List a list operation works on between its read and its commit. */
  class ListBuffer {
    var value: array<Blob>
    var limit: Int64

    constructor (items: seq<Blob>, limit: Int64)
      ensures fresh(value) && value[..] == items && this.limit == limit
    {
      var a := new Blob[|items|](i requires 0 <= i < |items| => items[i]);
      this.value := a;
      this.limit := limit;
      new;
      assert value[..] == items;
    }

    /** lst.Value = append(lst.Value, v) */
    method Append(v: Blob)
      modifies this`value
      ensures fresh(value) && value[..] == old(value[..]) + [v]
    {
      var n, was := value.Length, value;
      var grown := new Blob[n + 1](i reads was requires 0 <= i <= n && n == was.Length =>
        if i < n then was[i] else v);
      value := grown;
      assert value[..n] == was[..];
    }

    /** The insert of ListInsert: grow by a placeholder, shift the tail right, write. */
    method Insert(index: nat, v: Blob)
      modifies this`value
      ensures fresh(value) && value[..] == Spliced(old(value[..]), index, v)
    {
      if index >= value.Length {
        Append(v);
      } else {
        Append(ZERO_BYTE);
        CopyWithin(value, index + 1, index);
        value[index] := v;
        ShiftUpIsSplice(old(value[..]), index, v, ZERO_BYTE);
      }
    }

    /** The delete of ListDelete and ListDeleteItem: shift the tail left, blank the last slot, shorten. */
    method Remove(index: nat)
      requires index < value.Length
      modifies this`value, value
      ensures fresh(value) && value[..] == Without(old(value[..]), index)
    {
      CopyWithin(value, index, index + 1);
      value[value.Length - 1] := ZERO_BYTE;
      ShiftDownIsWithout(old(value[..]), index);
      Reslice(0, value.Length - 1);
    }

    /** lst.Value = lst.Value[from:to] */
    method Reslice(from: nat, to: nat)
      requires from <= to <= value.Length
      modifies this`value
      ensures fresh(value) && value[..] == old(value[..])[from..to]
    {
      var was := value;
      value := new Blob[to - from](i reads was requires 0 <= i < to - from && to <= was.Length => was[from + i]);
    }

    /** The pops: read one end, then cut it off. */
    method TakeEnd(left: bool) returns (item: Blob)
      requires value.Length > 0
      modifies this`value
      ensures fresh(value)
      ensures left ==> [item] + value[..] == old(value[..])
      ensures !left ==> value[..] + [item] == old(value[..])
    {
      var n := value.Length;
      if left {
        item := value[0];
        Reslice(1, n);
      } else {
        item := value[n - 1];
        Reslice(0, n - 1);
      }
    }

    /** enforceListLimit. Slicing with a negative limit reaches past the end and panics. */
    method EnforceLimit() returns (panicked: bool)
      modifies this`value
      ensures panicked <==> limit < 0
      ensures panicked ==> value == old(value)
      ensures !panicked ==> value[..] == KeepLast(old(value[..]), limit)
    {
      if limit == 0 {
        return false;
      }
      var size := value.Length;
      if size <= limit {
        return false;
      }
      if limit < 0 {
        return true;
      }
      Reslice(size - limit, size);
      return false;
    }

    /** The search loop of ListHas and ListDeleteItem. */
    method Find(v: Blob) returns (found: int)
      ensures found == IndexOf(value[..], v)
    {
      var i := 0;
      while i < value.Length
        invariant 0 <= i <= value.Length
        invariant v !in value[..i]
      {
        if value[i] == v {
          FirstIs(value[..], i, v);
          return i;
        }
        i := i + 1;
      }
      assert value[..i] == value[..];
      return -1;
    }
  }

  lemma FirstIs<T>(s: seq<T>, i: nat, v: T)
    requires i < |s| && s[i] == v && v !in s[..i]
    ensures IndexOf(s, v) == i
  {
    var k := IndexOf(s, v);
    assert s[i] in s;
    NotBefore(s, i, v, k);
    NotBefore(s, k, v, i);
  }

  lemma NotBefore<T>(s: seq<T>, i: nat, v: T, k: nat)
    requires i < |s| && k < |s| && v !in s[..i] && s[k] == v
    ensures i <= k
  {
    forall j | 0 <= j < i ensures s[j] != v {
      assert s[..i][j] == s[j];
    }
  }
}
