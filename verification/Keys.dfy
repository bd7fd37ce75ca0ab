/** Key ranges and lock names: mydis/util.go. */
module Keys {
  import opened Bytes

  /** "*_MYDIS_LOCK" */
  const LOCK_SUFFIX: Bytes := [42, 95, 77, 89, 68, 73, 83, 95, 76, 79, 67, 75]

  /** "*_MYDIS_WITHPREFIX" */
  const PREFIX_SUFFIX: Bytes :=
    [42, 95, 77, 89, 68, 73, 83, 95, 87, 73, 84, 72, 80, 82, 69, 70, 73, 88]

  function LockName(key: Bytes): Bytes {
    key + LOCK_SUFFIX
  }

  /** The keys that are locks of something. Clients are expected to stay out of them. */
  predicate IsLockName(key: Bytes) {
    HasSuffix(key, LOCK_SUFFIX)
  }

  /** UnlockThenSet and Set reject the empty key and "\0". */
  predicate ValidKey(key: Bytes) {
    key != [] && key != ZERO_BYTE
  }

  /** How the store reads the pair (Key, RangeEnd) of a range request. */
  predicate InRange(s: Bytes, key: Bytes, end: Bytes) {
    if end == [] then s == key
    else if end == ZERO_BYTE then !Less(s, key)
    else !Less(s, key) && Less(s, end)
  }

  /** The range end that stands for "every key with this prefix". */
  function PrefixEnd(key: Bytes): (end: Bytes) {
    if key == [] then ZERO_BYTE
    else if key[|key| - 1] < 255 then key[..|key| - 1] + [key[|key| - 1] + 1]
    else PrefixEnd(key[..|key| - 1])
  }

  predicate AllOnes(key: Bytes) {
    forall i :: 0 <= i < |key| ==> key[i] == 255
  }

  /** getPrefix: copy the key, then from the right increment the first byte that is not 0xff and cut there. */
  method GetPrefix(key: Bytes) returns (end: Bytes)
    ensures end == PrefixEnd(key)
    ensures forall s: Bytes :: InRange(s, key, end) <==> HasPrefix(s, key)
  {
    forall s: Bytes ensures InRange(s, key, PrefixEnd(key)) <==> HasPrefix(s, key) {
      PrefixRangeExact(s, key);
    }
    var buf := new byte[|key|](i requires 0 <= i < |key| => key[i]);
    var i := |key| - 1;
    assert key[..|key|] == key;
    while i >= 0
      invariant -1 <= i < |key|
      invariant buf[..] == key
      invariant PrefixEnd(key) == PrefixEnd(key[..i + 1])
    {
      if buf[i] < 255 {
        assert key[..i + 1][..i] == key[..i];
        buf[i] := buf[i] + 1;
        assert buf[..i + 1] == key[..i] + [key[i] + 1];
        return buf[..i + 1];
      }
      assert key[..i + 1][..i] == key[..i];
      i := i - 1;
    }
    return ZERO_BYTE;
  }

  /** The computed end is the "no upper bound" marker only when no upper bound exists. */
  lemma {:induction false} SentinelExactlyWhenUnbounded(key: Bytes)
    ensures PrefixEnd(key) == ZERO_BYTE <==> AllOnes(key)
    ensures PrefixEnd(key) != []
  {
    if key != [] {
      var init := key[..|key| - 1];
      if key[|key| - 1] < 255 {
        var end := PrefixEnd(key);
        assert end[|end| - 1] != 0;
      } else {
        SentinelExactlyWhenUnbounded(init);
        assert forall i :: 0 <= i < |init| ==> init[i] == key[i];
      }
    }
  }

  /** PrefixEnd seen from the first byte. */
  lemma {:induction false} PrefixEndFromFront(key: Bytes)
    requires key != []
    ensures PrefixEnd(key) ==
            if !AllOnes(key[1..]) then [key[0]] + PrefixEnd(key[1..])
            else if key[0] < 255 then [key[0] + 1]
            else ZERO_BYTE
  {
    var n := |key| - 1;
    if n == 0 {
    } else if key[n] < 255 {
      assert key[1..][n - 1] == key[n];
      assert key[1..][..n - 1] == key[1..n];
    } else {
      PrefixEndFromFront(key[..n]);
      assert key[..n][1..] == key[1..n] == key[1..][..n - 1];
      assert key[1..][n - 1] == key[n];
      assert AllOnes(key[1..]) <==> AllOnes(key[1..n]) by {
        assert forall i :: 0 <= i < n - 1 ==> key[1..][i] == key[1..n][i];
      }
    }
  }

  lemma {:induction false} PrefixFromFront(s: Bytes, key: Bytes)
    requires key != [] && s != []
    ensures HasPrefix(s, key) <==> s[0] == key[0] && HasPrefix(s[1..], key[1..])
  {
    if |key| <= |s| {
      assert s[..|key|] == [s[0]] + s[1..][..|key| - 1];
      assert key == [key[0]] + key[1..];
    }
  }

  /** A string is at least an all-0xff string exactly when it starts with it. */
  lemma {:induction false} AtLeastAllOnes(s: Bytes, key: Bytes)
    requires AllOnes(key)
    ensures !Less(s, key) <==> HasPrefix(s, key)
  {
    if key != [] && s != [] {
      AtLeastAllOnes(s[1..], key[1..]);
      PrefixFromFront(s, key);
    }
  }

  /** The range asked from the store is exactly the set of keys with the prefix. */
  lemma {:induction false} PrefixRangeExact(s: Bytes, key: Bytes)
    ensures InRange(s, key, PrefixEnd(key)) <==> HasPrefix(s, key)
  {
    SentinelExactlyWhenUnbounded(key);
    if AllOnes(key) {
      AtLeastAllOnes(s, key);
    } else if s != [] {
      PrefixEndFromFront(key);
      PrefixFromFront(s, key);
      if AllOnes(key[1..]) {
        AtLeastAllOnes(s[1..], key[1..]);
        assert !Less(s[1..], PrefixEnd(key)[1..]);
      } else {
        PrefixRangeExact(s[1..], key[1..]);
        SentinelExactlyWhenUnbounded(key[1..]);
      }
    }
  }

  /** GetKeyPrefix: a trailing '*' asks for the prefix before it; any other key asks for everything from it on. */
  function KeyPrefix(key: Bytes): (range: (Bytes, Bytes)) {
    if HasSuffix(key, [42]) then (key[..|key| - 1], PrefixEnd(key[..|key| - 1])) else (key, ZERO_BYTE)
  }

  lemma KeyPrefixCovers(key: Bytes, s: Bytes)
    ensures InRange(s, KeyPrefix(key).0, KeyPrefix(key).1) <==>
            if HasSuffix(key, [42]) then HasPrefix(s, key[..|key| - 1]) else !Less(s, key)
  {
    if HasSuffix(key, [42]) {
      PrefixRangeExact(s, key[..|key| - 1]);
    }
  }

  /** Two keys share a lock only if they are the same key, and no lock name is rejected as a key. */
  lemma LockNameInjective(a: Bytes, b: Bytes)
    ensures LockName(a) == LockName(b) <==> a == b
    ensures IsLockName(LockName(a)) && ValidKey(LockName(a))
  {
    assert LockName(a)[..|LockName(a)| - |LOCK_SUFFIX|] == a;
    assert LockName(b)[..|LockName(b)| - |LOCK_SUFFIX|] == b;
  }

  /** The lock names are exactly the keys with the suffix. */
  lemma LockNameOnto(key: Bytes)
    ensures IsLockName(key) <==> exists base: Bytes :: LockName(base) == key
  {
    if IsLockName(key) {
      assert LockName(key[..|key| - |LOCK_SUFFIX|]) == key;
    }
    forall base: Bytes | LockName(base) == key ensures IsLockName(key) {
      LockNameInjective(base, base);
    }
  }

  function LockDepthName(key: Bytes, depth: nat): Bytes {
    if depth == 0 then key else LockName(LockDepthName(key, depth - 1))
  }

  /** A key, its lock, the lock of its lock, ... are all different, and the chains of two data keys never meet. */
  lemma {:induction false} LockChainsNeverMeet(a: Bytes, i: nat, b: Bytes, j: nat)
    requires !IsLockName(a) && !IsLockName(b)
    ensures LockDepthName(a, i) == LockDepthName(b, j) <==> a == b && i == j
  {
    if i > 0 && j > 0 {
      LockChainsNeverMeet(a, i - 1, b, j - 1);
      LockNameInjective(LockDepthName(a, i - 1), LockDepthName(b, j - 1));
    } else if i > 0 {
      LockNameInjective(LockDepthName(a, i - 1), a);
    } else if j > 0 {
      LockNameInjective(LockDepthName(b, j - 1), b);
    }
  }
}
