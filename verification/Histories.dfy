/**
 What holds of every legal history of atomic operations, and so of every run: counters, queues,
 set-once keys and bounded lists.
 */
module Histories {
  import opened Bytes
  import opened Keys
  import opened Etcd
  import opened Wire
  import opened Messages
  import opened ListEdit
  import opened Operations
  import opened Protocol
  import opened Safety
  import opened Theorems

  // ---------- single events ----------

  predicate Deletes(e: Event, key: Bytes) {
    e.call.PlainDelete? && e.call.key == key && e.reply == Nothing
  }

  predicate Writes(e: Event, key: Bytes) {
    e.call.key == key && e.wrote.Some?
  }

  predicate Commits(e: Event, key: Bytes) {
    Writes(e, key) && e.call.LockedUpdate?
  }

  lemma Untouched(d: Store, e: Event, key: Bytes)
    requires !Writes(e, key) && !Deletes(e, key)
    ensures Find(Changed(d, e), key) == Find(d, key)
  {
  }

  lemma CommitDecides(d: Store, e: Event, key: Bytes)
    requires Atomic(d, e) && Commits(e, key)
    ensures var o := Decide(e.call.op, Find(d, key));
            o.Commit? && o.reply == e.reply && StoredAs(o.stored, e.wrote.value) && ValidKey(key)
    ensures Find(Changed(d, e), key) == e.wrote
  {
    hide Decide, StoredAs;
  }

  // ---------- counters ----------

  /** The integer a key stands for: absent is zero, unreadable is none. */
  function Count(current: Option<Bytes>): Option<Int64> {
    match LoadInt(current)
    case Missing => Some(0)
    case Loaded(iv) => Some(iv.value)
    case Broken(_) => None
  }

  predicate IsIncrement(e: Event, key: Bytes) {
    Commits(e, key) && e.call.op.Increment?
  }

  ghost predicate OnlyIncremented(log: seq<Event>, key: Bytes) {
    forall i :: 0 <= i < |log| ==> !Deletes(log[i], key) && (Writes(log[i], key) ==> IsIncrement(log[i], key))
  }

  /** The exact, unbounded sum of the increments that committed. */
  function CommittedSum(log: seq<Event>, key: Bytes): int {
    if log == [] then 0
    else
      var e := log[|log| - 1];
      CommittedSum(log[..|log| - 1], key) + if IsIncrement(e, key) then e.call.op.delta else 0
  }

  lemma IncrementCounts(current: Option<Bytes>, delta: Int64, b: Bytes, was: Int64)
    requires Count(current) == Some(was)
    requires var o := Decide(Increment(delta), current); o.Commit? && StoredAs(o.stored, b)
    ensures Count(Some(b)) == Some(Wrap(was + delta))
    ensures Decide(Increment(delta), current).reply == Number(Wrap(was + delta))
  {
    hide UnmarshalInt, MarshalInt;
    IntRoundTrip(IntValue([], Wrap(was + delta)));
  }

  /** The stored integer is the initial one plus every committed delta, modulo 2^64. */
  lemma {:induction false} CounterConserved(d: Store, log: seq<Event>, key: Bytes, initial: Int64)
    requires Legal(d, log) && OnlyIncremented(log, key) && Count(Find(d, key)) == Some(initial)
    ensures Count(Find(Replay(d, log), key)) == Some(Wrap(initial + CommittedSum(log, key)))
    decreases |log|
  {
    hide Count, Decide, StoredAs, Atomic, Changed;
    if log == [] {
      assert Wrap(initial) == initial;
    } else {
      var n := |log| - 1;
      var before, e := Replay(d, log[..n]), log[n];
      CounterConserved(d, log[..n], key, initial);
      if IsIncrement(e, key) {
        CommitDecides(before, e, key);
        IncrementCounts(Find(before, key), e.call.op.delta, e.wrote.value, Wrap(initial + CommittedSum(log[..n], key)));
        WrapSum(initial + CommittedSum(log[..n], key), e.call.op.delta);
      } else {
        Untouched(before, e, key);
      }
    }
  }

  lemma {:induction false} LegalPrefix(d: Store, log: seq<Event>, n: nat)
    requires Legal(d, log) && n <= |log|
    ensures Legal(d, log[..n])
    decreases |log|
  {
    if n == |log| {
      assert log[..n] == log;
    } else {
      LegalPrefix(d, log[..|log| - 1], n);
      assert log[..|log| - 1][..n] == log[..n];
    }
  }

  lemma AtomicAt(d: Store, log: seq<Event>, i: nat)
    requires Legal(d, log) && i < |log|
    ensures Atomic(Replay(d, log[..i]), log[i])
    ensures Replay(d, log[..i + 1]) == Changed(Replay(d, log[..i]), log[i])
  {
    hide Atomic, Changed;
    LegalPrefix(d, log, i + 1);
    assert log[..i + 1][..i] == log[..i] && log[..i + 1][i] == log[i];
  }

  /** Each increment answers the running sum as of its own commit. */
  lemma IncrementReturnsRunningSum(d: Store, log: seq<Event>, key: Bytes, initial: Int64, i: nat)
    requires Legal(d, log) && OnlyIncremented(log, key) && Count(Find(d, key)) == Some(initial)
    requires i < |log| && IsIncrement(log[i], key)
    ensures log[i].reply == Number(Wrap(initial + CommittedSum(log[..i + 1], key)))
  {
    hide Count, Decide, StoredAs, Atomic, Changed, Legal, Replay, Find, Wrap;
    AtomicAt(d, log, i);
    LegalPrefix(d, log, i);
    CounterConserved(d, log[..i], key, initial);
    var before := Replay(d, log[..i]);
    CommitDecides(before, log[i], key);
    IncrementCounts(Find(before, key), log[i].call.op.delta, log[i].wrote.value, Wrap(initial + CommittedSum(log[..i], key)));
    WrapSum(initial + CommittedSum(log[..i], key), log[i].call.op.delta);
    assert log[..i + 1][..i] == log[..i] && log[..i + 1][i] == log[i];
  }

  /** Negating in 64 bits and adding is subtracting, the smallest integer included. */
  lemma DecrementSubtracts(was: Int64, amount: Int64)
    ensures Wrap(was + Decrement(amount).delta) == Wrap(was - amount)
  {
    WrapSum(0 - amount, was);
  }

  /** In every run, whatever is interleaved, a key only ever incremented holds the sum of what was committed. */
  lemma CounterInEveryRun(d: Store, labels: seq<Label>, key: Bytes, initial: Int64)
    requires Fresh(d) && !IsLockName(key) && Count(Find(d, key)) == Some(initial)
    requires OnlyIncremented(Exec(Start(d), labels).log, key)
    ensures var s := Exec(Start(d), labels);
            && Count(Find(s.store, key)) == Some(Wrap(initial + CommittedSum(s.log, key)))
            && forall i :: 0 <= i < |s.log| && IsIncrement(s.log[i], key) ==>
                 s.log[i].reply == Number(Wrap(initial + CommittedSum(s.log[..i + 1], key)))
  {
    hide Exec, Count, Legal, Replay, CommittedSum, Data, Atomic, Wrap;
    Linearizable(d, labels);
    var s := Exec(Start(d), labels);
    DataOfStore(s.store, key, []);
    CounterConserved(d, s.log, key, initial);
    forall i | 0 <= i < |s.log| && IsIncrement(s.log[i], key)
      ensures s.log[i].reply == Number(Wrap(initial + CommittedSum(s.log[..i + 1], key)))
    {
      IncrementReturnsRunningSum(d, s.log, key, initial, i);
    }
  }

  // ---------- queues ----------

  /** The list a key stands for: absent is the empty list without a limit. */
  function ListAt(current: Option<Bytes>): Option<List> {
    match LoadList(current)
    case Missing => Some(EMPTY_LIST)
    case Loaded(l) => Some(l)
    case Broken(_) => None
  }

  lemma StoredListLoads(items: seq<Blob>, limit: Int64)
    ensures LoadList(Some(MarshalList(List([], items, limit)))) == Loaded(List([], items, limit))
  {
    hide UnmarshalList, MarshalList;
    ListRoundTrip(List([], items, limit));
  }

  predicate IsAppend(e: Event, key: Bytes) {
    Commits(e, key) && e.call.op.OnList? && e.call.op.list.Append?
  }

  predicate IsPopLeft(e: Event, key: Bytes) {
    Commits(e, key) && e.call.op.OnList? && e.call.op.list.PopLeft?
  }

  predicate IsSetLimit(e: Event, key: Bytes) {
    Commits(e, key) && e.call.op.OnList? && e.call.op.list.SetLimit?
  }

  ghost predicate UsedAsQueue(log: seq<Event>, key: Bytes) {
    forall i :: 0 <= i < |log| ==>
      !Deletes(log[i], key) &&
      (Writes(log[i], key) ==> IsAppend(log[i], key) || IsPopLeft(log[i], key) || IsSetLimit(log[i], key))
  }

  function AddedBy(e: Event, key: Bytes): seq<Blob> {
    if IsAppend(e, key) then [e.call.op.list.item] else []
  }

  function Appended(log: seq<Event>, key: Bytes): seq<Blob> {
    if log == [] then [] else Appended(log[..|log| - 1], key) + AddedBy(log[|log| - 1], key)
  }

  /** How an item left the queue: handed to a popper, or pushed out by the limit. */
  datatype Removal = Popped(id: nat, item: Bytes) | Evicted(item: Bytes)

  function EvictedBy(l: List, item: Blob): seq<Blob> {
    var grown := l.value + [item];
    if l.limit <= 0 || |grown| <= l.limit then [] else grown[..|grown| - l.limit]
  }

  function Evictions(items: seq<Blob>): (r: seq<Removal>)
    ensures |r| == |items|
  {
    seq(|items|, i requires 0 <= i < |items| => Evicted(items[i]))
  }

  function RemovedBy(d: Store, e: Event, key: Bytes): seq<Removal> {
    var l := ListAt(Find(d, key));
    if l.None? then []
    else if IsPopLeft(e, key) && e.reply.Item? then [Popped(e.id, e.reply.b)]
    else if IsAppend(e, key) then Evictions(EvictedBy(l.value, e.call.op.list.item))
    else []
  }

  /** Everything that left the queue, in the order it left. */
  function Removed(d: Store, log: seq<Event>, key: Bytes): seq<Removal> {
    if log == [] then []
    else Removed(d, log[..|log| - 1], key) + RemovedBy(Replay(d, log[..|log| - 1]), log[|log| - 1], key)
  }

  function Items(rs: seq<Removal>): (items: seq<Bytes>)
    ensures |items| == |rs|
  {
    seq(|rs|, i requires 0 <= i < |rs| => rs[i].item)
  }

  lemma ItemsAppend(a: seq<Removal>, b: seq<Removal>)
    ensures Items(a + b) == Items(a) + Items(b)
  {
  }

  lemma ItemsOfEvictions(items: seq<Blob>)
    ensures Items(Evictions(items)) == items
  {
  }

  ghost predicate QueueStep(was: List, e: Event, key: Bytes, now: List, removed: seq<Removal>) {
    was.value + AddedBy(e, key) == Items(removed) + now.value
  }

  lemma EvictedThenKept(l: List, item: Blob)
    requires l.limit >= 0
    ensures l.value + [item] == EvictedBy(l, item) + KeepLast(l.value + [item], l.limit)
  {
  }

  lemma AppendMovesItems(d: Store, e: Event, key: Bytes)
    requires Atomic(d, e) && ListAt(Find(d, key)).Some? && IsAppend(e, key)
    ensures ListAt(Find(Changed(d, e), key)).Some?
    ensures QueueStep(ListAt(Find(d, key)).value, e, key, ListAt(Find(Changed(d, e), key)).value, RemovedBy(d, e, key))
  {
    var l, item := ListAt(Find(d, key)).value, e.call.op.list.item;
    AppendDecides(Find(d, key), item);
    CommitDecides(d, e, key);
    hide UnmarshalList, MarshalList, Atomic, Changed, Decide, KeepLast, EvictedBy, Items, Evictions;
    assert l.limit >= 0;
    var kept := KeepLast(l.value + [item], l.limit);
    assert e.wrote == Some(MarshalList(List([], kept, l.limit)));
    StoredListLoads(kept, l.limit);
    ItemsOfEvictions(EvictedBy(l, item));
    EvictedThenKept(l, item);
  }

  lemma PopMovesItems(d: Store, e: Event, key: Bytes)
    requires Atomic(d, e) && ListAt(Find(d, key)).Some? && IsPopLeft(e, key)
    ensures ListAt(Find(Changed(d, e), key)).Some?
    ensures QueueStep(ListAt(Find(d, key)).value, e, key, ListAt(Find(Changed(d, e), key)).value, RemovedBy(d, e, key))
  {
    CommitDecides(d, e, key);
    hide UnmarshalList, MarshalList, Atomic, Changed;
    var l := ListAt(Find(d, key)).value;
    assert Decide(e.call.op, Find(d, key)) == PopOutcome(l, true);
    StoredListLoads(l.value[1..], l.limit);
    assert l.value == [l.value[0]] + l.value[1..];
    assert Items([Popped(e.id, l.value[0])]) == [l.value[0]];
    assert l.value + [] == l.value;
  }

  lemma LimitMovesNothing(d: Store, e: Event, key: Bytes)
    requires Atomic(d, e) && ListAt(Find(d, key)).Some? && IsSetLimit(e, key)
    ensures ListAt(Find(Changed(d, e), key)).Some?
    ensures QueueStep(ListAt(Find(d, key)).value, e, key, ListAt(Find(Changed(d, e), key)).value, RemovedBy(d, e, key))
  {
    CommitDecides(d, e, key);
    hide UnmarshalList, MarshalList, Atomic, Changed, Find;
    var l := ListAt(Find(d, key)).value;
    assert Decide(e.call.op, Find(d, key)) == StoreList(l.value, AtLeastZero(e.call.op.list.limit), Nothing);
    hide Decide;
    StoredListLoads(l.value, AtLeastZero(e.call.op.list.limit));
    assert Items([]) + l.value == l.value + [];
  }

  /** What was there, then everything appended, is everything removed in order, then what is there now. */
  lemma {:induction false} QueueConserved(d: Store, log: seq<Event>, key: Bytes)
    requires Legal(d, log) && UsedAsQueue(log, key) && ListAt(Find(d, key)).Some?
    ensures var now := ListAt(Find(Replay(d, log), key));
            now.Some? &&
            ListAt(Find(d, key)).value.value + Appended(log, key) == Items(Removed(d, log, key)) + now.value.value
    decreases |log|
  {
    hide Atomic, Changed, ListAt, RemovedBy, Items, IsAppend, IsPopLeft, IsSetLimit, Find, Deletes;
    if log == [] {
    } else {
      var n := |log| - 1;
      var before, e := Replay(d, log[..n]), log[n];
      QueueConserved(d, log[..n], key);
      var mid := ListAt(Find(before, key)).value.value;
      ItemsAppend(Removed(d, log[..n], key), RemovedBy(before, e, key));
      var now := ListAt(Find(Replay(d, log), key));
      if IsAppend(e, key) {
        AppendMovesItems(before, e, key);
      } else if IsPopLeft(e, key) {
        PopMovesItems(before, e, key);
      } else if IsSetLimit(e, key) {
        LimitMovesNothing(before, e, key);
      } else {
        Untouched(before, e, key);
        NothingRemoved(before, e, key);
      }
      var added := AddedBy(e, key);
      var out := Items(RemovedBy(before, e, key));
      assert mid + added == out + now.value.value;
      var initial, gone := ListAt(Find(d, key)).value.value, Items(Removed(d, log[..n], key));
      Regroup(initial, Appended(log[..n], key), added);
      Regroup(gone, mid, added);
      Regroup(gone, out, now.value.value);
    }
  }

  lemma Regroup<T>(a: seq<T>, b: seq<T>, c: seq<T>)
    ensures (a + b) + c == a + (b + c)
  {
  }

  lemma NothingRemoved(d: Store, e: Event, key: Bytes)
    requires !Writes(e, key)
    ensures RemovedBy(d, e, key) == [] && AddedBy(e, key) == [] && Items([]) == []
  {
  }

  /** The ids of the calls that were handed an item, in order. */
  lemma {:induction false} PoppedByTheirCall(d: Store, log: seq<Event>, key: Bytes, r: Removal)
    requires r in Removed(d, log, key) && r.Popped?
    ensures exists i :: 0 <= i < |log| && log[i].id == r.id && log[i].reply == Item(r.item) && IsPopLeft(log[i], key)
    decreases |log|
  {
    hide ListAt;
    var n := |log| - 1;
    if r in Removed(d, log[..n], key) {
      PoppedByTheirCall(d, log[..n], key, r);
      var i :| 0 <= i < n && log[..n][i].id == r.id && log[..n][i].reply == Item(r.item) && IsPopLeft(log[..n][i], key);
      assert log[i] == log[..n][i];
    } else {
      assert r in RemovedBy(Replay(d, log[..n]), log[n], key);
    }
  }

  ghost predicate IdsOnce(log: seq<Event>) {
    forall i, j :: 0 <= i < j < |log| ==> log[i].id != log[j].id
  }

  /** No call is handed two items, so no two removals are the same hand-out. */
  lemma {:induction false} PoppersDistinct(d: Store, log: seq<Event>, key: Bytes, i: nat, j: nat)
    requires IdsOnce(log) && i < j < |Removed(d, log, key)|
    requires Removed(d, log, key)[i].Popped? && Removed(d, log, key)[j].Popped?
    ensures Removed(d, log, key)[i].id != Removed(d, log, key)[j].id
    decreases |log|
  {
    hide ListAt;
    var n := |log| - 1;
    var earlier, last := Removed(d, log[..n], key), RemovedBy(Replay(d, log[..n]), log[n], key);
    if j < |earlier| {
      PoppersDistinct(d, log[..n], key, i, j);
    } else {
      assert last[j - |earlier|].Popped? && last[j - |earlier|].id == log[n].id;
      assert |last| == 1;
      PoppedByTheirCall(d, log[..n], key, earlier[i]);
      var k :| 0 <= k < n && log[..n][k].id == earlier[i].id;
      assert log[..n][k] == log[k];
    }
  }

  /**
   First in, first out, in every run: with the key used as a queue, the removals are the initial contents
   and then the appends in commit order, what is left follows them, and each item went to at most one call.
   */
  lemma QueueInEveryRun(d: Store, labels: seq<Label>, key: Bytes)
    requires Fresh(d) && !IsLockName(key) && ListAt(Find(d, key)).Some?
    requires UsedAsQueue(Exec(Start(d), labels).log, key)
    ensures var s := Exec(Start(d), labels); var removed := Removed(d, s.log, key);
            && ListAt(Find(s.store, key)).Some?
            && ListAt(Find(d, key)).value.value + Appended(s.log, key) ==
               Items(removed) + ListAt(Find(s.store, key)).value.value
            && forall i, j :: 0 <= i < j < |removed| && removed[i].Popped? && removed[j].Popped? ==>
                 removed[i].id != removed[j].id
  {
    hide Exec, ListAt, Legal, Replay, Data, Atomic, Items;
    Linearizable(d, labels);
    var s := Exec(Start(d), labels);
    DataOfStore(s.store, key, []);
    QueueConserved(d, s.log, key);
    var removed := Removed(d, s.log, key);
    forall i, j | 0 <= i < j < |removed| && removed[i].Popped? && removed[j].Popped?
      ensures removed[i].id != removed[j].id
    {
      PoppersDistinct(d, s.log, key, i, j);
    }
  }

  // ---------- set once ----------

  predicate SetsNew(e: Event, key: Bytes) {
    e.call.key == key && e.call.LockedUpdate? && e.call.op.SetIfAbsent? && e.reply == Flag(true)
  }

  /** A SetNX that reports success found nothing; any other leaves what it found. */
  lemma SetIfAbsentNeverOverwrites(d: Store, e: Event, key: Bytes)
    requires Atomic(d, e) && e.call.key == key && e.call.LockedUpdate? && e.call.op.SetIfAbsent?
    ensures SetsNew(e, key) <==> key !in d && e.wrote == Some(e.call.op.initial)
    ensures key in d ==> Changed(d, e) == d
  {
  }

  lemma PresentUnlessDeleted(d: Store, e: Event, key: Bytes)
    requires key in d && !Deletes(e, key)
    ensures key in Changed(d, e)
  {
  }

  lemma {:induction false} StaysPresent(d: Store, log: seq<Event>, key: Bytes, i: nat, j: nat)
    requires i <= j <= |log| && key in Replay(d, log[..i])
    requires forall m :: i <= m < j ==> !Deletes(log[m], key)
    ensures key in Replay(d, log[..j])
    decreases j
  {
    hide Changed;
    if i < j {
      StaysPresent(d, log, key, i, j - 1);
      assert log[..j][..j - 1] == log[..j - 1] && log[..j][j - 1] == log[j - 1];
      PresentUnlessDeleted(Replay(d, log[..j - 1]), log[j - 1], key);
    }
  }

  /** Two successful SetNX on a key have a delete of that key between them, whatever else went on. */
  lemma SetOnce(d: Store, log: seq<Event>, key: Bytes, i: nat, j: nat)
    requires Legal(d, log) && i < j < |log| && SetsNew(log[i], key) && SetsNew(log[j], key)
    ensures exists m :: i < m < j && Deletes(log[m], key)
  {
    hide Legal, Replay;
    AtomicAt(d, log, i);
    AtomicAt(d, log, j);
    SetIfAbsentNeverOverwrites(Replay(d, log[..i]), log[i], key);
    SetIfAbsentNeverOverwrites(Replay(d, log[..j]), log[j], key);
    if forall m :: i < m < j ==> !Deletes(log[m], key) {
      StaysPresent(d, log, key, i + 1, j);
    }
  }

  /** Without deletes, at most one of any number of concurrent SetNX calls returns true. */
  lemma SetOnceInEveryRun(d: Store, labels: seq<Label>, key: Bytes, a: nat, b: nat)
    requires Fresh(d)
    requires var s := Exec(Start(d), labels);
             && (forall i :: 0 <= i < |s.log| ==> !Deletes(s.log[i], key))
             && a in s.calls && b in s.calls && s.calls[a].Done? && s.calls[b].Done?
             && s.calls[a].call.LockedUpdate? && s.calls[a].call.op.SetIfAbsent? && s.calls[a].call.key == key
             && s.calls[b].call.LockedUpdate? && s.calls[b].call.op.SetIfAbsent? && s.calls[b].call.key == key
             && s.calls[a].reply == Flag(true) && s.calls[b].reply == Flag(true)
    ensures a == b
  {
    hide Exec, Legal, Replay, Data;
    Linearizable(d, labels);
    var s := Exec(Start(d), labels);
    var i :| 0 <= i < |s.log| && s.log[i].id == a && s.log[i].call == s.calls[a].call && s.log[i].reply == s.calls[a].reply;
    var j :| 0 <= j < |s.log| && s.log[j].id == b && s.log[j].call == s.calls[b].call && s.log[j].reply == s.calls[b].reply;
    if i < j {
      SetOnce(d, s.log, key, i, j);
    } else if j < i {
      SetOnce(d, s.log, key, j, i);
    }
  }

  // ---------- bounded lists ----------

  predicate WithinLimit(l: List) {
    l.limit >= 0 && (l.limit > 0 ==> |l.value| <= l.limit)
  }

  /** No list, or one no longer than its limit. */
  predicate Bounded(current: Option<Bytes>) {
    match LoadList(current)
    case Missing => true
    case Loaded(l) => WithinLimit(l)
    case Broken(_) => false
  }

  predicate Trims(e: Event, key: Bytes) {
    Commits(e, key) && e.call.op.OnList? && (e.call.op.list.Insert? || e.call.op.list.Append?)
  }

  /** Anything but a new limit or a wholesale overwrite. */
  predicate KeepsBound(e: Event, key: Bytes) {
    Writes(e, key) ==> e.call.LockedUpdate? && e.call.op.OnList? && !e.call.op.list.SetLimit?
  }

  /** What a list update stores is a list. */
  lemma StoresAList(current: Option<Bytes>, op: ListUpdate)
    requires Decide(OnList(op), current).Commit?
    ensures exists items: seq<Blob>, limit: Int64 :: Decide(OnList(op), current).stored == Exact(MarshalList(List([], items, limit)))
  {
    hide UnmarshalList, MarshalList;
  }

  predicate Stores(o: Outcome, l: List) {
    o.Commit? && o.stored == Exact(MarshalList(List([], l.value, l.limit)))
  }

  lemma TrimmedWithinLimit(items: seq<Blob>, limit: Int64)
    requires StoreTrimmed(items, limit).Commit?
    ensures exists l :: Stores(StoreTrimmed(items, limit), l) && WithinLimit(l)
  {
    hide MarshalList;
    KeepLastBound(items, limit);
    assert Stores(StoreTrimmed(items, limit), List([], KeepLast(items, limit), limit));
  }

  /** The list a committed update leaves behind keeps within its limit, if the one it found did. */
  lemma UpdateKeepsBound(l: List, op: ListUpdate)
    requires ListOutcome(l, op).Commit? && !op.SetLimit?
    requires WithinLimit(l) || op.Insert? || op.Append?
    ensures exists now :: Stores(ListOutcome(l, op), now) && WithinLimit(now)
  {
    hide MarshalList, GuardRejects;
    match op
    case Insert(index, item) => TrimmedWithinLimit(Spliced(l.value, AtLeastZero(index), item), l.limit);
    case Append(item) => TrimmedWithinLimit(l.value + [item], l.limit);
    case SetItem(index, item) =>
      assert Stores(ListOutcome(l, op), List([], l.value[AtIndex(index, |l.value|) := item], l.limit));
    case PopLeft => assert Stores(ListOutcome(l, op), List([], l.value[1..], l.limit));
    case PopRight => assert Stores(ListOutcome(l, op), List([], l.value[..|l.value| - 1], l.limit));
    case DeleteAt(index) => assert Stores(ListOutcome(l, op), List([], Without(l.value, index), l.limit));
    case DeleteItem(item) => assert Stores(ListOutcome(l, op), List([], Without(l.value, IndexOf(l.value, item)), l.limit));
  }

  lemma DecisionKeepsBound(current: Option<Bytes>, op: ListUpdate, b: Bytes)
    requires var o := Decide(OnList(op), current); o.Commit? && o.stored == Exact(b)
    requires !op.SetLimit? && (Bounded(current) || op.Insert? || op.Append?)
    ensures Bounded(Some(b))
  {
    hide UnmarshalList, MarshalList, ListOutcome, StoreTrimmed;
    var o := Decide(OnList(op), current);
    match LoadList(current) {
      case Missing => TrimmedWithinLimit([op.item], 0);
      case Loaded(l) => UpdateKeepsBound(l, op);
    }
    var now :| Stores(o, now) && WithinLimit(now);
    StoredListLoads(now.value, now.limit);
  }

  lemma {:induction false} StaysBounded(d: Store, log: seq<Event>, key: Bytes, i: nat, j: nat)
    requires Legal(d, log) && i <= j <= |log| && Bounded(Find(Replay(d, log[..i]), key))
    requires forall m :: i <= m < j ==> KeepsBound(log[m], key)
    ensures Bounded(Find(Replay(d, log[..j]), key))
    decreases j
  {
    hide Bounded, Legal, Replay, Atomic, Changed, Decide;
    if i < j {
      StaysBounded(d, log, key, i, j - 1);
      AtomicAt(d, log, j - 1);
      var before, e := Replay(d, log[..j - 1]), log[j - 1];
      if Writes(e, key) {
        CommitDecides(before, e, key);
        ListCommitIsExact(Find(before, key), e.call.op.list, e.wrote.value);
        DecisionKeepsBound(Find(before, key), e.call.op.list, e.wrote.value);
      } else if Deletes(e, key) {
        DeletedIsBounded(before, e, key);
      } else {
        Untouched(before, e, key);
      }
    }
  }

  lemma ListCommitIsExact(current: Option<Bytes>, op: ListUpdate, b: Bytes)
    requires var o := Decide(OnList(op), current); o.Commit? && StoredAs(o.stored, b)
    ensures Decide(OnList(op), current).stored == Exact(b)
  {
    hide Decide, MarshalList;
    StoresAList(current, op);
  }

  lemma DeletedIsBounded(d: Store, e: Event, key: Bytes)
    requires Deletes(e, key) && !Writes(e, key)
    ensures Bounded(Find(Changed(d, e), key))
  {
  }

  /**
   Once an insert or append has committed, the list never exceeds its limit again, through pops, deletes,
   replacements, inserts and appends, until somebody sets another limit or overwrites the key.
   */
  lemma BoundedAfterTrim(d: Store, log: seq<Event>, key: Bytes, i: nat, j: nat)
    requires Legal(d, log) && i < j <= |log| && Trims(log[i], key)
    requires forall m :: i < m < j ==> KeepsBound(log[m], key)
    ensures Bounded(Find(Replay(d, log[..j]), key))
  {
    hide Bounded, Legal, Replay, Atomic, Changed, Decide;
    AtomicAt(d, log, i);
    var before, e := Replay(d, log[..i]), log[i];
    CommitDecides(before, e, key);
    ListCommitIsExact(Find(before, key), e.call.op.list, e.wrote.value);
    DecisionKeepsBound(Find(before, key), e.call.op.list, e.wrote.value);
    StaysBounded(d, log, key, i + 1, j);
  }

  lemma BoundedInEveryRun(d: Store, labels: seq<Label>, key: Bytes, i: nat)
    requires Fresh(d) && !IsLockName(key)
    requires var s := Exec(Start(d), labels);
             i < |s.log| && Trims(s.log[i], key) && forall m :: i < m < |s.log| ==> KeepsBound(s.log[m], key)
    ensures Bounded(Find(Exec(Start(d), labels).store, key))
  {
    hide Exec, Legal, Replay, Data, Bounded, Atomic;
    Linearizable(d, labels);
    var s := Exec(Start(d), labels);
    DataOfStore(s.store, key, []);
    BoundedAfterTrim(d, s.log, key, i, |s.log|);
    assert s.log[..|s.log|] == s.log;
  }

  // ---------- hashes ----------

  /** The fields a key stands for: absent is no fields. */
  function FieldsAt(current: Option<Bytes>): Option<map<Blob, Blob>> {
    match LoadHash(current)
    case Missing => Some(map[])
    case Loaded(h) => Some(h.value)
    case Broken(_) => None
  }

  predicate IsHashWrite(e: Event, key: Bytes) {
    Commits(e, key) && e.call.op.OnHash?
  }

  /** Written through hash updates only, with values a store can hold; deleting the key is allowed. */
  ghost predicate UsedAsHash(log: seq<Event>, key: Bytes) {
    forall i :: 0 <= i < |log| && Writes(log[i], key) ==>
      IsHashWrite(log[i], key) && |log[i].wrote.value| < TWO_TO_THE_63 - 64
  }

  function Edited(h: map<Blob, Blob>, op: HashUpdate): map<Blob, Blob> {
    match op
    case SetField(field, value) => h[field := value]
    case SetFields(fields) => h + fields
    case DeleteField(field) => h - {field}
  }

  /** The fields after every committed update since the key was last deleted. */
  function FieldsAfter(h: map<Blob, Blob>, log: seq<Event>, key: Bytes): map<Blob, Blob> {
    if log == [] then h
    else
      var before, e := FieldsAfter(h, log[..|log| - 1], key), log[|log| - 1];
      if IsHashWrite(e, key) then Edited(before, e.call.op.hash)
      else if Deletes(e, key) && !Writes(e, key) then map[]
      else before
  }

  lemma HashDecision(current: Option<Bytes>, op: HashUpdate)
    requires FieldsAt(current).Some? && Decide(OnHash(op), current).Commit?
    ensures Decide(OnHash(op), current).stored == Fields(Edited(FieldsAt(current).value, op))
  {
    hide UnmarshalHash;
    if op.SetFields? {
      assert map[] + op.fields == op.fields;
    }
  }

  lemma StoredFieldsLoad(h: map<Blob, Blob>, b: Bytes)
    requires StoredAs(Fields(h), b) && |b| < TWO_TO_THE_63 - 64
    ensures FieldsAt(Some(b)) == Some(h)
  {
    hide UnmarshalHash, HashBytes;
    StoredHashFits(Hash([], h), b);
    HashRoundTrip(Hash([], h), b);
  }

  /** The stored hash is what the committed field updates make of the initial one, in commit order. */
  lemma {:induction false} HashFollowsItsUpdates(d: Store, log: seq<Event>, key: Bytes)
    requires Legal(d, log) && UsedAsHash(log, key) && FieldsAt(Find(d, key)).Some?
    ensures FieldsAt(Find(Replay(d, log), key)) == Some(FieldsAfter(FieldsAt(Find(d, key)).value, log, key))
    decreases |log|
  {
    hide FieldsAt, Decide, StoredAs, Atomic, Changed, Edited, Find, Deletes;
    if log != [] {
      var n := |log| - 1;
      var before, e := Replay(d, log[..n]), log[n];
      HashFollowsItsUpdates(d, log[..n], key);
      if Writes(e, key) {
        CommitDecides(before, e, key);
        HashDecision(Find(before, key), e.call.op.hash);
        StoredFieldsLoad(FieldsAfter(FieldsAt(Find(d, key)).value, log, key), e.wrote.value);
      } else if Deletes(e, key) {
        DeletedHasNoFields(before, e, key);
      } else {
        Untouched(before, e, key);
      }
    }
  }

  lemma DeletedHasNoFields(d: Store, e: Event, key: Bytes)
    requires Deletes(e, key) && !Writes(e, key)
    ensures FieldsAt(Find(Changed(d, e), key)) == Some(map[])
  {
  }

  lemma HashInEveryRun(d: Store, labels: seq<Label>, key: Bytes)
    requires Fresh(d) && !IsLockName(key) && FieldsAt(Find(d, key)).Some?
    requires UsedAsHash(Exec(Start(d), labels).log, key)
    ensures var s := Exec(Start(d), labels);
            FieldsAt(Find(s.store, key)) == Some(FieldsAfter(FieldsAt(Find(d, key)).value, s.log, key))
  {
    hide Exec, Legal, Replay, Data, FieldsAt, Atomic, FieldsAfter;
    Linearizable(d, labels);
    var s := Exec(Start(d), labels);
    DataOfStore(s.store, key, []);
    HashFollowsItsUpdates(d, s.log, key);
  }
}
