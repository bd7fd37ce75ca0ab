/**
 Answers over whole histories: nobody who was answered went uncounted, and nobody counted went unanswered.
 The laws of Histories speak of what was committed; these tie the commits to what callers were told.
 */
module Tallies {
  import opened Bytes
  import opened Keys
  import opened Etcd
  import opened Wire
  import opened Messages
  import opened ListEdit
  import opened Operations
  import opened Protocol
  import opened Safety
  import opened Theorems
  import opened Histories
  import opened Answers

  lemma {:induction false} ReplayFrom(d: Store, log: seq<Event>, i: nat, j: nat)
    requires i <= j <= |log|
    ensures Replay(Replay(d, log[..i]), log[i..j]) == Replay(d, log[..j])
    ensures Legal(d, log) ==> Legal(Replay(d, log[..i]), log[i..j])
    decreases j
  {
    hide Atomic, Changed;
    if i < j {
      ReplayFrom(d, log, i, j - 1);
      assert log[i..j][..j - i - 1] == log[i..j - 1] && log[i..j][j - i - 1] == log[j - 1];
      assert log[..j][..j - 1] == log[..j - 1] && log[..j][j - 1] == log[j - 1];
      if Legal(d, log) {
        AtomicAt(d, log, j - 1);
      }
    }
  }

  // ---------- counters ----------

  predicate IncrementCall(e: Event, key: Bytes) {
    e.call.LockedUpdate? && e.call.key == key && e.call.op.Increment?
  }

  /** The sum of the increments that were answered with a number. */
  function AnsweredSum(log: seq<Event>, key: Bytes): int {
    if log == [] then 0
    else
      var e := log[|log| - 1];
      AnsweredSum(log[..|log| - 1], key) + if IncrementCall(e, key) && e.reply.Number? then e.call.op.delta else 0
  }

  /** A number is answered exactly when the sum was stored. */
  lemma NumberMeansStored(d: Store, e: Event, key: Bytes)
    requires Atomic(d, e) && IncrementCall(e, key)
    ensures e.reply.Number? <==> IsIncrement(e, key)
  {
    hide UnmarshalInt, MarshalInt, StoredAs;
  }

  lemma {:induction false} CommittedIsAnswered(d: Store, log: seq<Event>, key: Bytes)
    requires Legal(d, log)
    ensures CommittedSum(log, key) == AnsweredSum(log, key)
    decreases |log|
  {
    hide Atomic;
    if log != [] {
      var n := |log| - 1;
      CommittedIsAnswered(d, log[..n], key);
      if IncrementCall(log[n], key) {
        NumberMeansStored(Replay(d, log[..n]), log[n], key);
      }
    }
  }

  /** On a counter only ever incremented, every increment that got the lock counts and answers the sum so far. */
  lemma EveryIncrementCounts(d: Store, log: seq<Event>, key: Bytes, initial: Int64, i: nat)
    requires Legal(d, log) && OnlyIncremented(log, key) && Count(Find(d, key)) == Some(initial) && ValidKey(key)
    requires i < |log| && IncrementCall(log[i], key) && log[i].reply != Failed(KeyLocked)
    ensures IsIncrement(log[i], key)
    ensures log[i].reply == Number(Wrap(initial + AnsweredSum(log[..i + 1], key)))
  {
    hide Legal, Replay, Count, Atomic, Wrap, CommittedSum, AnsweredSum, Find;
    AtomicAt(d, log, i);
    LegalPrefix(d, log, i);
    LegalPrefix(d, log, i + 1);
    CounterConserved(d, log[..i], key, initial);
    var before, e := Replay(d, log[..i]), log[i];
    IncrementAnswers(before, e, e.call.op.delta, Wrap(initial + CommittedSum(log[..i], key)));
    IncrementReturnsRunningSum(d, log, key, initial, i);
    CommittedIsAnswered(d, log[..i + 1], key);
  }

  /** In every run the counter holds what it started with plus everything its callers were told was added. */
  lemma IncrementsInEveryRun(d: Store, labels: seq<Label>, key: Bytes, initial: Int64)
    requires Fresh(d) && !IsLockName(key) && ValidKey(key) && Count(Find(d, key)) == Some(initial)
    requires OnlyIncremented(Exec(Start(d), labels).log, key)
    ensures var s := Exec(Start(d), labels);
            && Count(Find(s.store, key)) == Some(Wrap(initial + AnsweredSum(s.log, key)))
            && forall i :: 0 <= i < |s.log| && IncrementCall(s.log[i], key) && s.log[i].reply != Failed(KeyLocked) ==>
                 s.log[i].reply == Number(Wrap(initial + AnsweredSum(s.log[..i + 1], key)))
  {
    hide Exec, Count, Legal, Replay, CommittedSum, AnsweredSum, Data, Atomic, Wrap;
    Linearizable(d, labels);
    var s := Exec(Start(d), labels);
    DataOfStore(s.store, key, []);
    CounterConserved(d, s.log, key, initial);
    CommittedIsAnswered(d, s.log, key);
    forall i | 0 <= i < |s.log| && IncrementCall(s.log[i], key) && s.log[i].reply != Failed(KeyLocked)
      ensures s.log[i].reply == Number(Wrap(initial + AnsweredSum(s.log[..i + 1], key)))
    {
      EveryIncrementCounts(d, s.log, key, initial, i);
    }
  }

  // ---------- appends ----------

  predicate AppendCall(e: Event, key: Bytes) {
    e.call.LockedUpdate? && e.call.key == key && e.call.op.OnList? && e.call.op.list.Append?
  }

  /** The items whose append was answered nil, in the order the appends took effect. */
  function Accepted(log: seq<Event>, key: Bytes): seq<Blob> {
    if log == [] then []
    else
      var e := log[|log| - 1];
      Accepted(log[..|log| - 1], key) + if AppendCall(e, key) && e.reply == Nothing then [e.call.op.list.item] else []
  }

  lemma NilMeansAppended(d: Store, e: Event, key: Bytes)
    requires Atomic(d, e) && AppendCall(e, key)
    ensures e.reply == Nothing <==> IsAppend(e, key)
  {
    AppendDecides(Find(d, key), e.call.op.list.item);
    hide UnmarshalList, MarshalList, StoredAs, Decide, KeepLast;
  }

  lemma {:induction false} AppendedIsAccepted(d: Store, log: seq<Event>, key: Bytes)
    requires Legal(d, log)
    ensures Appended(log, key) == Accepted(log, key)
    decreases |log|
  {
    hide Atomic;
    if log != [] {
      var n := |log| - 1;
      AppendedIsAccepted(d, log[..n], key);
      if AppendCall(log[n], key) {
        NilMeansAppended(Replay(d, log[..n]), log[n], key);
      }
    }
  }

  ghost predicate OnlyAppended(log: seq<Event>, key: Bytes) {
    forall i :: 0 <= i < |log| ==> !Deletes(log[i], key) && (Writes(log[i], key) ==> AppendCall(log[i], key))
  }

  /** What appends leave of a list `l` and the items `added` to it. */
  ghost predicate NewestOf(now: Option<List>, l: List, added: seq<Blob>) {
    now.Some? && now.value.limit == l.limit && l.limit >= 0 &&
    if added == [] then now.value.value == l.value
    else IsEndOf(now.value.value, l.value + added) && |now.value.value| == Kept(|l.value| + |added|, l.limit)
  }

  lemma AppendKeepsNewest(now: List, l: List, added: seq<Blob>, item: Blob, next: seq<Blob>)
    requires NewestOf(Some(now), l, added) && WithAppended(next, now.value, item, now.limit)
    ensures NewestOf(Some(List([], next, l.limit)), l, added + [item])
  {
    assert l.value + (added + [item]) == (l.value + added) + [item];
    if added != [] {
      EndIsKeepLast(now.value, l.value + added, l.limit);
      KeepLastThenAppend(l.value + added, [item], l.limit);
    } else {
      assert l.value + added == l.value;
    }
    EndIsKeepLast(next, now.value + [item], l.limit);
    KeepLastIsEnd(l.value + added + [item], l.limit);
  }

  /** The list holds the newest of the old items and the accepted ones, as many as its limit lets stay. */
  lemma {:induction false} AppendsKeepNewest(d: Store, log: seq<Event>, key: Bytes, l: List)
    requires Legal(d, log) && OnlyAppended(log, key) && ListAt(Find(d, key)) == Some(l) && l.limit >= 0 && ValidKey(key)
    ensures NewestOf(ListAt(Find(Replay(d, log), key)), l, Accepted(log, key))
    decreases |log|
  {
    hide ListAt, Atomic, Changed, Find, NewestOf, WithAppended;
    if log == [] {
      assert NewestOf(Some(l), l, []) by { NothingAdded(l); }
    } else {
      var n := |log| - 1;
      AppendsKeepNewest(d, log[..n], key, l);
      var before, e := Replay(d, log[..n]), log[n];
      OneMoreAppend(before, e, key, l, Accepted(log[..n], key));
    }
  }

  lemma NothingAdded(l: List)
    requires l.limit >= 0
    ensures NewestOf(Some(l), l, [])
  {
  }

  lemma OneMoreAppend(d: Store, e: Event, key: Bytes, l: List, added: seq<Blob>)
    requires Atomic(d, e) && ValidKey(key) && !Deletes(e, key) && (Writes(e, key) ==> AppendCall(e, key))
    requires NewestOf(ListAt(Find(d, key)), l, added)
    ensures NewestOf(ListAt(Find(Changed(d, e), key)), l,
                     added + if AppendCall(e, key) && e.reply == Nothing then [e.call.op.list.item] else [])
  {
    if Writes(e, key) {
      NilMeansAppended(d, e, key);
      var now := ListAt(Find(d, key)).value;
      AppendAnswers(d, e, e.call.op.list.item, now);
      hide ListAt, Atomic, Changed, WithAppended;
      var next: seq<Blob> :| Leaves(d, e, Nothing, next, now.limit) && WithAppended(next, now.value, e.call.op.list.item, now.limit);
      AppendKeepsNewest(now, l, added, e.call.op.list.item, next);
    } else {
      hide ListAt, NewestOf;
      if AppendCall(e, key) {
        NilMeansAppended(d, e, key);
      }
      hide Atomic, Changed;
      Untouched(d, e, key);
      assert added + [] == added;
    }
  }

  /**
   A limit takes nothing away by itself; the next append does. Appends to an absent key, then a limit L, then
   appends again: what is left is the last min(n, L) of all n accepted items, or all of them while nothing
   was appended after the limit.
   */
  lemma AppendsThenLimit(d: Store, log: seq<Event>, key: Bytes, m: nat)
    requires Legal(d, log) && key !in d && ValidKey(key) && m < |log|
    requires OnlyAppended(log[..m], key) && OnlyAppended(log[m + 1..], key) && IsSetLimit(log[m], key)
    requires log[m].call.op.list.limit >= 0
    ensures var now := ListAt(Find(Replay(d, log), key));
            var all, limit := Accepted(log[..m], key) + Accepted(log[m + 1..], key), log[m].call.op.list.limit;
            && now.Some? && now.value.limit == limit && IsEndOf(now.value.value, all)
            && |now.value.value| == if Accepted(log[m + 1..], key) == [] then |all| else Kept(|all|, limit)
  {
    hide ListAt, Atomic, Changed, Accepted, Legal, Replay, LoadList, OnlyAppended;
    LegalPrefix(d, log, m);
    AtomicAt(d, log, m);
    AbsentListIsEmpty(d, key);
    AppendsKeepNewest(d, log[..m], key, EMPTY_LIST);
    var before, e := Replay(d, log[..m]), log[m];
    var l, limit := ListAt(Find(before, key)).value, e.call.op.list.limit;
    var all := Accepted(log[..m], key);
    assert EMPTY_LIST.value + all == all && l.value == all;
    LimitIsTaken(before, e, key, l);
    var mid := Replay(d, log[..m + 1]);
    ReplayFrom(d, log, m + 1, |log|);
    assert log[m + 1..|log|] == log[m + 1..] && log[..|log|] == log;
    AppendsKeepNewest(mid, log[m + 1..], key, List([], all, limit));
    assert all + [] == all;
  }

  lemma AbsentListIsEmpty(d: Store, key: Bytes)
    requires key !in d
    ensures ListAt(Find(d, key)) == Some(EMPTY_LIST)
  {
  }

  lemma LimitIsTaken(d: Store, e: Event, key: Bytes, l: List)
    requires Atomic(d, e) && IsSetLimit(e, key) && e.call.op.list.limit >= 0 && ListAt(Find(d, key)) == Some(l)
    ensures ListAt(Find(Changed(d, e), key)) == Some(List([], l.value, e.call.op.list.limit))
  {
    CommitDecides(d, e, key);
    assert key in d;
    hide Decide, UnmarshalList, MarshalList;
    SetLimitAnswers(d, e, e.call.op.list.limit, l);
  }

  lemma AppendsInEveryRun(d: Store, labels: seq<Label>, key: Bytes, l: List)
    requires Fresh(d) && !IsLockName(key) && ValidKey(key) && ListAt(Find(d, key)) == Some(l) && l.limit >= 0
    requires OnlyAppended(Exec(Start(d), labels).log, key)
    ensures var s := Exec(Start(d), labels); NewestOf(ListAt(Find(s.store, key)), l, Accepted(s.log, key))
  {
    hide Exec, ListAt, Legal, Replay, Data, Atomic, NewestOf, OnlyAppended, Accepted;
    Linearizable(d, labels);
    var s := Exec(Start(d), labels);
    DataOfStore(s.store, key, []);
    AppendsKeepNewest(d, s.log, key, l);
  }

  // ---------- set if absent ----------

  predicate SetNewCall(e: Event, key: Bytes) {
    e.call.LockedUpdate? && e.call.key == key && e.call.op.SetIfAbsent? && e.reply != Failed(KeyLocked)
  }

  ghost predicate OnlySetNew(log: seq<Event>, key: Bytes) {
    forall i :: 0 <= i < |log| ==> !Deletes(log[i], key) && (Writes(log[i], key) ==> SetNewCall(log[i], key))
  }

  lemma {:induction false} AbsentUntilSet(d: Store, log: seq<Event>, key: Bytes, i: nat)
    requires Legal(d, log) && OnlySetNew(log, key) && key !in d && i <= |log|
    requires forall m :: 0 <= m < i ==> !SetNewCall(log[m], key)
    ensures Find(Replay(d, log[..i]), key) == None
    decreases i
  {
    hide Atomic, Changed, Legal;
    if i > 0 {
      AbsentUntilSet(d, log, key, i - 1);
      AtomicAt(d, log, i - 1);
      Untouched(Replay(d, log[..i - 1]), log[i - 1], key);
    }
  }

  lemma {:induction false} KeptOnceSet(d: Store, log: seq<Event>, key: Bytes, i: nat, j: nat, value: Bytes)
    requires Legal(d, log) && OnlySetNew(log, key) && ValidKey(key) && i <= j <= |log|
    requires Find(Replay(d, log[..i]), key) == Some(value)
    ensures Find(Replay(d, log[..j]), key) == Some(value)
    decreases j
  {
    hide Atomic, Changed, Legal, Replay;
    if i < j {
      KeptOnceSet(d, log, key, i, j - 1, value);
      AtomicAt(d, log, j - 1);
      var before, e := Replay(d, log[..j - 1]), log[j - 1];
      if Writes(e, key) {
        SetIfAbsentAnswers(before, e, e.call.op.initial);
      } else {
        Untouched(before, e, key);
      }
    }
  }

  /**
   Of the SetNX calls on an absent key that nobody else writes, the first to get the lock wins: it is told
   true and its value stays; every later one is told false.
   */
  lemma FirstSetNewWins(d: Store, log: seq<Event>, key: Bytes, i: nat)
    requires Legal(d, log) && OnlySetNew(log, key) && key !in d && ValidKey(key)
    requires i < |log| && SetNewCall(log[i], key) && forall m :: 0 <= m < i ==> !SetNewCall(log[m], key)
    ensures log[i].reply == Flag(true)
    ensures forall j :: i < j < |log| && SetNewCall(log[j], key) ==> log[j].reply == Flag(false)
    ensures Find(Replay(d, log), key) == Some(log[i].call.op.initial)
  {
    hide Atomic, Changed, Legal, Replay, OnlySetNew;
    var value := log[i].call.op.initial;
    AbsentUntilSet(d, log, key, i);
    AtomicAt(d, log, i);
    SetIfAbsentAnswers(Replay(d, log[..i]), log[i], value);
    forall j | i < j < |log| && SetNewCall(log[j], key) ensures log[j].reply == Flag(false) {
      KeptOnceSet(d, log, key, i + 1, j, value);
      AtomicAt(d, log, j);
      SetIfAbsentAnswers(Replay(d, log[..j]), log[j], log[j].call.op.initial);
    }
    KeptOnceSet(d, log, key, i + 1, |log|, value);
    assert log[..|log|] == log;
  }

  lemma FirstSetNewWinsInEveryRun(d: Store, labels: seq<Label>, key: Bytes, i: nat)
    requires Fresh(d) && !IsLockName(key) && key !in d && ValidKey(key)
    requires var log := Exec(Start(d), labels).log;
             OnlySetNew(log, key) && i < |log| && SetNewCall(log[i], key) &&
             forall m :: 0 <= m < i ==> !SetNewCall(log[m], key)
    ensures var s := Exec(Start(d), labels);
            && s.log[i].reply == Flag(true)
            && (forall j :: i < j < |s.log| && SetNewCall(s.log[j], key) ==> s.log[j].reply == Flag(false))
            && Find(s.store, key) == Some(s.log[i].call.op.initial)
  {
    hide Exec, Legal, Replay, Data, Atomic, OnlySetNew, SetNewCall;
    Linearizable(d, labels);
    var s := Exec(Start(d), labels);
    DataOfStore(s.store, key, []);
    FirstSetNewWins(d, s.log, key, i);
  }

  // ---------- hashes ----------

  predicate HashCall(e: Event, key: Bytes) {
    e.call.LockedUpdate? && e.call.key == key && e.call.op.OnHash?
  }

  lemma NilMeansHashWritten(d: Store, e: Event, key: Bytes)
    requires Atomic(d, e) && HashCall(e, key)
    ensures e.reply == Nothing <==> IsHashWrite(e, key)
  {
    hide UnmarshalHash, StoredAs;
  }

  /** The event may change the field: a hash update of it, or a delete of the key. */
  predicate Disturbs(e: Event, key: Bytes, field: Blob) {
    Deletes(e, key) || (HashCall(e, key) && e.reply == Nothing && Touches(e.call.op.hash, field))
  }

  function FieldAt(current: Option<Bytes>, field: Blob): Option<Blob> {
    match FieldsAt(current)
    case Some(h) => if field in h then Some(h[field]) else None
    case None => None
  }

  ghost predicate SameField(a: Option<Bytes>, b: Option<Bytes>, field: Blob) {
    FieldsAt(a).Some? && FieldsAt(b).Some? && FieldAt(a, field) == FieldAt(b, field)
  }

  lemma CommittedEdit(d: Store, e: Event, key: Bytes)
    requires Atomic(d, e) && IsHashWrite(e, key) && |e.wrote.value| < TWO_TO_THE_63 - 64 && FieldsAt(Find(d, key)).Some?
    ensures e.reply == Nothing && FieldsAt(Find(Changed(d, e), key)).Some?
    ensures FieldsEdited(FieldsAt(Find(d, key)).value, e.call.op.hash, FieldsAt(Find(Changed(d, e), key)).value)
  {
    var op, h := e.call.op.hash, FieldsAt(Find(d, key)).value;
    CommitDecides(d, e, key);
    NilMeansHashWritten(d, e, key);
    if !HashWritable(Find(d, key), h, op) {
      HashUpdateRefuses(d, e, op, h);
    }
    hide FieldsAt, Atomic, Decide, FieldsEdited;
    HashUpdateAnswers(d, e, op, h);
  }

  lemma FieldSurvives(d: Store, e: Event, key: Bytes, field: Blob)
    requires Atomic(d, e) && !Disturbs(e, key, field) && FieldsAt(Find(d, key)).Some?
    requires Writes(e, key) ==> IsHashWrite(e, key) && |e.wrote.value| < TWO_TO_THE_63 - 64
    ensures SameField(Find(d, key), Find(Changed(d, e), key), field)
  {
    hide FieldsAt, Atomic, Changed, Find;
    if Writes(e, key) {
      CommittedEdit(d, e, key);
    } else {
      Untouched(d, e, key);
    }
  }

  lemma {:induction false} FieldStays(d: Store, log: seq<Event>, key: Bytes, field: Blob, i: nat, j: nat)
    requires Legal(d, log) && UsedAsHash(log, key) && i <= j <= |log| && FieldsAt(Find(Replay(d, log[..i]), key)).Some?
    requires forall m :: i <= m < j ==> !Disturbs(log[m], key, field)
    ensures SameField(Find(Replay(d, log[..i]), key), Find(Replay(d, log[..j]), key), field)
    decreases j
  {
    hide FieldsAt, Atomic, Changed, Legal, Replay, Find, Disturbs;
    if i < j {
      FieldStays(d, log, key, field, i, j - 1);
      AtomicAt(d, log, j - 1);
      FieldSurvives(Replay(d, log[..j - 1]), log[j - 1], key, field);
    }
  }

  /** A field is what the last update of it that was answered nil made it, whatever went on around it. */
  lemma LastFieldUpdateWins(d: Store, log: seq<Event>, key: Bytes, field: Blob, i: nat)
    requires Legal(d, log) && UsedAsHash(log, key) && FieldsAt(Find(d, key)).Some? && i < |log|
    requires HashCall(log[i], key) && log[i].reply == Nothing && Touches(log[i].call.op.hash, field)
    requires forall m :: i < m < |log| ==> !Disturbs(log[m], key, field)
    ensures var given := Given(log[i].call.op.hash);
            FieldAt(Find(Replay(d, log), key), field) == if field in given then Some(given[field]) else None
  {
    hide FieldsAt, Atomic, Changed, Legal, Replay, Find, UsedAsHash, FieldsAfter;
    AtomicAt(d, log, i);
    LegalPrefix(d, log, i);
    assert UsedAsHash(log[..i], key) by { HashPrefix(log, key, i); }
    HashFollowsItsUpdates(d, log[..i], key);
    var before, e := Replay(d, log[..i]), log[i];
    NilMeansHashWritten(before, e, key);
    assert |e.wrote.value| < TWO_TO_THE_63 - 64 by { HashPrefix(log, key, i); }
    CommittedEdit(before, e, key);
    FieldStays(d, log, key, field, i + 1, |log|);
    assert log[..|log|] == log;
  }

  lemma HashPrefix(log: seq<Event>, key: Bytes, i: nat)
    requires UsedAsHash(log, key) && i < |log|
    ensures UsedAsHash(log[..i], key)
    ensures Writes(log[i], key) ==> |log[i].wrote.value| < TWO_TO_THE_63 - 64
  {
  }

  lemma LastFieldUpdateWinsInEveryRun(d: Store, labels: seq<Label>, key: Bytes, field: Blob, i: nat)
    requires Fresh(d) && !IsLockName(key) && FieldsAt(Find(d, key)).Some?
    requires var log := Exec(Start(d), labels).log;
             UsedAsHash(log, key) && i < |log| &&
             HashCall(log[i], key) && log[i].reply == Nothing && Touches(log[i].call.op.hash, field) &&
             forall m :: i < m < |log| ==> !Disturbs(log[m], key, field)
    ensures var s := Exec(Start(d), labels); var given := Given(s.log[i].call.op.hash);
            FieldAt(Find(s.store, key), field) == if field in given then Some(given[field]) else None
  {
    hide Exec, Legal, Replay, Data, Atomic, UsedAsHash, FieldsAt, Disturbs, Touches, Given;
    Linearizable(d, labels);
    var s := Exec(Start(d), labels);
    DataOfStore(s.store, key, []);
    LastFieldUpdateWins(d, s.log, key, field, i);
  }

  // ---------- reads ----------

  lemma {:induction false} ValueStays(d: Store, log: seq<Event>, key: Bytes, i: nat, j: nat)
    requires i <= j <= |log| && forall m :: i <= m < j ==> !Writes(log[m], key) && !Deletes(log[m], key)
    ensures Find(Replay(d, log[..j]), key) == Find(Replay(d, log[..i]), key)
    decreases j
  {
    hide Changed;
    if i < j {
      ValueStays(d, log, key, i, j - 1);
      assert log[..j][..j - 1] == log[..j - 1] && log[..j][j - 1] == log[j - 1];
      Untouched(Replay(d, log[..j - 1]), log[j - 1], key);
    }
  }

  /** A Get answers what was last stored under its key, by whatever operation; after a Delete, nothing. */
  lemma GetSeesTheLastWrite(d: Store, log: seq<Event>, i: nat, j: nat)
    requires Legal(d, log) && i < j < |log| && log[j].call.PlainGet?
    requires var key := log[j].call.key;
             (Writes(log[i], key) || Deletes(log[i], key)) &&
             forall m :: i < m < j ==> !Writes(log[m], key) && !Deletes(log[m], key)
    ensures log[j].reply == if log[i].wrote.Some? then Item(log[i].wrote.value) else Failed(KeyNotFound)
    ensures log[i].call.PlainSet? ==> log[j].reply == Item(log[i].call.value)
  {
    hide Legal, Replay;
    var key := log[j].call.key;
    AtomicAt(d, log, i);
    AtomicAt(d, log, j);
    ValueStays(d, log, key, i + 1, j);
  }
}
