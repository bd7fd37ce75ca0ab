/**
 What each operation answers and what it leaves stored, for every state of the key it finds. The statements
 speak of integers, items and fields as a client reads them back, not of the code that decides.
 */
module Answers {
  import opened Bytes
  import opened Keys
  import opened Etcd
  import opened Wire
  import opened Messages
  import opened ListEdit
  import opened Operations
  import opened Protocol
  import opened Histories
  import opened Safety
  import opened Theorems

  /** A locked update that got its lock, on a key that may be stored at. */
  ghost predicate Ran(d: Store, e: Event, op: Update) {
    Atomic(d, e) && e.call.LockedUpdate? && e.call.op == op && ValidKey(e.call.key) && e.reply != Failed(KeyLocked)
  }

  /** What the key holds before and after the event. */
  function Before(d: Store, e: Event): Option<Bytes> { Find(d, e.call.key) }
  function After(d: Store, e: Event): Option<Bytes> { Find(Changed(d, e), e.call.key) }

  /** The event answers and leaves everything as it was. */
  ghost predicate Refuses(d: Store, e: Event, reply: Reply) {
    e.reply == reply && e.wrote == None && Changed(d, e) == d
  }

  lemma RefusedChangesNothing(d: Store, e: Event, op: Update)
    requires Ran(d, e, op) && !Decide(op, Before(d, e)).Commit?
    ensures Refuses(d, e, Decide(op, Before(d, e)).reply)
  {
    hide Decide;
  }

  lemma CommittedIsStored(d: Store, e: Event, op: Update)
    requires Ran(d, e, op) && Decide(op, Before(d, e)).Commit?
    ensures var o := Decide(op, Before(d, e));
            e.reply == o.reply && e.wrote.Some? && StoredAs(o.stored, e.wrote.value) && After(d, e) == e.wrote
  {
    hide Decide, StoredAs;
  }

  /** Any answer given in any run is the answer of one atomic event, in a history in which data follow from events. */
  lemma AnsweredAtomically(d: Store, labels: seq<Label>, id: nat)
    requires Fresh(d)
    requires var s := Exec(Start(d), labels); id in s.calls && HasReplied(s.calls[id])
    ensures var s := Exec(Start(d), labels);
            exists i :: 0 <= i < |s.log| && s.log[i].id == id &&
                        s.log[i].call == s.calls[id].call && s.log[i].reply == s.calls[id].reply &&
                        Atomic(Replay(d, s.log[..i]), s.log[i]) &&
                        Replay(d, s.log[..i + 1]) == Changed(Replay(d, s.log[..i]), s.log[i])
  {
    hide Exec, Data, Replay, Legal, Atomic, Changed;
    Linearizable(d, labels);
    var s := Exec(Start(d), labels);
    var i :| 0 <= i < |s.log| && s.log[i].id == id && s.log[i].call == s.calls[id].call && s.log[i].reply == s.calls[id].reply;
    AtomicAt(d, s.log, i);
  }

  // ---------- integers ----------

  /** On every readable counter an increment stores the sum and answers it; nothing else stops it from committing. */
  lemma IncrementAnswers(d: Store, e: Event, delta: Int64, was: Int64)
    requires Ran(d, e, Increment(delta)) && Count(Before(d, e)) == Some(was)
    ensures e.reply == Number(Wrap(was + delta)) && e.wrote.Some?
    ensures LoadInt(After(d, e)) == Loaded(IntValue([], Wrap(was + delta)))
  {
    IncrementDecided(Before(d, e), delta, was);
    CommittedIsStored(d, e, Increment(delta));
    hide Decide, Atomic, UnmarshalInt, MarshalInt;
    IntRoundTrip(IntValue([], Wrap(was + delta)));
  }

  lemma IncrementDecided(current: Option<Bytes>, delta: Int64, was: Int64)
    requires Count(current) == Some(was)
    ensures var sum := Wrap(was + delta);
            Decide(Increment(delta), current) == Commit(Exact(MarshalInt(IntValue([], sum))), Number(sum))
  {
    hide UnmarshalInt, MarshalInt;
  }

  /** An unreadable counter is reported and kept. */
  lemma IncrementRefuses(d: Store, e: Event, delta: Int64, cause: DecodeError)
    requires Ran(d, e, Increment(delta)) && Before(d, e).Some? && UnmarshalInt(Before(d, e).value) == Err(cause)
    ensures Refuses(d, e, Failed(Reported(cause)))
  {
    hide UnmarshalInt;
    RefusedChangesNothing(d, e, Increment(delta));
  }

  /** Only what the decoder cannot skip counts as another type; any other trouble is passed on as it is. */
  function Reported(cause: DecodeError): Error {
    match cause
    case UnknownWireType => TypeMismatch
    case _ => BadEncoding(cause)
  }

  // ---------- set if absent ----------

  /** SetNX on a key that is not there stores its value and says so; on one that is there it only says no. */
  lemma SetIfAbsentAnswers(d: Store, e: Event, initial: Bytes)
    requires Ran(d, e, SetIfAbsent(initial))
    ensures e.call.key !in d ==> e.reply == Flag(true) && e.wrote == Some(initial) && After(d, e) == Some(initial)
    ensures e.call.key in d ==> Refuses(d, e, Flag(false))
  {
  }

  // ---------- lists ----------

  /** The event answers `reply` and leaves the items `items` with the limit `limit` under its key. */
  ghost predicate Leaves(d: Store, e: Event, reply: Reply, items: seq<Blob>, limit: Int64) {
    e.reply == reply && e.wrote.Some? && ListAt(After(d, e)) == Some(List([], items, limit))
  }

  lemma StoreListLeaves(d: Store, e: Event, op: ListUpdate, items: seq<Blob>, limit: Int64, reply: Reply)
    requires Ran(d, e, OnList(op)) && Decide(OnList(op), Before(d, e)) == StoreList(items, limit, reply)
    ensures Leaves(d, e, reply, items, limit)
  {
    CommittedIsStored(d, e, OnList(op));
    hide Decide, Atomic, Changed, MarshalList, UnmarshalList, Find;
    StoredListLoads(items, limit);
  }

  /** The list read under the lock is the one the operation works on; an absent key has none. */
  lemma DecidedOnList(current: Option<Bytes>, op: ListUpdate, l: List)
    requires current.Some? && ListAt(current) == Some(l)
    ensures Decide(OnList(op), current) == ListOutcome(l, op)
  {
    hide UnmarshalList, ListOutcome;
  }

  predicate IsEndOf<T(==)>(now: seq<T>, all: seq<T>) {
    |now| <= |all| && now == all[|all| - |now|..]
  }

  /** How many of `n` items a limit lets stay; zero is no limit. */
  function Kept(n: nat, limit: nat): nat {
    if limit == 0 || n < limit then n else limit
  }

  lemma KeepLastIsEnd<T>(s: seq<T>, limit: nat)
    ensures IsEndOf(KeepLast(s, limit), s) && |KeepLast(s, limit)| == Kept(|s|, limit)
  {
  }

  lemma EndIsKeepLast<T>(now: seq<T>, s: seq<T>, limit: nat)
    requires IsEndOf(now, s) && |now| == Kept(|s|, limit)
    ensures now == KeepLast(s, limit)
  {
  }

  /** The item at the end, before it the newest of the others, as many as the limit lets stay. */
  ghost predicate WithAppended(now: seq<Blob>, s: seq<Blob>, item: Blob, limit: nat) {
    IsEndOf(now, s + [item]) && |now| == Kept(|s| + 1, limit) && now != [] && now[|now| - 1] == item
  }

  lemma NewestStays(s: seq<Blob>, item: Blob, limit: nat)
    ensures WithAppended(KeepLast(s + [item], limit), s, item, limit)
  {
  }

  lemma AppendDecided(current: Option<Bytes>, item: Blob, l: List)
    requires ListAt(current) == Some(l) && l.limit >= 0
    ensures Decide(OnList(Append(item)), current) == StoreList(KeepLast(l.value + [item], l.limit), l.limit, Nothing)
  {
    AppendDecides(current, item);
    hide Decide, StoreList, UnmarshalList, KeepLast;
  }

  /** An append never fails on a readable list: the new item goes last, and the oldest give way to the limit. */
  lemma AppendAnswers(d: Store, e: Event, item: Blob, l: List)
    requires Ran(d, e, OnList(Append(item))) && ListAt(Before(d, e)) == Some(l) && l.limit >= 0
    ensures exists now: seq<Blob> :: Leaves(d, e, Nothing, now, l.limit) && WithAppended(now, l.value, item, l.limit)
  {
    hide Ran, ListAt, Before, Decide, StoreList, KeepLast, Leaves, WithAppended;
    var now := KeepLast(l.value + [item], l.limit);
    AppendDecided(Before(d, e), item, l);
    StoreListLeaves(d, e, Append(item), now, l.limit, Nothing);
    NewestStays(l.value, item, l.limit);
  }

  /** Where an insert puts its item: negative indices mean the front, those past the end mean the end. */
  function InsertionPoint(index: Int64, n: nat): nat {
    if index < 0 then 0 else if index > n then n else index
  }

  /** Position by position: what was before the insertion point, the item, and what was from there on. */
  ghost predicate WithInserted(grown: seq<Blob>, s: seq<Blob>, p: nat, item: Blob) {
    && p <= |s| && |grown| == |s| + 1
    && (forall k :: 0 <= k < p ==> grown[k] == s[k])
    && grown[p] == item
    && (forall k :: p < k < |grown| ==> grown[k] == s[k - 1])
  }

  lemma SplicedPositions(s: seq<Blob>, index: Int64, item: Blob)
    ensures WithInserted(Spliced(s, AtLeastZero(index), item), s, InsertionPoint(index, |s|), item)
  {
  }

  /** An insert never fails on a readable list; past the limit the items at the front give way. */
  lemma InsertAnswers(d: Store, e: Event, index: Int64, item: Blob, l: List)
    requires Ran(d, e, OnList(Insert(index, item))) && ListAt(Before(d, e)) == Some(l) && l.limit >= 0
    ensures exists grown: seq<Blob>, now: seq<Blob> ::
              Leaves(d, e, Nothing, now, l.limit) &&
              WithInserted(grown, l.value, InsertionPoint(index, |l.value|), item) &&
              IsEndOf(now, grown) && |now| == Kept(|l.value| + 1, l.limit)
  {
    hide Ran, Find, Decide, StoreList, UnmarshalList, KeepLast, Spliced, Leaves, Kept, IsEndOf;
    var grown := Spliced(l.value, AtLeastZero(index), item);
    var now := KeepLast(grown, l.limit);
    InsertDecides(Before(d, e), index, item);
    StoreListLeaves(d, e, Insert(index, item), now, l.limit, Nothing);
    KeepLastIsEnd(grown, l.limit);
    SplicedPositions(l.value, index, item);
    assert |grown| == |l.value| + 1;
  }

  /** With a negative limit, insert and append panic and store nothing. */
  lemma NegativeLimitPanics(d: Store, e: Event, op: ListUpdate, l: List)
    requires Ran(d, e, OnList(op)) && (op.Append? || op.Insert?) && ListAt(Before(d, e)) == Some(l) && l.limit < 0
    ensures Refuses(d, e, Panicked)
  {
    if op.Append? {
      AppendDecides(Before(d, e), op.item);
    } else {
      InsertDecides(Before(d, e), op.index, op.item);
    }
    hide Decide, UnmarshalList, Spliced;
    RefusedChangesNothing(d, e, OnList(op));
  }

  /** The position an index means: negative ones count from the end. */
  function Position(index: Int64, n: nat): int {
    if index < 0 then n + index else index
  }

  /** Replacing an item inside the list keeps all the others where they are. */
  lemma SetItemAnswers(d: Store, e: Event, index: Int64, item: Blob, l: List)
    requires Ran(d, e, OnList(SetItem(index, item))) && Before(d, e).Some? && ListAt(Before(d, e)) == Some(l)
    requires -|l.value| <= index < |l.value| < TWO_TO_THE_63 - 1
    ensures exists now: seq<Blob> :: Leaves(d, e, Nothing, now, l.limit) && |now| == |l.value| &&
                          now[Position(index, |l.value|)] == item &&
                          forall k :: 0 <= k < |now| && k != Position(index, |l.value|) ==> now[k] == l.value[k]
  {
    DecidedOnList(Before(d, e), SetItem(index, item), l);
    SetItemExactly(l, index, item);
    hide Decide, UnmarshalList, MarshalList, GuardRejects;
    var now := l.value[Position(index, |l.value|) := item];
    StoreListLeaves(d, e, SetItem(index, item), now, l.limit, Nothing);
  }

  /** Deleting by position takes out that item and closes the gap. */
  lemma DeleteAtAnswers(d: Store, e: Event, index: Int64, l: List)
    requires Ran(d, e, OnList(DeleteAt(index))) && Before(d, e).Some? && ListAt(Before(d, e)) == Some(l)
    requires 0 <= index < |l.value|
    ensures Leaves(d, e, Nothing, l.value[..index] + l.value[index + 1..], l.limit)
  {
    DecidedOnList(Before(d, e), DeleteAt(index), l);
    DeleteAtExactly(l, index);
    hide Decide, UnmarshalList, MarshalList, Wrap;
    StoreListLeaves(d, e, DeleteAt(index), l.value[..index] + l.value[index + 1..], l.limit, Nothing);
  }

  /** Deleting by value takes out the first occurrence, answers where it was, and keeps every other copy. */
  lemma DeleteItemAnswers(d: Store, e: Event, item: Blob, l: List)
    requires Ran(d, e, OnList(DeleteItem(item))) && Before(d, e).Some? && ListAt(Before(d, e)) == Some(l)
    ensures item in l.value ==>
              exists i: nat :: i < |l.value| && l.value[i] == item && item !in l.value[..i] &&
                Leaves(d, e, Number(i), l.value[..i] + l.value[i + 1..], l.limit) &&
                multiset(l.value[..i] + l.value[i + 1..]) == multiset(l.value) - multiset{item}
    ensures item !in l.value ==> Refuses(d, e, Number(-1))
  {
    DecidedOnList(Before(d, e), DeleteItem(item), l);
    var op := DeleteItem(item);
    if item in l.value {
      hide Decide, UnmarshalList, MarshalList;
      var i := IndexOf(l.value, item);
      StoreListLeaves(d, e, op, l.value[..i] + l.value[i + 1..], l.limit, Number(i));
      FirstOccurrenceRemoved(l.value, item);
    } else {
      RefusedChangesNothing(d, e, OnList(op));
    }
  }

  /** The limit read back is the one asked for, none if that was negative; the items stay, even those beyond it. */
  lemma SetLimitAnswers(d: Store, e: Event, limit: Int64, l: List)
    requires Ran(d, e, OnList(SetLimit(limit))) && Before(d, e).Some? && ListAt(Before(d, e)) == Some(l)
    ensures Leaves(d, e, Nothing, l.value, if limit < 0 then 0 else limit)
  {
    DecidedOnList(Before(d, e), SetLimit(limit), l);
    hide Decide, UnmarshalList, MarshalList;
    StoreListLeaves(d, e, SetLimit(limit), l.value, if limit < 0 then 0 else limit, Nothing);
  }

  /** A pop hands out the first or the last item and leaves the others; an empty list is reported. */
  lemma PopAnswers(d: Store, e: Event, left: bool, l: List)
    requires Ran(d, e, OnList(if left then PopLeft else PopRight)) && ListAt(Before(d, e)) == Some(l)
    ensures l.value == [] ==> Refuses(d, e, Failed(ListEmpty))
    ensures l.value != [] ==>
              exists item: Blob, rest: seq<Blob> :: Leaves(d, e, Item(item), rest, l.limit) &&
                                   l.value == if left then [item] + rest else rest + [item]
  {
    var op := if left then PopLeft else PopRight;
    PopDecides(left, Before(d, e));
    hide Decide, UnmarshalList, MarshalList;
    if l.value == [] {
      RefusedChangesNothing(d, e, OnList(op));
    } else {
      var n := |l.value|;
      var item := if left then l.value[0] else l.value[n - 1];
      var rest := if left then l.value[1..] else l.value[..n - 1];
      StoreListLeaves(d, e, op, rest, l.limit, Item(item));
    }
  }

  /** On a key that is not there only insert and append work; each of the others has its own answer. */
  lemma MissingListAnswers(d: Store, e: Event, op: ListUpdate)
    requires Ran(d, e, OnList(op)) && e.call.key !in d && !op.Insert? && !op.Append?
    ensures op.SetItem? || op.SetLimit? || op.DeleteAt? ==> Refuses(d, e, Failed(KeyNotFound))
    ensures op.PopLeft? || op.PopRight? ==> Refuses(d, e, Failed(ListEmpty))
    ensures op.DeleteItem? ==> Refuses(d, e, Number(-1))
  {
    RefusedChangesNothing(d, e, OnList(op));
  }

  /** An empty list is not indexed. */
  lemma EmptyListAnswers(d: Store, e: Event, op: ListUpdate, l: List)
    requires Ran(d, e, OnList(op)) && Before(d, e).Some? && ListAt(Before(d, e)) == Some(l) && l.value == []
    requires op.SetItem? || op.DeleteAt?
    ensures Refuses(d, e, Failed(ListEmpty))
  {
    DecidedOnList(Before(d, e), op, l);
    hide Decide;
    RefusedChangesNothing(d, e, OnList(op));
  }

  /** Bytes that are no list are reported and kept, whatever the operation. */
  lemma UnreadableListAnswers(d: Store, e: Event, op: ListUpdate, cause: DecodeError)
    requires Ran(d, e, OnList(op)) && Before(d, e).Some? && UnmarshalList(Before(d, e).value) == Err(cause)
    ensures Refuses(d, e, Failed(Reported(cause)))
  {
    hide UnmarshalList;
    RefusedChangesNothing(d, e, OnList(op));
  }

  // ---------- hashes ----------

  /** The fields an update gives a value, and those it takes away. */
  function Given(op: HashUpdate): map<Blob, Blob> {
    match op
    case SetField(field, value) => map[field := value]
    case SetFields(fields) => fields
    case DeleteField(_) => map[]
  }

  function Taken(op: HashUpdate): set<Blob> {
    if op.DeleteField? then {op.field} else {}
  }

  predicate Touches(op: HashUpdate, field: Blob) {
    field in Given(op) || field in Taken(op)
  }

  /** Field by field: given ones have the given value, taken ones are gone, all others are as they were. */
  ghost predicate FieldsEdited(was: map<Blob, Blob>, op: HashUpdate, now: map<Blob, Blob>) {
    && (forall f :: f in Given(op) ==> f in now && now[f] == Given(op)[f])
    && (forall f :: f in Taken(op) ==> f !in now)
    && (forall f :: !Touches(op, f) ==> (f in now <==> f in was))
    && (forall f :: !Touches(op, f) && f in was ==> now[f] == was[f])
  }

  /** The updates that go through: a field can be set on any hash but one stored empty, deleted from any. */
  predicate HashWritable(current: Option<Bytes>, h: map<Blob, Blob>, op: HashUpdate) {
    match op
    case SetField(_, _) => current == None || h != map[]
    case SetFields(fields) => current == None || h != map[] || fields == map[]
    case DeleteField(_) => current.Some?
  }

  lemma HashUpdateDecided(current: Option<Bytes>, h: map<Blob, Blob>, op: HashUpdate)
    requires FieldsAt(current) == Some(h) && HashWritable(current, h, op)
    ensures var o := Decide(OnHash(op), current);
            o.Commit? && o.reply == Nothing && o.stored.Fields? && FieldsEdited(h, op, o.stored.h)
  {
    hide UnmarshalHash;
  }

  /** Every such update is committed, answers nil, and changes the fields it names and no others. */
  lemma HashUpdateAnswers(d: Store, e: Event, op: HashUpdate, h: map<Blob, Blob>)
    requires Ran(d, e, OnHash(op)) && FieldsAt(Before(d, e)) == Some(h) && HashWritable(Before(d, e), h, op)
    requires e.wrote.Some? ==> |e.wrote.value| < TWO_TO_THE_63 - 64
    ensures e.reply == Nothing && e.wrote.Some?
    ensures exists now :: LoadHash(After(d, e)) == Loaded(Hash([], now)) && FieldsEdited(h, op, now)
  {
    HashUpdateDecided(Before(d, e), h, op);
    CommittedIsStored(d, e, OnHash(op));
    hide Decide, FieldsAt, Atomic, UnmarshalHash, HashBytes, FieldsEdited, HashWritable;
    var now := Decide(OnHash(op), Before(d, e)).stored.h;
    StoredHashFits(Hash([], now), e.wrote.value);
    HashRoundTrip(Hash([], now), e.wrote.value);
    assert LoadHash(After(d, e)) == Loaded(Hash([], now));
  }

  /** The others: no field to delete without a key, and a panic on a hash stored without fields. */
  lemma HashUpdateRefuses(d: Store, e: Event, op: HashUpdate, h: map<Blob, Blob>)
    requires Ran(d, e, OnHash(op)) && FieldsAt(Before(d, e)) == Some(h) && !HashWritable(Before(d, e), h, op)
    ensures Refuses(d, e, if op.DeleteField? then Failed(KeyNotFound) else Panicked)
  {
    hide UnmarshalHash;
    RefusedChangesNothing(d, e, OnHash(op));
  }

  lemma UnreadableHashAnswers(d: Store, e: Event, op: HashUpdate, cause: DecodeError)
    requires Ran(d, e, OnHash(op)) && Before(d, e).Some? && UnmarshalHash(Before(d, e).value) == Err(cause)
    ensures Refuses(d, e, Failed(Reported(cause)))
  {
    hide UnmarshalHash;
    RefusedChangesNothing(d, e, OnHash(op));
  }

  // ---------- values of another type ----------

  lemma FirstVarintField(number: nat, n: Uint64)
    requires 0 < number < 0x2000_0000
    ensures NextField(VarintField(number, n)) == Ok((Field(number, Varint(n)), []))
  {
    hide NextField, VarintField;
    assert VarintField(number, n) + [] == VarintField(number, n);
    VarintFieldRoundTrip(number, n, []);
  }

  /**
   A stored integer is not a list or a hash, but the documented type mismatch is not what is reported, and
   zero, which is stored as no bytes at all, passes for an empty one.
   */
  lemma IntegerReadAsOther(n: Int64)
    ensures var b := MarshalInt(IntValue([], n));
            && (n != 0 ==> UnmarshalList(b) == Err(BadWireType) && UnmarshalHash(b) == Err(BadWireType))
            && (n == 0 ==> UnmarshalList(b) == Ok(EMPTY_LIST) && UnmarshalHash(b) == Ok(EMPTY_HASH))
  {
    if n != 0 {
      hide NextField, VarintField;
      var b := MarshalInt(IntValue([], n));
      assert b == VarintField(2, ZigZag(n));
      FirstVarintField(2, ZigZag(n));
      assert b != [];
    }
  }

  /** A stored list with items is not an integer; one without items counts as zero, whatever its limit. */
  lemma ListReadAsInteger(items: seq<Blob>, limit: Int64)
    ensures var b := MarshalList(List([], items, limit));
            UnmarshalInt(b) == if items != [] then Err(BadWireType) else Ok(EMPTY_INT)
  {
    hide NextField, VarintField, DelimitedField;
    var b := MarshalList(List([], items, limit));
    if items != [] {
      var rest := ItemsPart(items[1..]) + LimitPart(limit);
      DelimitedFieldRoundTrip(2, items[0], rest);
      assert b == DelimitedField(2, items[0]) + rest;
    } else if limit != 0 {
      assert b == VarintField(3, ToUnsigned(limit));
      FirstVarintField(3, ToUnsigned(limit));
      assert b != [];
      assert MergeInt([], EMPTY_INT) == Ok(EMPTY_INT);
    }
  }

  // ---------- plain reads and writes ----------

  /** A Get answers the stored bytes, a Set stores the given ones, a Delete leaves none, a session is shown what it locked. */
  lemma PlainAnswers(d: Store, e: Event)
    requires Atomic(d, e) && e.reply != Failed(KeyLocked)
    ensures e.call.PlainGet? ==> Refuses(d, e, if e.call.key in d then Item(d[e.call.key]) else Failed(KeyNotFound))
    ensures e.call.PlainSet? && ValidKey(e.call.key) ==> e.reply == Nothing && After(d, e) == Some(e.call.value)
    ensures e.call.PlainSet? && !ValidKey(e.call.key) ==> Refuses(d, e, Failed(InvalidKey))
    ensures e.call.PlainDelete? ==> e.reply == Nothing && After(d, e) == None
    ensures e.call.Session? ==> e.reply == Seen(Before(d, e)) && After(d, e) == if e.wrote.Some? then e.wrote else Before(d, e)
    ensures forall k :: k != e.call.key ==> Find(Changed(d, e), k) == Find(d, k)
  {
  }
}
