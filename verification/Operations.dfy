/**
 What every locked update decides between its read and its commit:
 mydis/type_int.go, type_list.go, type_hash.go and SetNX of type_bytes.go.
 */
module Operations {
  import opened Bytes
  import opened Keys
  import opened Wire
  import opened Messages
  import opened ListEdit

  datatype Error =
    | KeyNotFound
    | KeyLocked
    | InvalidKey
    | TypeMismatch
    | ListEmpty
    | IndexOutOfRange
    | BadEncoding(cause: DecodeError)

  /** What a call hands back. Panicked is a Go run-time panic inside the handler. */
  datatype Reply =
    | Nothing
    | Number(n: int)
    | Item(b: Bytes)
    | Flag(yes: bool)
    | Seen(current: Option<Bytes>)
    | Failed(error: Error)
    | Panicked

  datatype ListUpdate =
    | SetItem(index: Int64, item: Blob)
    | SetLimit(limit: Int64)
    | Insert(index: Int64, item: Blob)
    | Append(item: Blob)
    | PopLeft
    | PopRight
    | DeleteAt(index: Int64)
    | DeleteItem(item: Blob)

  datatype HashUpdate =
    | SetField(field: Blob, value: Blob)
    | SetFields(fields: map<Blob, Blob>)
    | DeleteField(field: Blob)

  datatype Update =
    | Increment(delta: Int64)
    | SetIfAbsent(initial: Bytes)
    | OnList(list: ListUpdate)
    | OnHash(hash: HashUpdate)

  /** The value to store: fixed bytes, or a hash in whatever order its map is walked. */
  datatype Stored = Exact(b: Bytes) | Fields(h: map<Blob, Blob>)

  function Encoded(st: Stored, how: HashLayout): Option<Bytes> {
    match st
    case Exact(x) => Some(x)
    case Fields(h) => HashBytes(Hash([], h), how)
  }

  ghost predicate StoredAs(st: Stored, b: Bytes) {
    match st
    case Exact(x) => b == x
    case Fields(h) => IsHashEncoding(Hash([], h), b)
  }

  lemma EncodedIsStored(st: Stored, how: HashLayout, b: Bytes)
    requires Encoded(st, how) == Some(b)
    ensures StoredAs(st, b)
  {
  }

  /** Commit through UnlockThenSet, give the lock back unchanged, or return without giving it back. */
  datatype Outcome =
    | Commit(stored: Stored, reply: Reply)
    | Release(reply: Reply)
    | Leak(reply: Reply)

  // ---------- reading the current value ----------

  datatype Loaded<+T> = Loaded(value: T) | Missing | Broken(error: Error)

  function LoadFailure(e: DecodeError): Error {
    if e == UnknownWireType then TypeMismatch else BadEncoding(e)
  }

  function Load<T>(current: Option<Bytes>, unmarshal: Bytes -> Result<T>): Loaded<T> {
    match current
    case None => Missing
    case Some(b) =>
      match unmarshal(b)
      case Ok(m) => Loaded(m)
      case Err(e) => Broken(LoadFailure(e))
  }

  function LoadInt(current: Option<Bytes>): Loaded<IntValue> { Load(current, UnmarshalInt) }
  function LoadList(current: Option<Bytes>): Loaded<List> { Load(current, UnmarshalList) }
  function LoadHash(current: Option<Bytes>): Loaded<Hash> { Load(current, UnmarshalHash) }

  // ---------- the decisions ----------

  function StoreList(items: seq<Blob>, limit: Int64, reply: Reply): Outcome {
    Commit(Exact(MarshalList(List([], items, limit))), reply)
  }

  /** Insert and append end with enforceListLimit, which panics on a negative limit. */
  function StoreTrimmed(items: seq<Blob>, limit: Int64): Outcome {
    if limit < 0 then Leak(Panicked) else StoreList(KeepLast(items, limit), limit, Nothing)
  }

  /** The two index guards, in 64-bit arithmetic. They let through indices that are still out of range. */
  predicate GuardRejects(index: Int64, length: nat) {
    Wrap(index - 1) > length || (index < 0 && Wrap(Wrap(0 - index) - 1) > length)
  }

  function AtIndex(index: Int64, length: nat): (i: int)
    ensures index >= 0 ==> i == index
    ensures index < 0 ==> i == length + index
  {
    if index >= 0 then index else length + index
  }

  function SetItemOutcome(l: List, index: Int64, item: Blob): Outcome {
    var i := AtIndex(index, |l.value|);
    if l.value == [] then Release(Failed(ListEmpty))
    else if GuardRejects(index, |l.value|) then Release(Failed(IndexOutOfRange))
    else if 0 <= i < |l.value| then StoreList(l.value[i := item], l.limit, Nothing)
    else Leak(Panicked)
  }

  function DeleteAtOutcome(l: List, index: Int64): Outcome {
    if l.value == [] then Release(Failed(ListEmpty))
    else if index < 0 || Wrap(index - 1) > |l.value| then Release(Failed(IndexOutOfRange))
    else if index < |l.value| then StoreList(Without(l.value, index), l.limit, Nothing)
    else Leak(Panicked)
  }

  function PopOutcome(l: List, left: bool): Outcome {
    var n := |l.value|;
    if n == 0 then Release(Failed(ListEmpty))
    else if left then StoreList(l.value[1..], l.limit, Item(l.value[0]))
    else StoreList(l.value[..n - 1], l.limit, Item(l.value[n - 1]))
  }

  /** A pop takes the item it hands out from the end it was asked for, and nothing else. */
  lemma PopTakesAnEnd(rest: seq<Blob>, item: Blob, limit: Int64, key: Blob)
    ensures PopOutcome(List(key, [item] + rest, limit), true) == StoreList(rest, limit, Item(item))
    ensures PopOutcome(List(key, rest + [item], limit), false) == StoreList(rest, limit, Item(item))
  {
    assert ([item] + rest)[1..] == rest;
    assert (rest + [item])[..|rest|] == rest;
  }

  function DeleteItemOutcome(l: List, item: Blob): Outcome {
    var i := IndexOf(l.value, item);
    if i == -1 then Leak(Number(-1)) else StoreList(Without(l.value, i), l.limit, Number(i))
  }

  function AtLeastZero(n: Int64): (r: Int64)
    ensures r >= 0
  {
    if n < 0 then 0 else n
  }

  /** The list operations on a key that is not there. */
  function MissingListOutcome(op: ListUpdate): Outcome {
    match op
    case Insert(_, item) => StoreTrimmed([item], 0)
    case Append(item) => StoreTrimmed([item], 0)
    case PopLeft => Release(Failed(ListEmpty))
    case PopRight => Release(Failed(ListEmpty))
    case DeleteItem(_) => Release(Number(-1))
    case _ => Release(Failed(KeyNotFound))
  }

  function ListOutcome(l: List, op: ListUpdate): Outcome {
    match op
    case SetItem(index, item) => SetItemOutcome(l, index, item)
    case SetLimit(limit) => StoreList(l.value, AtLeastZero(limit), Nothing)
    case Insert(index, item) => StoreTrimmed(Spliced(l.value, AtLeastZero(index), item), l.limit)
    case Append(item) => StoreTrimmed(l.value + [item], l.limit)
    case PopLeft => PopOutcome(l, true)
    case PopRight => PopOutcome(l, false)
    case DeleteAt(index) => DeleteAtOutcome(l, index)
    case DeleteItem(item) => DeleteItemOutcome(l, item)
  }

  /** A hash that was stored without fields comes back as a nil map: writing to it panics. */
  function HashOutcome(h: map<Blob, Blob>, op: HashUpdate): Outcome {
    match op
    case SetField(field, value) =>
      if h == map[] then Leak(Panicked) else Commit(Fields(h[field := value]), Nothing)
    case SetFields(fields) =>
      if h == map[] && fields != map[] then Leak(Panicked) else Commit(Fields(h + fields), Nothing)
    case DeleteField(field) => Commit(Fields(h - {field}), Nothing)
  }

  function MissingHashOutcome(op: HashUpdate): Outcome {
    match op
    case SetField(field, value) => Commit(Fields(map[field := value]), Nothing)
    case SetFields(fields) => Commit(Fields(fields), Nothing)
    case DeleteField(_) => Release(Failed(KeyNotFound))
  }

  function IncrementOutcome(was: Int64, delta: Int64): Outcome {
    var now := Wrap(was + delta);
    Commit(Exact(MarshalInt(IntValue([], now))), Number(now))
  }

  function Decide(op: Update, current: Option<Bytes>): Outcome {
    match op
    case Increment(delta) =>
      (match LoadInt(current)
       case Missing => IncrementOutcome(0, delta)
       case Broken(e) => Release(Failed(e))
       case Loaded(iv) => IncrementOutcome(iv.value, delta))
    case SetIfAbsent(initial) =>
      if current.None? then Commit(Exact(initial), Flag(true)) else Leak(Flag(false))
    case OnList(op) =>
      (match LoadList(current)
       case Missing => MissingListOutcome(op)
       case Broken(e) => Release(Failed(e))
       case Loaded(l) => ListOutcome(l, op))
    case OnHash(op) =>
      match LoadHash(current)
      case Missing => MissingHashOutcome(op)
      case Broken(e) => Release(Failed(e))
      case Loaded(h) => HashOutcome(h.value, op)
  }

  lemma PopDecides(left: bool, current: Option<Bytes>)
    ensures var o := Decide(OnList(if left then PopLeft else PopRight), current);
            match LoadList(current)
            case Missing => o == Release(Failed(ListEmpty))
            case Broken(e) => o == Release(Failed(e)) && e != KeyNotFound && e != ListEmpty
            case Loaded(l) => o == PopOutcome(l, left) && (l.value == [] ==> o == Release(Failed(ListEmpty)))
  {
    hide UnmarshalList, StoreList;
  }

  /** Insert and append on an absent key build on the empty list. */
  lemma InsertDecides(current: Option<Bytes>, index: Int64, item: Blob)
    ensures var o := Decide(OnList(Insert(index, item)), current);
            match LoadList(current)
            case Missing => o == StoreTrimmed(Spliced([], AtLeastZero(index), item), 0)
            case Broken(e) => o == Release(Failed(e)) && e != KeyLocked
            case Loaded(l) => o == StoreTrimmed(Spliced(l.value, AtLeastZero(index), item), l.limit)
  {
    hide StoreTrimmed, UnmarshalList;
    assert Spliced([], AtLeastZero(index), item) == [item];
  }

  lemma AppendDecides(current: Option<Bytes>, item: Blob)
    ensures var o := Decide(OnList(Append(item)), current);
            match LoadList(current)
            case Missing => o == StoreTrimmed([] + [item], 0)
            case Broken(e) => o == Release(Failed(e)) && e != KeyLocked
            case Loaded(l) => o == StoreTrimmed(l.value + [item], l.limit)
  {
    hide StoreTrimmed, UnmarshalList;
    assert [] + [item] == [item];
  }

  /** UnlockThenSet refuses the empty key and "\0" without touching the lock. */
  function OutcomeOf(key: Bytes, op: Update, current: Option<Bytes>): Outcome {
    var o := Decide(op, current);
    if o.Commit? && !ValidKey(key) then Leak(Failed(InvalidKey)) else o
  }

  /** DecrementInt is IncrementInt of the negated amount, negated in 64 bits. */
  function Decrement(amount: Int64): Update {
    Increment(Wrap(0 - amount))
  }

  lemma CommitsOnlyValidKeys(key: Bytes, op: Update, current: Option<Bytes>)
    ensures OutcomeOf(key, op, current).Commit? ==> ValidKey(key)
  {
  }

  /** Only waiting for a lock can end in ErrKeyLocked. */
  lemma DecisionsNeverSayLocked(key: Bytes, op: Update, current: Option<Bytes>)
    ensures OutcomeOf(key, op, current).reply != Failed(KeyLocked)
  {
    hide UnmarshalInt, UnmarshalList, UnmarshalHash;
  }

  // ---------- properties of the decisions ----------

  /**
   SetListItem is documented to report ErrListIndexOutOfRange for every index outside the list.
   It does so exactly for indices more than one past either end; the ones next to the ends panic.
   */
  lemma SetItemExactly(l: List, index: Int64, item: Blob)
    requires l.value != [] && |l.value| < TWO_TO_THE_63 - 1
    ensures var n := |l.value|; var o := SetItemOutcome(l, index, item);
            && (o.Commit? <==> -n <= index < n)
            && (o == Release(Failed(IndexOutOfRange)) <==> index > n + 1 || index < -(n + 1))
            && (o == Leak(Panicked) <==> index == n || index == n + 1 || index == -(n + 1))
  {
    assert Wrap(index - 1) == if index == MIN_INT64 then TWO_TO_THE_63 - 1 else index - 1;
    if index < 0 {
      assert Wrap(0 - index) == if index == MIN_INT64 then MIN_INT64 else -index;
      if index == MIN_INT64 {
        assert Wrap(MIN_INT64 - 1) == TWO_TO_THE_63 - 1;
      } else {
        assert Wrap(0 - index - 1) == -index - 1;
      }
    }
  }

  lemma DeleteAtExactly(l: List, index: Int64)
    requires l.value != []
    ensures var n := |l.value|; var o := DeleteAtOutcome(l, index);
            && (o.Commit? <==> 0 <= index < n)
            && (o == Release(Failed(IndexOutOfRange)) <==> index > n + 1 || index < 0)
            && (o == Leak(Panicked) <==> index == n || index == n + 1)
  {
    if index >= 0 {
      assert Wrap(index - 1) == index - 1;
    }
  }

  /** GetListItem moves an index far outside the list to an end; the guards again miss the nearest ones. */
  function GetItemReply(l: List, index: Int64): Reply {
    var n := |l.value|;
    if n == 0 then Failed(ListEmpty)
    else
      var high: int := if Wrap(index - 1) > n then n - 1 else index;
      var low := if high < 0 && Wrap(Wrap(0 - high) - 1) > n then 0 else high;
      var i := if low >= 0 then low else n + low;
      if 0 <= i < n then Item(l.value[i]) else Panicked
  }

  /**
   GetListItem is documented to report an index out of range. It never does: far indices give the item at the
   nearer end (the smallest integer, whose decrement wraps, gives the last item), the nearest ones panic.
   */
  lemma GetItemExactly(l: List, index: Int64)
    requires l.value != [] && |l.value| < TWO_TO_THE_63 - 1
    ensures var n := |l.value|;
            GetItemReply(l, index) ==
            if 0 <= index < n then Item(l.value[index])
            else if -n <= index < 0 then Item(l.value[n + index])
            else if index > n + 1 || index == MIN_INT64 then Item(l.value[n - 1])
            else if index < -(n + 1) then Item(l.value[0])
            else Panicked
  {
    if index != MIN_INT64 {
      assert Wrap(index - 1) == index - 1;
      if index < 0 {
        assert Wrap(0 - index) == 0 - index && Wrap(0 - index - 1) == 0 - index - 1;
      }
    }
  }

  /** A one-item list and index 1: the documented error does not come, the handler panics. */
  lemma OutOfRangeNotReported(item: Blob)
    ensures SetItemOutcome(List([], [item], 0), 1, item) == Leak(Panicked)
    ensures DeleteAtOutcome(List([], [item], 0), 1) == Leak(Panicked)
  {
    SetItemExactly(List([], [item], 0), 1, item);
    DeleteAtExactly(List([], [item], 0), 1);
  }

  /** Setting a field works on every readable key but one that holds an empty hash. */
  lemma SetFieldExactly(key: Bytes, current: Option<Bytes>, field: Blob, value: Blob)
    requires ValidKey(key) && !LoadHash(current).Broken?
    ensures var o := OutcomeOf(key, OnHash(SetField(field, value)), current);
            && (o.Commit? <==> current == None || UnmarshalHash(current.value).value.value != map[])
            && (!o.Commit? ==> o == Leak(Panicked))
  {
  }

  /** Deleting the last field leaves exactly such a key behind. */
  lemma LastFieldThenSetFieldPanics(key: Bytes, field: Blob, value: Blob, b: Bytes)
    requires ValidKey(key) && |field| + |value| < TWO_TO_THE_63 - 64
    requires IsHashEncoding(Hash([], map[field := value]), b)
    ensures OutcomeOf(key, OnHash(DeleteField(field)), Some(b)) == Commit(Fields(map[]), Nothing)
    ensures forall b' :: StoredAs(Fields(map[]), b') ==>
              OutcomeOf(key, OnHash(SetField(field, value)), Some(b')) == Leak(Panicked)
  {
    hide UnmarshalHash;
    HashRoundTrip(Hash([], map[field := value]), b);
    forall b' | StoredAs(Fields(map[]), b')
      ensures OutcomeOf(key, OnHash(SetField(field, value)), Some(b')) == Leak(Panicked)
    {
      HashRoundTrip(Hash([], map[]), b');
    }
    assert map[field := value] - {field} == map[];
  }

  /** Every way a locked update can return with the lock still in place. */
  ghost predicate LeakCause(key: Bytes, op: Update, current: Option<Bytes>, reply: Reply) {
    || (reply == Failed(InvalidKey) && !ValidKey(key) && Decide(op, current).Commit?)
    || (reply == Flag(false) && op.SetIfAbsent? && current.Some?)
    || (reply == Number(-1) && op.OnList? && op.list.DeleteItem? && LoadList(current).Loaded? &&
        op.list.item !in LoadList(current).value.value)
    || (reply == Panicked && op.OnList? && LoadList(current).Loaded? && BadListAccess(LoadList(current).value, op.list))
    || (reply == Panicked && op.OnHash? && LoadHash(current).Loaded? && LoadHash(current).value.value == map[] &&
        (op.hash.SetField? || (op.hash.SetFields? && op.hash.fields != map[])))
  }

  /** The slice accesses that Go refuses at run time. */
  predicate BadListAccess(l: List, op: ListUpdate) {
    match op
    case Insert(_, _) => l.limit < 0
    case Append(_) => l.limit < 0
    case DeleteAt(index) => l.value != [] && |l.value| <= index <= |l.value| + 1
    case SetItem(index, _) => l.value != [] && !GuardRejects(index, |l.value|) && !(-|l.value| <= index < |l.value|)
    case _ => false
  }

  lemma LeaksExactly(key: Bytes, op: Update, current: Option<Bytes>, reply: Reply)
    ensures OutcomeOf(key, op, current) == Leak(reply) <==> LeakCause(key, op, current, reply)
  {
    if op.OnList? && op.list.DeleteAt? && LoadList(current).Loaded? && LoadList(current).value.value != [] {
      DeleteAtExactly(LoadList(current).value, op.list.index);
    }
  }
}
