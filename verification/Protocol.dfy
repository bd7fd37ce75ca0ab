/**
 Many calls in flight over one store. A call moves from one store transaction to the next; between two
 of its transactions any number of transactions of other calls can happen.
 mydis/type_lock.go, the retry loops of type_bytes.go and type_keys.go, and the shape shared by every
 locked update: lock, read, then one UnlockThenSet or an Unlock.
 */
module Protocol {
  import opened Bytes
  import opened Keys
  import opened Etcd
  import opened Messages
  import opened Operations

  datatype Call =
    | LockedUpdate(key: Bytes, op: Update)
    | PlainSet(key: Bytes, value: Bytes)
    | PlainDelete(key: Bytes)
    | PlainGet(key: Bytes)
    | Session(key: Bytes) // a client's own Lock, Get, then UnlockThenSet or Unlock

  /** Where a call stands: the transaction it will run next, with what it has read so far. */
  datatype Stage =
    | AtLock(call: Call)
    | AtRead(call: Call)
    | AtCommit(call: Call, seen: Option<Bytes>)
    | AtUnlock(call: Call, reply: Reply)
    | AtGuard(call: Call)
    | AtGet(call: Call)
    | Done(call: Call, reply: Reply)
    | Leaked(call: Call, reply: Reply)

  /** Between its successful lock transaction and its release; a leaked call never releases. */
  predicate Holds(st: Stage) {
    st.AtRead? || st.AtCommit? || st.AtUnlock? || st.Leaked?
  }

  /** The choices left open: whether the time is up, the byte order of a stored hash, what a client decides. */
  datatype Act =
    | Try(timeUp: bool)
    | Fetch
    | Store(b: Bytes, how: HashLayout)
    | Quit

  /** An effect taking place: the reply is settled and, for writes, the bytes stored. */
  datatype Effect = NoEffect | Settled(reply: Reply, wrote: Option<Bytes>)

  datatype Move = Blocked | Move(stage: Stage, store: Etcd.Store, effect: Effect)

  function Entry(call: Call): Stage {
    match call
    case LockedUpdate(_, _) => AtLock(call)
    case Session(_) => AtLock(call)
    case PlainSet(_, _) => AtGuard(call)
    case PlainDelete(_) => AtGuard(call)
    case PlainGet(_) => AtGet(call)
  }

  function Settle(st: Stage, s: Etcd.Store, reply: Reply): Move {
    Move(st, s, Settled(reply, None))
  }

  /** One turn of LockWithTimeout's loop. */
  function TryLock(call: Call, s: Etcd.Store, timeUp: bool): Move {
    var t := LockTxn(call.key);
    if !Succeeds(s, t) then Move(AtRead(call), Apply(s, t), NoEffect)
    else if timeUp then Settle(Done(call, Failed(KeyLocked)), s, Failed(KeyLocked))
    else Move(AtLock(call), s, NoEffect)
  }

  /** One turn of the loops of Set and Delete. */
  function TryGuarded(call: Call, s: Etcd.Store, timeUp: bool): Move
    requires call.PlainSet? || call.PlainDelete?
  {
    var t := if call.PlainSet? then SetTxn(call.key, call.value) else DeleteTxn(call.key);
    if call.PlainSet? && !ValidKey(call.key) then
      Settle(Done(call, Failed(InvalidKey)), s, Failed(InvalidKey))
    else if !Succeeds(s, t) then
      Move(Done(call, Nothing), Apply(s, t), Settled(Nothing, if call.PlainSet? then Some(call.value) else None))
    else if timeUp then Settle(Done(call, Failed(KeyLocked)), s, Failed(KeyLocked))
    else Move(AtGuard(call), s, NoEffect)
  }

  /** One turn of the loop of Unlock, which is Delete of the lock's name. A caller ignores its error. */
  function TryUnlock(call: Call, reply: Reply, s: Etcd.Store, timeUp: bool): Move {
    var t := DeleteTxn(LockName(call.key));
    if !Succeeds(s, t) then Move(Done(call, reply), Apply(s, t), NoEffect)
    else if timeUp then Move(Leaked(call, reply), s, NoEffect)
    else Move(AtUnlock(call, reply), s, NoEffect)
  }

  /** The read under the lock settles every call that will not write. */
  function AfterRead(call: Call, s: Etcd.Store): Move {
    var seen := Find(s, call.key);
    if call.LockedUpdate? then
      match OutcomeOf(call.key, call.op, seen)
      case Commit(_, _) => Move(AtCommit(call, seen), s, NoEffect)
      case Release(reply) => Settle(AtUnlock(call, reply), s, reply)
      case Leak(reply) => Settle(Leaked(call, reply), s, reply)
    else
      Move(AtCommit(call, seen), s, NoEffect)
  }

  /** Whether UnlockThenSet may be called with these bytes, and what the call then returns. */
  predicate MayStore(call: Call, seen: Option<Bytes>, b: Bytes, how: HashLayout, reply: Reply) {
    if call.LockedUpdate? then
      var o := OutcomeOf(call.key, call.op, seen);
      o.Commit? && Encoded(o.stored, how) == Some(b) && reply == o.reply
    else
      ValidKey(call.key) && reply == Seen(seen)
  }

  function ReplyAfter(call: Call, seen: Option<Bytes>): Reply {
    if call.LockedUpdate? then
      var o := OutcomeOf(call.key, call.op, seen);
      if o.Commit? then o.reply else Nothing
    else Seen(seen)
  }

  function CommitMove(call: Call, seen: Option<Bytes>, s: Etcd.Store, b: Bytes, how: HashLayout): Move {
    var reply := ReplyAfter(call, seen);
    if MayStore(call, seen, b, how, reply) then
      Move(Done(call, reply), Apply(s, UnlockThenSetTxn(call.key, b)), Settled(reply, Some(b)))
    else Blocked
  }

  function GetReply(current: Option<Bytes>): Reply {
    if current.Some? then Item(current.value) else Failed(KeyNotFound)
  }

  /** What one call does with the store at one transaction. */
  function MoveOf(st: Stage, s: Etcd.Store, act: Act): Move {
    match (st, act)
    case (AtLock(call), Try(timeUp)) => TryLock(call, s, timeUp)
    case (AtGuard(call), Try(timeUp)) =>
      if call.PlainSet? || call.PlainDelete? then TryGuarded(call, s, timeUp) else Blocked
    case (AtUnlock(call, reply), Try(timeUp)) => TryUnlock(call, reply, s, timeUp)
    case (AtRead(call), Fetch) => AfterRead(call, s)
    case (AtGet(call), Fetch) =>
      var reply := GetReply(Find(s, call.key));
      Settle(Done(call, reply), s, reply)
    case (AtCommit(call, seen), Store(b, how)) => CommitMove(call, seen, s, b, how)
    case (AtCommit(call, seen), Quit) =>
      if call.Session? then Settle(AtUnlock(call, Seen(seen)), s, Seen(seen)) else Blocked
    case _ => Blocked
  }

  // ---------- the whole system ----------

  datatype Event = Event(id: nat, call: Call, reply: Reply, wrote: Option<Bytes>)

  /** `log` only records: the order in which the calls took effect. */
  datatype State = State(store: Etcd.Store, calls: map<nat, Stage>, log: seq<Event>)

  datatype Label =
    | Invoke(id: nat, call: Call)
    | Run(id: nat, act: Act)

  function Logged(log: seq<Event>, id: nat, call: Call, e: Effect): seq<Event> {
    match e
    case NoEffect => log
    case Settled(reply, wrote) => log + [Event(id, call, reply, wrote)]
  }

  function AfterMove(s: State, id: nat, m: Move): State
    requires m.Move?
  {
    State(m.store, s.calls[id := m.stage], Logged(s.log, id, m.stage.call, m.effect))
  }

  /** A label that is not possible leaves the state alone. Clients keep off the names of locks. */
  function Step(s: State, l: Label): State {
    match l
    case Invoke(id, call) =>
      if id in s.calls || IsLockName(call.key) then s else s.(calls := s.calls[id := Entry(call)])
    case Run(id, act) =>
      if id !in s.calls then s
      else
        var m := MoveOf(s.calls[id], s.store, act);
        if m.Blocked? then s else AfterMove(s, id, m)
  }

  /** A run is any sequence of labels: any number of calls, interleaved in any way. */
  function Exec(s: State, labels: seq<Label>): State {
    if labels == [] then s
    else Step(Exec(s, labels[..|labels| - 1]), labels[|labels| - 1])
  }

  function Start(data: Etcd.Store): State {
    State(data, map[], [])
  }

  /** A store nobody has locked anything in yet. */
  ghost predicate Fresh(data: Etcd.Store) {
    SentinelClear(data) && forall k :: k in data ==> !IsLockName(k)
  }

  lemma {:induction false} ExecAppend(s: State, before: seq<Label>, after: seq<Label>)
    ensures Exec(s, before + after) == Exec(Exec(s, before), after)
    decreases |after|
  {
    hide Step;
    if after == [] {
      assert before + after == before;
    } else {
      var n := |after| - 1;
      assert (before + after)[..|before| + n] == before + after[..n];
      assert (before + after)[|before| + n] == after[n];
      ExecAppend(s, before, after[..n]);
    }
  }

  // ---------- the server seen as a sequence of atomic operations ----------

  /** The part of the store that holds data. */
  function Data(s: Etcd.Store): Etcd.Store {
    map k | k in s && !IsLockName(k) :: s[k]
  }

  function Changed(d: Etcd.Store, e: Event): Etcd.Store {
    match e.wrote
    case Some(b) => d[e.call.key := b]
    case None => if e.call.PlainDelete? && e.reply == Nothing then d - {e.call.key} else d
  }

  /** What a one-step version of the call may answer and store when it finds the data as `d`. */
  ghost predicate Atomic(d: Etcd.Store, e: Event) {
    var current := Find(d, e.call.key);
    if e.reply == Failed(KeyLocked) then e.wrote == None && !e.call.PlainGet?
    else match e.call
      case LockedUpdate(key, op) =>
        (match OutcomeOf(key, op, current)
         case Commit(stored, reply) => e.reply == reply && e.wrote.Some? && StoredAs(stored, e.wrote.value)
         case Release(reply) => e.reply == reply && e.wrote == None
         case Leak(reply) => e.reply == reply && e.wrote == None)
      case PlainSet(key, value) =>
        if ValidKey(key) then e.reply == Nothing && e.wrote == Some(value)
        else e.reply == Failed(InvalidKey) && e.wrote == None
      case PlainDelete(key) => e.reply == Nothing && e.wrote == None
      case PlainGet(key) => e.reply == GetReply(current) && e.wrote == None
      case Session(key) => e.reply == Seen(current) && (e.wrote.Some? ==> ValidKey(key))
  }

  function Replay(d: Etcd.Store, log: seq<Event>): Etcd.Store {
    if log == [] then d else Changed(Replay(d, log[..|log| - 1]), log[|log| - 1])
  }

  /** Each event is what the atomic version does to the data left by the events before it. */
  ghost predicate Legal(d: Etcd.Store, log: seq<Event>) {
    log == [] ||
    (Legal(d, log[..|log| - 1]) && Atomic(Replay(d, log[..|log| - 1]), log[|log| - 1]))
  }
}
