/**
 The handlers themselves, written the way the server runs them: one store transaction after another,
 with other calls running in between. `script` is what the other calls do and how long things take; nothing
 is known about it, so what a method ensures holds in every concurrent environment.
 */
module Server {
  import opened Bytes
  import opened Keys
  import opened Etcd
  import opened Wire
  import opened Messages
  import opened ListEdit
  import opened Operations
  import opened Protocol
  import opened Safety
  import opened Theorems

  /** What happens before the next transaction of the call at hand. */
  datatype Tick = Tick(others: seq<Label>, elapsed: nat)

  datatype LockResult = Acquired | TimedOut | StillWaiting

  /** A call without a time limit may still be waiting when the observed part of the run ends. */
  datatype Result = Answer(reply: Reply) | Waiting

  const DELAY: nat := 1 // milliseconds

  // ---------- runs, one label at a time ----------

  lemma ExtendRun(s: State, labels: seq<Label>, l: Label)
    ensures Exec(s, labels + [l]) == Step(Exec(s, labels), l)
  {
    hide Step;
    assert (labels + [l])[..|labels|] == labels;
  }

  lemma OthersKeepStage(s: State, l: Label, me: nat)
    requires me in s.calls && l.id != me
    ensures me in Step(s, l).calls && Step(s, l).calls[me] == s.calls[me]
  {
    hide MoveOf;
  }

  /** No step of call `id` since position `from` of the run has changed the store. */
  ghost predicate WroteNothing(data: Store, labels: seq<Label>, from: nat, id: nat) {
    forall n :: from <= n < |labels| && labels[n].id == id ==>
      Exec(Start(data), labels[..n + 1]).store == Exec(Start(data), labels[..n]).store
  }

  ghost predicate NotMine(labels: seq<Label>, from: nat, id: nat) {
    forall n :: from <= n < |labels| ==> labels[n].id != id
  }

  lemma OthersWriteNothingOfMine(data: Store, before: seq<Label>, labels: seq<Label>, from: nat, id: nat)
    requires before <= labels && WroteNothing(data, before, from, id) && NotMine(labels, |before|, id)
    ensures WroteNothing(data, labels, from, id)
  {
    hide Exec;
    forall n | from <= n < |labels| && labels[n].id == id
      ensures Exec(Start(data), labels[..n + 1]).store == Exec(Start(data), labels[..n]).store
    {
      assert labels[n] == before[n] && labels[..n + 1] == before[..n + 1] && labels[..n] == before[..n];
    }
  }

  lemma SilentTurn(data: Store, labels: seq<Label>, l: Label, from: nat, id: nat)
    requires WroteNothing(data, labels, from, id)
    requires Exec(Start(data), labels + [l]).store == Exec(Start(data), labels).store
    ensures WroteNothing(data, labels + [l], from, id)
  {
    hide Exec;
    var longer := labels + [l];
    forall n | from <= n < |longer| && longer[n].id == id
      ensures Exec(Start(data), longer[..n + 1]).store == Exec(Start(data), longer[..n]).store
    {
      if n < |labels| {
        assert longer[..n + 1] == labels[..n + 1] && longer[..n] == labels[..n];
      } else {
        assert longer[..n + 1] == longer && longer[..n] == labels;
      }
    }
  }

  /**
   The call wrote once since `from`, with its very last step, and found the key's lock free when it did.
   */
  ghost predicate WroteOnceWhenFree(data: Store, labels: seq<Label>, from: nat, id: nat, key: Bytes) {
    var n := |labels| - 1;
    from <= n && labels[n].id == id && WroteNothing(data, labels[..n], from, id) &&
    !Locked(Exec(Start(data), labels[..n]).store, key)
  }

  function Below(n: nat): set<nat> {
    if n == 0 then {} else Below(n - 1) + {n - 1}
  }

  lemma {:induction false} BelowExactly(n: nat)
    ensures |Below(n)| == n && forall i: nat :: i in Below(n) <==> i < n
  {
    if n > 0 {
      BelowExactly(n - 1);
    }
  }

  lemma UsedIdsCounted(calls: map<nat, Stage>, n: nat)
    requires forall i: nat :: i < n ==> i in calls
    ensures n <= |calls|
  {
    BelowExactly(n);
    SubsetSize(Below(n), calls.Keys);
  }

  lemma {:induction false} SubsetSize(a: set<nat>, b: set<nat>)
    requires a <= b
    ensures |a| <= |b|
    decreases a
  {
    if a != {} {
      var x :| x in a;
      SubsetSize(a - {x}, b - {x});
    }
  }

  method FreshId(calls: map<nat, Stage>) returns (id: nat)
    ensures id !in calls
  {
    id := 0;
    while id in calls
      invariant forall i: nat :: i < id ==> i in calls
      decreases |calls| + 1 - id
    {
      id := id + 1;
      UsedIdsCounted(calls, id);
    }
  }

  // ---------- the moves a handler makes ----------

  lemma LockMoves(call: Call, s: Store)
    ensures Succeeds(s, LockTxn(call.key)) <==> Locked(s, call.key)
    ensures !Locked(s, call.key) ==> MoveOf(AtLock(call), s, Try(false)) == Move(AtRead(call), Apply(s, LockTxn(call.key)), NoEffect)
    ensures Locked(s, call.key) ==>
              && MoveOf(AtLock(call), s, Try(false)) == Move(AtLock(call), s, NoEffect)
              && MoveOf(AtLock(call), s, Try(true)) == Settle(Done(call, Failed(KeyLocked)), s, Failed(KeyLocked))
  {
    hide Apply, Succeeds;
    TxnEffects(s, call.key, []);
  }

  function GuardTxn(call: Call): Txn
    requires call.PlainSet? || call.PlainDelete?
  {
    if call.PlainSet? then SetTxn(call.key, call.value) else DeleteTxn(call.key)
  }

  lemma GuardMoves(call: Call, s: Store)
    requires call.PlainDelete? || (call.PlainSet? && ValidKey(call.key))
    ensures Succeeds(s, GuardTxn(call)) <==> Locked(s, call.key)
    ensures !Locked(s, call.key) ==>
              var m := MoveOf(AtGuard(call), s, Try(false));
              m.Move? && m.stage == Done(call, Nothing) && m.store == Apply(s, GuardTxn(call))
    ensures Locked(s, call.key) ==>
              && MoveOf(AtGuard(call), s, Try(false)) == Move(AtGuard(call), s, NoEffect)
              && MoveOf(AtGuard(call), s, Try(true)) == Settle(Done(call, Failed(KeyLocked)), s, Failed(KeyLocked))
  {
    hide Apply, Succeeds;
    TxnEffects(s, call.key, if call.PlainSet? then call.value else []);
  }

  lemma RefusalMove(call: Call, s: Store)
    requires call.PlainSet? && !ValidKey(call.key)
    ensures MoveOf(AtGuard(call), s, Try(false)) == Settle(Done(call, Failed(InvalidKey)), s, Failed(InvalidKey))
  {
  }

  /** In a state the protocol reaches, the lock of a lock is never there. */
  lemma UnlockMoves(data: Store, labels: seq<Label>, call: Call, reply: Reply, id: nat)
    requires Fresh(data) && id in Exec(Start(data), labels).calls
    requires Exec(Start(data), labels).calls[id] == AtUnlock(call, reply)
    ensures var s := Exec(Start(data), labels).store;
            && !Succeeds(s, DeleteTxn(LockName(call.key)))
            && MoveOf(AtUnlock(call, reply), s, Try(false)) ==
               Move(Done(call, reply), Apply(s, DeleteTxn(LockName(call.key))), NoEffect)
  {
    hide Exec, Linear, Apply, Succeeds;
    RunKeepsInv(data, labels);
    var s := Exec(Start(data), labels);
    NoLockOfALock(s, call.key);
    TxnEffects(s.store, LockName(call.key), []);
  }

  lemma ReadMoves(key: Bytes, op: Update, s: Store)
    ensures var m := MoveOf(AtRead(LockedUpdate(key, op)), s, Fetch);
            m.Move? && m.store == s && m.stage == AfterReading(key, op, Find(s, key))
  {
    hide OutcomeOf;
  }

  lemma CommitMoves(key: Bytes, op: Update, seen: Option<Bytes>, s: Store, b: Bytes, how: HashLayout)
    requires var o := OutcomeOf(key, op, seen); o.Commit? && Encoded(o.stored, how) == Some(b)
    ensures var m := MoveOf(AtCommit(LockedUpdate(key, op), seen), s, Act.Store(b, how));
            m.Move? && m.store == Apply(s, UnlockThenSetTxn(key, b)) &&
            m.stage == Done(LockedUpdate(key, op), OutcomeOf(key, op, seen).reply)
  {
    hide OutcomeOf, Encoded, Apply;
  }

  /** Where a locked update stands once it has read `current` under its lock. */
  function AfterReading(key: Bytes, op: Update, current: Option<Bytes>): Stage {
    var call := LockedUpdate(key, op);
    match OutcomeOf(key, op, current)
    case Commit(_, _) => AtCommit(call, current)
    case Release(reply) => AtUnlock(call, reply)
    case Leak(reply) => Leaked(call, reply)
  }

  /** Waiting lets time pass: unless it was used up already, some of the script is used. */
  predicate Consumed(before: seq<Tick>, after: seq<Tick>) {
    |after| <= |before| && (before != [] ==> |after| < |before|)
  }

  function Refused(r: LockResult): Result {
    if r.TimedOut? then Answer(Failed(KeyLocked)) else Waiting
  }

  function Returned(error: Option<Error>, ok: Reply): Result {
    Answer(if error.None? then ok else Failed(error.value))
  }

  function ListUpdateCall(key: Bytes, op: ListUpdate): Call {
    LockedUpdate(key, OnList(op))
  }

  function HashUpdateCall(key: Bytes, op: HashUpdate): Call {
    LockedUpdate(key, OnHash(op))
  }

  /** The loop of SetHashFields: write every given field over the old ones, in any order. */
  method MergeFields(h: map<Blob, Blob>, fields: map<Blob, Blob>) returns (merged: map<Blob, Blob>)
    ensures merged == h + fields
  {
    merged := h;
    var rest := fields.Keys;
    while rest != {}
      invariant rest <= fields.Keys
      invariant merged == h + (fields - rest)
      decreases rest
    {
      var f :| f in rest;
      merged, rest := merged[f := fields[f]], rest - {f};
    }
  }

  function PopCall(key: Bytes, left: bool): Call {
    ListUpdateCall(key, if left then PopLeft else PopRight)
  }

  const EMPTY_REPLY := Failed(ListEmpty)

  /** Call `id` was Set(key, value), and its error, if it had one, is in `errors`. */
  ghost predicate SetBy(s: State, id: nat, key: Bytes, value: Bytes, errors: map<Bytes, Error>) {
    id in s.calls && s.calls[id] == Done(PlainSet(key, value), if key in errors then Failed(errors[key]) else Nothing)
  }

  ghost predicate AllAt(s: State, ids: seq<nat>, st: Stage) {
    forall a :: a in ids ==> a in s.calls && s.calls[a] == st
  }

  /** Calls that are over stay as they are, however the run goes on. */
  lemma AnsweredForGood(data: Store, before: seq<Label>, labels: seq<Label>, ids: seq<nat>, st: Stage)
    requires before <= labels && st.Done?
    requires AllAt(Exec(Start(data), before), ids, st)
    ensures AllAt(Exec(Start(data), labels), ids, st)
  {
    hide Exec;
    var during := labels[|before|..];
    assert labels == before + during;
    ExecAppend(Start(data), before, during);
    forall a | a in ids
      ensures a in Exec(Start(data), labels).calls && Exec(Start(data), labels).calls[a] == st
    {
      StaysDone(Exec(Start(data), before), during, a);
    }
  }

  class Server {
    var state: State // the store, every call in flight, and the order in which calls took effect
    var now: nat // milliseconds
    var script: seq<Tick>
    var me: nat // the call being handled
    ghost var labels: seq<Label> // the run so far
    const initial: Store
    const maxWait: Int64 // seconds, from the request's metadata; 5 by default

    constructor (initial: Store, maxWait: Int64, script: seq<Tick>)
      requires Fresh(initial)
      ensures Valid() && this.script == script && this.initial == initial && this.maxWait == maxWait && labels == []
    {
      this.initial, this.maxWait, this.script := initial, maxWait, script;
      state := Start(initial);
      now, me := 0, 0;
      labels := [];
    }

    /** The state is one the protocol reaches, whatever was interleaved. */
    ghost predicate Valid()
      reads this
    {
      Fresh(initial) && state == Exec(Start(initial), labels)
    }

    ghost predicate At(st: Stage)
      reads this
    {
      Valid() && me in state.calls && state.calls[me] == st
    }

    /** The call has answered `reply`; unless it leaked its lock, it holds none. */
    ghost predicate Answered(call: Call, reply: Reply)
      reads this
    {
      At(Done(call, reply)) || At(Leaked(call, reply))
    }

    ghost predicate Finished(call: Call, r: Result)
      reads this
    {
      match r
      case Answer(reply) => Answered(call, reply)
      case Waiting => At(AtLock(call)) && maxWait < 0 && script == []
    }

    /** ErrKeyLocked is answered at once without a waiting time, after more than that time with one, and never if it has no end. */
    predicate WaitedFor(r: Result, elapsed: int) {
      r == Answer(Failed(KeyLocked)) ==> maxWait == 0 || (maxWait > 0 && elapsed > maxWait * 1000)
    }

    // ---------- the environment ----------

    /** Other calls run. They cannot move the call at hand. */
    method Others()
      requires Valid() && me in state.calls
      modifies this`state, this`now, this`script, this`labels
      ensures At(old(state.calls[me]))
      ensures old(labels) <= labels && NotMine(labels, |old(labels)|, me) && old(now) <= now
      ensures script == if old(script) == [] then [] else old(script)[1..]
    {
      hide Exec, Step, Fresh;
      if script != [] {
        var todo := script[0].others;
        var i := 0;
        while i < |todo|
          invariant 0 <= i <= |todo|
          invariant At(old(state.calls[me]))
          invariant old(labels) <= labels && NotMine(labels, |old(labels)|, me)
          invariant now == old(now) && script == old(script)
        {
          if todo[i].id != me {
            OthersKeepStage(state, todo[i], me);
            ExtendRun(Start(initial), labels, todo[i]);
            state := Step(state, todo[i]);
            labels := labels + [todo[i]];
          }
          i := i + 1;
        }
        now, script := now + script[0].elapsed, script[1..];
      }
    }

    method Sleep(ms: nat)
      modifies this`now
      ensures now == old(now) + ms
    {
      now := now + ms;
    }

    /** A new call arrives under an id of its own. */
    method Begin(call: Call)
      requires Valid() && !IsLockName(call.key)
      modifies this`state, this`me, this`labels
      ensures At(Entry(call)) && me !in old(state.calls) && state.store == old(state.store)
      ensures labels == old(labels) + [Invoke(me, call)]
    {
      hide Exec, Fresh;
      me := FreshId(state.calls);
      ExtendRun(Start(initial), labels, Invoke(me, call));
      state := Step(state, Invoke(me, call));
      labels := labels + [Invoke(me, call)];
    }

    /** The store runs transaction `t` for the call at hand, which moves on as `act` says. */
    method Transact(t: Txn, act: Act)
      requires Valid() && me in state.calls
      requires var m := MoveOf(state.calls[me], state.store, act);
               m.Move? && m.store == Apply(state.store, t)
      modifies this`state, this`labels
      ensures At(MoveOf(old(state.calls[me]), old(state.store), act).stage)
      ensures labels == old(labels) + [Run(me, act)] && state.store == Apply(old(state.store), t)
    {
      hide Exec, Fresh, MoveOf, Apply;
      ExtendRun(Start(initial), labels, Run(me, act));
      var m := MoveOf(state.calls[me], state.store, act);
      var store := Apply(state.store, t);
      state := State(store, state.calls[me := m.stage], Logged(state.log, me, m.stage.call, m.effect));
      labels := labels + [Run(me, act)];
    }

    /** The call at hand moves on without changing the store. */
    method Advance(act: Act)
      requires Valid() && me in state.calls
      requires var m := MoveOf(state.calls[me], state.store, act); m.Move? && m.store == state.store
      modifies this`state, this`labels
      ensures At(MoveOf(old(state.calls[me]), old(state.store), act).stage)
      ensures labels == old(labels) + [Run(me, act)] && state.store == old(state.store)
    {
      hide Exec, Fresh, MoveOf, Apply;
      ExtendRun(Start(initial), labels, Run(me, act));
      var m := MoveOf(state.calls[me], state.store, act);
      state := State(state.store, state.calls[me := m.stage], Logged(state.log, me, m.stage.call, m.effect));
      labels := labels + [Run(me, act)];
    }

    // ---------- mydis/type_lock.go ----------

    /**
     Waits for the lock of `key`; `exp` in seconds, negative for ever. It succeeds exactly when its one
     write went into a store where the lock was free, and otherwise has written nothing.
     */
    method LockWithTimeout(key: Bytes, exp: Int64) returns (r: LockResult)
      requires Valid() && me in state.calls && state.calls[me].AtLock? && state.calls[me].call.key == key
      modifies this`state, this`now, this`script, this`labels
      ensures var call := old(state.calls[me].call);
              match r
              case Acquired => At(AtRead(call))
              case TimedOut => At(Done(call, Failed(KeyLocked))) && exp >= 0 && (exp == 0 || now > old(now) + exp * 1000)
              case StillWaiting => At(AtLock(call)) && exp < 0 && script == []
      ensures old(labels) <= labels && Consumed(old(script), script)
      ensures r.Acquired? ==> WroteOnceWhenFree(initial, labels, |old(labels)|, me, key)
      ensures !r.Acquired? ==> WroteNothing(initial, labels, |old(labels)|, me)
    {
      hide Exec, Step, Fresh, Apply, Succeeds, WroteNothing, NotMine, MoveOf;
      var deadline := now + exp * 1000;
      var t := LockTxn(key);
      ghost var call, from := state.calls[me].call, |labels|;
      assert WroteNothing(initial, labels, from, me) by { NothingYet(initial, labels, me); }
      while true
        invariant At(AtLock(call)) && old(labels) <= labels && old(now) <= now
        invariant script == old(script) || Consumed(old(script), script)
        invariant WroteNothing(initial, labels, from, me)
        decreases if exp >= 0 then deadline + 1 - now else |script|
      {
        ghost var before := labels;
        Others();
        OthersWriteNothingOfMine(initial, before, labels, from, me);
        LockMoves(call, state.store);
        before := labels;
        if !Succeeds(state.store, t) {
          Transact(t, Try(false));
          assert labels[..|labels| - 1] == before;
          return Acquired;
        }
        if exp == 0 {
          Advance(Try(true));
          SilentTurn(initial, before, Run(me, Try(true)), from, me);
          return TimedOut;
        }
        Sleep(DELAY);
        if now > deadline && exp >= 0 {
          Advance(Try(true));
          SilentTurn(initial, before, Run(me, Try(true)), from, me);
          return TimedOut;
        }
        Advance(Try(false));
        SilentTurn(initial, before, Run(me, Try(false)), from, me);
        if exp < 0 && script == [] {
          return StillWaiting;
        }
      }
    }

    /** Lock waits as long as the request says. */
    method Lock(key: Bytes, ghost call: Call) returns (r: LockResult)
      requires At(AtLock(call)) && call.key == key
      modifies this`state, this`now, this`script, this`labels
      ensures match r
              case Acquired => At(AtRead(call))
              case TimedOut =>
                Finished(call, Answer(Failed(KeyLocked))) && maxWait >= 0 && (maxWait == 0 || now > old(now) + maxWait * 1000)
              case StillWaiting => Finished(call, Waiting)
      ensures old(labels) <= labels && Consumed(old(script), script)
    {
      hide Exec, Fresh;
      r := LockWithTimeout(key, maxWait);
    }

    /** Unlock deletes the lock entry through Delete; no caller looks at its error. */
    method Unlock(key: Bytes, ghost call: Call, ghost reply: Reply)
      requires At(AtUnlock(call, reply)) && call.key == key
      modifies this`state, this`now, this`script, this`labels
      ensures At(Done(call, reply)) && old(labels) <= labels && |script| <= |old(script)|
    {
      hide Exec, Fresh;
      var _ := DeleteLoop(LockName(key));
    }

    /** UnlockThenSet: one transaction takes the lock away and stores the value. */
    method UnlockThenSet(key: Bytes, b: Bytes, how: HashLayout, ghost op: Update, ghost current: Option<Bytes>)
      returns (error: Option<Error>)
      requires At(AfterReading(key, op, current)) && Decide(op, current).Commit?
      requires Encoded(Decide(op, current).stored, how) == Some(b)
      modifies this`state, this`now, this`script, this`labels
      ensures old(labels) <= labels && |script| <= |old(script)|
      ensures error == if ValidKey(key) then None else Some(InvalidKey)
      ensures ValidKey(key) ==> At(Done(LockedUpdate(key, op), Decide(op, current).reply))
      ensures !ValidKey(key) ==> At(Leaked(LockedUpdate(key, op), Failed(InvalidKey)))
    {
      hide Exec, Fresh, Decide, Encoded, MoveOf, Apply;
      if key == [] || key == ZERO_BYTE {
        return Some(InvalidKey);
      }
      Others();
      CommitMoves(key, op, current, state.store, b, how);
      Transact(UnlockThenSetTxn(key, b), Act.Store(b, how));
      return None;
    }

    // ---------- mydis/type_bytes.go, mydis/type_keys.go ----------

    /** Set's loop: write as soon as the key is not locked. */
    method Set(key: Bytes, value: Bytes) returns (reply: Reply)
      requires Valid() && !IsLockName(key)
      modifies this
      ensures Answered(PlainSet(key, value), reply) && state.calls[me].Done? && old(labels) <= labels
      ensures me !in old(state.calls)
      ensures reply == Nothing || reply == Failed(KeyLocked) || reply == Failed(InvalidKey)
      ensures reply == Failed(InvalidKey) <==> !ValidKey(key)
      ensures reply == Nothing ==> WroteOnceWhenFree(initial, labels, |old(labels)| + 1, me, key)
      ensures reply != Nothing ==> WroteNothing(initial, labels, |old(labels)| + 1, me)
      ensures reply == Failed(KeyLocked) ==> now > old(now) + maxWait * 1000
    {
      hide Exec, Step, Fresh, Apply, Succeeds, WroteNothing, NotMine, MoveOf;
      var call := PlainSet(key, value);
      Begin(call);
      ghost var from := |labels|;
      assert WroteNothing(initial, labels, from, me) by { NothingYet(initial, labels, me); }
      if key == [] || key == ZERO_BYTE {
        ghost var before := labels;
        RefusalMove(call, state.store);
        Advance(Try(false));
        SilentTurn(initial, before, Run(me, Try(false)), from, me);
        return Failed(InvalidKey);
      }
      var deadline := now + maxWait * 1000;
      var t := SetTxn(key, value);
      while true
        invariant At(AtGuard(call)) && me !in old(state.calls) && old(labels) <= labels && |labels| >= from
        invariant WroteNothing(initial, labels, from, me)
        decreases deadline + 1 - now
      {
        ghost var before := labels;
        Others();
        OthersWriteNothingOfMine(initial, before, labels, from, me);
        GuardMoves(call, state.store);
        before := labels;
        if !Succeeds(state.store, t) {
          Transact(t, Try(false));
          assert labels[..|labels| - 1] == before;
          return Nothing;
        }
        Sleep(DELAY);
        if now > deadline {
          Advance(Try(true));
          SilentTurn(initial, before, Run(me, Try(true)), from, me);
          return Failed(KeyLocked);
        }
        Advance(Try(false));
        SilentTurn(initial, before, Run(me, Try(false)), from, me);
      }
    }

    /** Delete's loop, for a client's key or for the entry of a lock that is being given back. */
    method DeleteLoop(target: Bytes) returns (reply: Reply)
      requires Valid() && me in state.calls
      requires var st := state.calls[me];
               st == AtGuard(PlainDelete(target)) || (st.AtUnlock? && LockName(st.call.key) == target)
      modifies this`state, this`now, this`script, this`labels
      ensures old(labels) <= labels && |script| <= |old(script)|
      ensures var st := old(state.calls[me]);
              if st.AtUnlock? then At(Done(st.call, st.reply)) else At(Done(st.call, reply))
      ensures reply == Nothing || (reply == Failed(KeyLocked) && now > old(now) + maxWait * 1000)
    {
      hide Exec, Step, Fresh, Apply, Succeeds, MoveOf;
      ghost var st := state.calls[me];
      var deadline := now + maxWait * 1000;
      var t := DeleteTxn(target);
      while true
        invariant At(st) && old(labels) <= labels && |script| <= |old(script)|
        decreases deadline + 1 - now
      {
        Others();
        if st.AtUnlock? {
          UnlockMoves(initial, labels, st.call, st.reply, me);
        } else {
          GuardMoves(st.call, state.store);
        }
        if !Succeeds(state.store, t) {
          Transact(t, Try(false));
          return Nothing;
        }
        Sleep(DELAY);
        if now > deadline {
          Advance(Try(true));
          return Failed(KeyLocked);
        }
        Advance(Try(false));
      }
    }

    method Delete(key: Bytes) returns (reply: Reply)
      requires Valid() && !IsLockName(key)
      modifies this
      ensures Answered(PlainDelete(key), reply) && state.calls[me].Done? && old(labels) <= labels
      ensures me !in old(state.calls)
      ensures reply == Nothing || (reply == Failed(KeyLocked) && now > old(now) + maxWait * 1000)
    {
      hide Exec, Fresh;
      Begin(PlainDelete(key));
      reply := DeleteLoop(key);
    }

    /** The Range a locked update does under its lock. */
    method ReadLocked(key: Bytes, ghost op: Update) returns (current: Option<Bytes>)
      requires At(AtRead(LockedUpdate(key, op)))
      modifies this`state, this`now, this`script, this`labels
      ensures At(AfterReading(key, op, current)) && current == Find(state.store, key)
      ensures old(labels) <= labels && |script| <= |old(script)|
      ensures match Decide(op, current)
              case Commit(_, _) => true
              case Release(reply) => At(AtUnlock(LockedUpdate(key, op), reply))
              case Leak(reply) => At(Leaked(LockedUpdate(key, op), reply))
    {
      hide Exec, Fresh, MoveOf, Decide;
      Others();
      current := Find(state.store, key);
      ReadMoves(key, op, state.store);
      Advance(Fetch);
    }

    method UnlockThenSetList(key: Bytes, lst: ListBuffer, ghost op: Update, ghost current: Option<Bytes>, reply: Reply)
      returns (r: Result)
      requires At(AfterReading(key, op, current))
      requires Decide(op, current) == StoreList(lst.value[..], lst.limit, reply)
      modifies this`state, this`now, this`script, this`labels
      ensures Finished(LockedUpdate(key, op), r) && r.Answer? && old(labels) <= labels && |script| <= |old(script)|
      ensures r == Answer(if ValidKey(key) then reply else Failed(InvalidKey))
    {
      hide Exec, Fresh, Decide, AfterReading, MarshalList;
      var b := MarshalList(List([], lst.value[..], lst.limit));
      var error := UnlockThenSet(key, b, HashLayout([], false), op, current);
      return Returned(error, reply);
    }

    method UnlockThenSetHash(key: Bytes, h: map<Blob, Blob>, ghost op: Update, ghost current: Option<Bytes>)
      returns (r: Result)
      requires At(AfterReading(key, op, current))
      requires Decide(op, current) == Commit(Fields(h), Nothing)
      modifies this`state, this`now, this`script, this`labels
      ensures Finished(LockedUpdate(key, op), r) && r.Answer? && old(labels) <= labels && |script| <= |old(script)|
      ensures r == Answer(if ValidKey(key) then Nothing else Failed(InvalidKey))
    {
      hide Exec, Fresh, Decide, AfterReading, HashBytes;
      var b, how := MarshalFields(h);
      var error := UnlockThenSet(key, b, how, op, current);
      return Returned(error, Nothing);
    }

    /** SetNX. When the key exists it returns without giving the lock back. */
    method SetNX(key: Bytes, value: Bytes) returns (r: Result)
      requires Valid() && !IsLockName(key)
      modifies this
      ensures Finished(LockedUpdate(key, SetIfAbsent(value)), r) && old(labels) <= labels
      ensures me !in old(state.calls)
      ensures WaitedFor(r, now - old(now))
    {
      hide At, Valid, Exec, Fresh, OutcomeOf, AfterReading;
      var op := SetIfAbsent(value);
      ghost var call := LockedUpdate(key, op);
      Begin(LockedUpdate(key, op));
      var locked := Lock(key, call);
      if locked != Acquired {
        return Refused(locked);
      }
      var current := ReadLocked(key, op);
      if current.Some? {
        return Answer(Flag(false));
      }
      var error := UnlockThenSet(key, value, HashLayout([], false), op, current);
      return Returned(error, Flag(true));
    }

    ghost predicate GetFinished(key: Bytes, r: Result, block: bool, timeout: Int64)
      reads this
    {
      match r
      case Answer(reply) => At(Done(PlainGet(key), reply)) && (reply.Item? || reply == Failed(KeyNotFound))
      case Waiting => script == [] && block && timeout <= 0 && At(Done(PlainGet(key), Failed(KeyNotFound)))
    }

    /**
     Get. When it blocks, it looks again and again until the key is there; with a timeout of T > 0 seconds
     it looks at most 100 * T more times, and says there is no such key only after exactly that many.
     */
    method Get(key: Bytes, block: bool, timeout: Int64) returns (r: Result, ghost attempts: seq<nat>)
      requires Valid() && !IsLockName(key)
      modifies this
      ensures GetFinished(key, r, block, timeout) && old(labels) <= labels && Consumed(old(script), script)
      ensures attempts != [] && attempts[|attempts| - 1] == me
      ensures AllAt(state, attempts[..|attempts| - 1], Done(PlainGet(key), Failed(KeyNotFound)))
      ensures !block ==> |attempts| == 1 && r == Answer(GetReply(Find(state.store, key)))
      ensures timeout > 0 ==> |attempts| <= 1 + 100 * timeout
      ensures block && timeout > 0 && r == Answer(Failed(KeyNotFound)) ==> |attempts| == 1 + 100 * timeout
      decreases block
    {
      hide Exec, Fresh;
      Begin(PlainGet(key));
      attempts := [me];
      Others();
      var current := Find(state.store, key);
      Advance(Fetch);
      if current == None && block {
        r, attempts := RetryGet(key, timeout);
      } else {
        r := Answer(GetReply(current));
      }
    }

    method RetryGet(key: Bytes, timeout: Int64) returns (r: Result, ghost attempts: seq<nat>)
      requires At(Done(PlainGet(key), Failed(KeyNotFound))) && !IsLockName(key)
      modifies this
      ensures GetFinished(key, r, true, timeout) && old(labels) <= labels && |script| <= |old(script)|
      ensures attempts != [] && attempts[|attempts| - 1] == me
      ensures AllAt(state, attempts[..|attempts| - 1], Done(PlainGet(key), Failed(KeyNotFound)))
      ensures timeout > 0 ==> |attempts| <= 1 + 100 * timeout
      ensures timeout > 0 && r == Answer(Failed(KeyNotFound)) ==> |attempts| == 1 + 100 * timeout
      decreases true, 0
    {
      hide Exec, Fresh;
      ghost var gone := Done(PlainGet(key), Failed(KeyNotFound));
      attempts := [me];
      var waited := 0;
      while true
        invariant At(gone) && old(labels) <= labels && |script| <= |old(script)|
        invariant attempts != [] && AllAt(state, attempts, gone) && attempts[|attempts| - 1] == me
        invariant waited == 10 * (|attempts| - 1)
        invariant timeout > 0 ==> waited < timeout * 1000
        decreases if timeout > 0 then timeout * 1000 - waited else |script|
      {
        ghost var before := labels;
        ghost var tried: seq<nat>;
        r, tried := Get(key, false, timeout);
        AnsweredForGood(initial, before, labels, attempts, gone);
        assert (attempts + tried)[..|attempts|] == attempts;
        attempts := attempts + tried;
        if r == Answer(Failed(KeyNotFound)) {
          Sleep(10);
          waited := waited + 10;
          if waited >= timeout * 1000 && timeout > 0 {
            return;
          }
          if timeout <= 0 && script == [] {
            r := Waiting;
            return;
          }
        } else {
          return;
        }
      }
    }

    /** SetMany: one Set per entry, in any order; the keys whose Set failed, with the reason. */
    method SetMany(h: map<Bytes, Bytes>) returns (errors: map<Bytes, Error>, ghost ids: map<Bytes, nat>)
      requires Valid() && forall k :: k in h ==> !IsLockName(k)
      modifies this
      ensures Valid() && old(labels) <= labels
      ensures ids.Keys == h.Keys && errors.Keys <= h.Keys
      ensures forall k :: k in h ==> SetBy(state, ids[k], k, h[k], errors)
    {
      hide Exec, Fresh;
      errors, ids := map[], map[];
      var rest := h.Keys;
      while rest != {}
        invariant rest <= h.Keys && Valid() && old(labels) <= labels
        invariant ids.Keys == h.Keys - rest && errors.Keys <= ids.Keys
        invariant forall k :: k in ids ==> SetBy(state, ids[k], k, h[k], errors)
        decreases rest
      {
        var key :| key in rest;
        rest := rest - {key};
        ghost var before, was := labels, state;
        var reply := Set(key, h[key]);
        forall k | k in ids
          ensures ids[k] in state.calls && state.calls[ids[k]] == was.calls[ids[k]]
        {
          AnsweredForGood(initial, before, labels, [ids[k]], was.calls[ids[k]]);
        }
        ids := ids[key := me];
        if reply.Failed? {
          errors := errors[key := reply.error];
        }
      }
    }

    // ---------- mydis/type_int.go ----------

    method IncrementInt(key: Bytes, delta: Int64) returns (r: Result)
      requires Valid() && !IsLockName(key)
      modifies this
      ensures Finished(LockedUpdate(key, Increment(delta)), r) && old(labels) <= labels
      ensures me !in old(state.calls)
      ensures WaitedFor(r, now - old(now))
    {
      hide At, Valid, Exec, Fresh, OutcomeOf, AfterReading, UnmarshalInt, MarshalInt;
      var op := Increment(delta);
      ghost var call := LockedUpdate(key, op);
      Begin(LockedUpdate(key, op));
      var locked := Lock(key, call);
      if locked != Acquired {
        return Refused(locked);
      }
      var current := ReadLocked(key, op);
      var oldValue: Int64 := 0;
      match LoadInt(current) {
        case Missing =>
        case Broken(e) =>
          Unlock(key, call, Failed(e));
          return Answer(Failed(e));
        case Loaded(iv) =>
          oldValue := iv.value;
      }
      var newValue := Wrap(oldValue + delta);
      var b := MarshalInt(IntValue([], newValue));
      var error := UnlockThenSet(key, b, HashLayout([], false), op, current);
      return Returned(error, Number(newValue));
    }

    method DecrementInt(key: Bytes, amount: Int64) returns (r: Result)
      requires Valid() && !IsLockName(key)
      modifies this
      ensures Finished(LockedUpdate(key, Decrement(amount)), r) && old(labels) <= labels
      ensures me !in old(state.calls)
      ensures WaitedFor(r, now - old(now))
    {
      hide Exec, Fresh;
      var negated := Wrap(amount * -1);
      r := IncrementInt(key, negated);
    }

    // ---------- mydis/type_list.go ----------

    method SetListItem(key: Bytes, index: Int64, item: Blob) returns (r: Result)
      requires Valid() && !IsLockName(key)
      modifies this
      ensures Finished(ListUpdateCall(key, SetItem(index, item)), r) && old(labels) <= labels
      ensures me !in old(state.calls)
      ensures WaitedFor(r, now - old(now))
    {
      hide At, Valid, Exec, Fresh, OutcomeOf, AfterReading, UnmarshalList, MarshalList, Wrap;
      var op := OnList(SetItem(index, item));
      ghost var call := LockedUpdate(key, op);
      Begin(LockedUpdate(key, op));
      var locked := Lock(key, call);
      if locked != Acquired {
        return Refused(locked);
      }
      var current := ReadLocked(key, op);
      match LoadList(current)
      case Missing =>
        Unlock(key, call, Failed(KeyNotFound));
        return Answer(Failed(KeyNotFound));
      case Broken(e) =>
        Unlock(key, call, Failed(e));
        return Answer(Failed(e));
      case Loaded(l) =>
        var lst := new ListBuffer(l.value, l.limit);
        var length := lst.value.Length;
        if length == 0 {
          Unlock(key, call, Failed(ListEmpty));
          return Answer(Failed(ListEmpty));
        }
        if Wrap(index - 1) > length {
          Unlock(key, call, Failed(IndexOutOfRange));
          return Answer(Failed(IndexOutOfRange));
        }
        if index < 0 && Wrap(Wrap(index * -1) - 1) > length {
          Unlock(key, call, Failed(IndexOutOfRange));
          return Answer(Failed(IndexOutOfRange));
        }
        var i := if index >= 0 then index else length + index;
        if i < 0 || i >= length {
          return Answer(Panicked);
        }
        lst.value[i] := item;
        r := UnlockThenSetList(key, lst, op, current, Nothing);
    }

    method ListLimit(key: Bytes, limit: Int64) returns (r: Result)
      requires Valid() && !IsLockName(key)
      modifies this
      ensures Finished(ListUpdateCall(key, SetLimit(limit)), r) && old(labels) <= labels
      ensures me !in old(state.calls)
      ensures WaitedFor(r, now - old(now))
    {
      hide At, Valid, Exec, Fresh, OutcomeOf, AfterReading, UnmarshalList, MarshalList;
      var op := OnList(SetLimit(limit));
      ghost var call := LockedUpdate(key, op);
      Begin(LockedUpdate(key, op));
      var locked := Lock(key, call);
      if locked != Acquired {
        return Refused(locked);
      }
      var current := ReadLocked(key, op);
      match LoadList(current)
      case Missing =>
        Unlock(key, call, Failed(KeyNotFound));
        return Answer(Failed(KeyNotFound));
      case Broken(e) =>
        Unlock(key, call, Failed(e));
        return Answer(Failed(e));
      case Loaded(l) =>
        var lst := new ListBuffer(l.value, l.limit);
        lst.limit := if limit < 0 then 0 else limit;
        r := UnlockThenSetList(key, lst, op, current, Nothing);
    }

    method ListInsert(key: Bytes, index: Int64, item: Blob) returns (r: Result)
      requires Valid() && !IsLockName(key)
      modifies this
      ensures Finished(ListUpdateCall(key, Insert(index, item)), r) && old(labels) <= labels
      ensures me !in old(state.calls)
      ensures WaitedFor(r, now - old(now))
    {
      hide At, Valid, Exec, Fresh, OutcomeOf, AfterReading, UnmarshalList, MarshalList, KeepLast, Spliced, Decide, LoadList;
      var op := OnList(Insert(index, item));
      ghost var call := LockedUpdate(key, op);
      Begin(LockedUpdate(key, op));
      var locked := Lock(key, call);
      if locked != Acquired {
        return Refused(locked);
      }
      var current := ReadLocked(key, op);
      InsertDecides(current, index, item);
      var lst := new ListBuffer([], 0);
      match LoadList(current) {
        case Missing =>
        case Broken(e) =>
          Unlock(key, call, Failed(e));
          return Answer(Failed(e));
        case Loaded(l) =>
          lst := new ListBuffer(l.value, l.limit);
      }
      lst.Insert(if index < 0 then 0 else index, item);
      var panicked := lst.EnforceLimit();
      if panicked {
        return Answer(Panicked);
      }
      r := UnlockThenSetList(key, lst, op, current, Nothing);
    }

    method ListAppend(key: Bytes, item: Blob) returns (r: Result)
      requires Valid() && !IsLockName(key)
      modifies this
      ensures Finished(ListUpdateCall(key, Append(item)), r) && old(labels) <= labels
      ensures me !in old(state.calls)
      ensures WaitedFor(r, now - old(now))
    {
      hide At, Valid, Exec, Fresh, OutcomeOf, AfterReading, UnmarshalList, MarshalList, KeepLast, Spliced, Decide, LoadList;
      var op := OnList(Append(item));
      ghost var call := LockedUpdate(key, op);
      Begin(LockedUpdate(key, op));
      var locked := Lock(key, call);
      if locked != Acquired {
        return Refused(locked);
      }
      var current := ReadLocked(key, op);
      AppendDecides(current, item);
      var lst := new ListBuffer([], 0);
      match LoadList(current) {
        case Missing =>
        case Broken(e) =>
          Unlock(key, call, Failed(e));
          return Answer(Failed(e));
        case Loaded(l) =>
          lst := new ListBuffer(l.value, l.limit);
      }
      lst.Append(item);
      var panicked := lst.EnforceLimit();
      if panicked {
        return Answer(Panicked);
      }
      r := UnlockThenSetList(key, lst, op, current, Nothing);
    }

    method ListDelete(key: Bytes, index: Int64) returns (r: Result)
      requires Valid() && !IsLockName(key)
      modifies this
      ensures Finished(ListUpdateCall(key, DeleteAt(index)), r) && old(labels) <= labels
      ensures me !in old(state.calls)
      ensures WaitedFor(r, now - old(now))
    {
      hide At, Valid, Exec, Fresh, OutcomeOf, AfterReading, UnmarshalList, MarshalList, Wrap;
      var op := OnList(DeleteAt(index));
      ghost var call := LockedUpdate(key, op);
      Begin(LockedUpdate(key, op));
      var locked := Lock(key, call);
      if locked != Acquired {
        return Refused(locked);
      }
      var current := ReadLocked(key, op);
      match LoadList(current)
      case Missing =>
        Unlock(key, call, Failed(KeyNotFound));
        return Answer(Failed(KeyNotFound));
      case Broken(e) =>
        Unlock(key, call, Failed(e));
        return Answer(Failed(e));
      case Loaded(l) =>
        var lst := new ListBuffer(l.value, l.limit);
        var length := lst.value.Length;
        if length == 0 {
          Unlock(key, call, Failed(ListEmpty));
          return Answer(Failed(ListEmpty));
        }
        if index < 0 {
          Unlock(key, call, Failed(IndexOutOfRange));
          return Answer(Failed(IndexOutOfRange));
        }
        if Wrap(index - 1) > length {
          Unlock(key, call, Failed(IndexOutOfRange));
          return Answer(Failed(IndexOutOfRange));
        }
        if index + 1 > length {
          return Answer(Panicked);
        }
        lst.Remove(index);
        r := UnlockThenSetList(key, lst, op, current, Nothing);
    }

    /** ListDeleteItem. When the value is not in the list it returns without giving the lock back. */
    method ListDeleteItem(key: Bytes, item: Blob) returns (r: Result)
      requires Valid() && !IsLockName(key)
      modifies this
      ensures Finished(ListUpdateCall(key, DeleteItem(item)), r) && old(labels) <= labels
      ensures me !in old(state.calls)
      ensures WaitedFor(r, now - old(now))
    {
      hide At, Valid, Exec, Fresh, OutcomeOf, AfterReading, UnmarshalList, MarshalList;
      var op := OnList(DeleteItem(item));
      ghost var call := LockedUpdate(key, op);
      Begin(LockedUpdate(key, op));
      var locked := Lock(key, call);
      if locked != Acquired {
        return Refused(locked);
      }
      var current := ReadLocked(key, op);
      match LoadList(current)
      case Missing =>
        Unlock(key, call, Number(-1));
        return Answer(Number(-1));
      case Broken(e) =>
        Unlock(key, call, Failed(e));
        return Answer(Failed(e));
      case Loaded(l) =>
        var lst := new ListBuffer(l.value, l.limit);
        var found := lst.Find(item);
        if found == -1 {
          return Answer(Number(-1));
        }
        lst.Remove(found);
        r := UnlockThenSetList(key, lst, op, current, Number(found));
    }

    ghost predicate PopFinished(call: Call, r: Result, block: bool, timeout: Int64)
      reads this
    {
      match r
      case Answer(reply) => Answered(call, reply)
      case Waiting => script == [] && (Finished(call, Waiting) || (block && timeout <= 0 && At(Done(call, EMPTY_REPLY))))
    }

    /**
     ListPopLeft and ListPopRight. A blocking pop makes one attempt after another until one does not find the
     list empty; `attempts` lists them. With a timeout of T > 0 seconds it retries at most 100 * T times, and
     says the list is empty only after exactly that many retries.
     */
    method ListPop(key: Bytes, left: bool, block: bool, timeout: Int64) returns (r: Result, ghost attempts: seq<nat>)
      requires Valid() && !IsLockName(key)
      modifies this
      ensures PopFinished(PopCall(key, left), r, block, timeout) && old(labels) <= labels
      ensures attempts != [] && AllAt(state, attempts[..|attempts| - 1], Done(PopCall(key, left), EMPTY_REPLY))
      ensures !block ==> |attempts| == 1
      ensures timeout > 0 ==> |attempts| <= 1 + 100 * timeout
      ensures block && timeout > 0 && r == Answer(EMPTY_REPLY) ==> |attempts| == 1 + 100 * timeout
      ensures r == Answer(EMPTY_REPLY) ==> At(Done(PopCall(key, left), EMPTY_REPLY)) && attempts[|attempts| - 1] == me
      ensures r != Answer(Failed(KeyNotFound))
      ensures |script| <= |old(script)| && (old(script) != [] ==> |script| < |old(script)|)
      decreases block
    {
      hide At, Valid, Exec, Fresh, OutcomeOf, AfterReading, UnmarshalList, MarshalList, PopOutcome, StoreList, Decide, LoadList;
      var op := OnList(if left then PopLeft else PopRight);
      ghost var call := PopCall(key, left);
      Begin(LockedUpdate(key, op));
      attempts := [me];
      var locked := Lock(key, call);
      if locked != Acquired {
        return Refused(locked), attempts;
      }
      var current := ReadLocked(key, op);
      PopDecides(left, current);
      var lst := new ListBuffer([], 0);
      match LoadList(current) {
        case Missing =>
          if !block {
            Unlock(key, call, EMPTY_REPLY);
            return Answer(EMPTY_REPLY), attempts;
          }
        case Broken(e) =>
          Unlock(key, call, Failed(e));
          return Answer(Failed(e)), attempts;
        case Loaded(l) =>
          lst := new ListBuffer(l.value, l.limit);
      }
      var n := lst.value.Length;
      if n == 0 && block {
        Unlock(key, call, EMPTY_REPLY);
        r, attempts := RetryPop(key, left, timeout);
        return;
      } else if n == 0 {
        Unlock(key, call, EMPTY_REPLY);
        return Answer(EMPTY_REPLY), attempts;
      }
      var b := lst.TakeEnd(left);
      PopTakesAnEnd(lst.value[..], b, lst.limit, LoadList(current).value.key);
      r := UnlockThenSetList(key, lst, op, current, Item(b));
    }

    /** The waiting loop of a blocking pop: ten milliseconds between attempts that do not block themselves. */
    method RetryPop(key: Bytes, left: bool, timeout: Int64) returns (r: Result, ghost attempts: seq<nat>)
      requires At(Done(PopCall(key, left), EMPTY_REPLY)) && !IsLockName(key)
      modifies this
      ensures PopFinished(PopCall(key, left), r, true, timeout) && old(labels) <= labels
      ensures attempts != [] && AllAt(state, attempts[..|attempts| - 1], Done(PopCall(key, left), EMPTY_REPLY))
      ensures timeout > 0 ==> |attempts| <= 1 + 100 * timeout
      ensures timeout > 0 && r == Answer(EMPTY_REPLY) ==> |attempts| == 1 + 100 * timeout
      ensures r == Answer(EMPTY_REPLY) ==> At(Done(PopCall(key, left), EMPTY_REPLY)) && attempts[|attempts| - 1] == me
      ensures r != Answer(Failed(KeyNotFound)) && |script| <= |old(script)|
      decreases true, 0
    {
      hide Exec, Fresh;
      ghost var call := PopCall(key, left);
      attempts := [me];
      assert AllAt(state, [me], Done(call, EMPTY_REPLY));
      var waited := 0;
      while true
        invariant At(Done(call, EMPTY_REPLY)) && old(labels) <= labels && |script| <= |old(script)|
        invariant attempts != [] && AllAt(state, attempts, Done(call, EMPTY_REPLY)) && attempts[|attempts| - 1] == me
        invariant waited == 10 * (|attempts| - 1)
        invariant timeout > 0 ==> waited < timeout * 1000
        decreases if timeout > 0 then timeout * 1000 - waited else |script|
      {
        ghost var before := labels;
        ghost var tried: seq<nat>;
        r, tried := ListPop(key, left, false, timeout);
        AnsweredForGood(initial, before, labels, attempts, Done(call, EMPTY_REPLY));
        assert (attempts + tried)[..|attempts|] == attempts;
        attempts := attempts + tried;
        if r == Answer(Failed(KeyNotFound)) || r == Answer(EMPTY_REPLY) {
          Sleep(10);
          waited := waited + 10;
          if waited >= timeout * 1000 && timeout > 0 {
            return;
          }
          if timeout <= 0 && script == [] {
            r := Waiting;
            return;
          }
        } else {
          return;
        }
      }
    }

    method GetListItem(key: Bytes, index: Int64) returns (reply: Reply)
      requires Valid() && !IsLockName(key)
      modifies this
      ensures var current := Find(state.store, key);
              && At(Done(PlainGet(key), GetReply(current)))
              && match LoadList(current)
                 case Missing => reply == Failed(KeyNotFound)
                 case Broken(e) => reply == Failed(e)
                 case Loaded(l) => reply == GetItemReply(l, index)
    {
      hide Exec, Fresh, UnmarshalList, Wrap;
      var r, _ := Get(key, false, 0);
      if r.reply == Failed(KeyNotFound) {
        return Failed(KeyNotFound);
      }
      match UnmarshalList(r.reply.b)
      case Err(e) => return Failed(LoadFailure(e));
      case Ok(l) =>
        var length := |l.value|;
        if length == 0 {
          return Failed(ListEmpty);
        }
        var i: int := index;
        if Wrap(i - 1) > length {
          i := length - 1;
        }
        if i < 0 && Wrap(Wrap(i * -1) - 1) > length {
          i := 0;
        }
        if i < 0 {
          i := length + i;
        }
        if i < 0 || i >= length {
          return Panicked;
        }
        return Item(l.value[i]);
    }

    /** ListHas: where the value is first found in what the read saw, or -1. */
    method ListHas(key: Bytes, item: Blob) returns (reply: Reply)
      requires Valid() && !IsLockName(key)
      modifies this
      ensures var current := Find(state.store, key);
              && At(Done(PlainGet(key), GetReply(current)))
              && match LoadList(current)
                 case Missing => reply == Number(-1)
                 case Broken(e) => reply == Failed(e)
                 case Loaded(l) => reply == Number(IndexOf(l.value, item))
    {
      hide Exec, Fresh, UnmarshalList;
      var r, _ := Get(key, false, 0);
      if r.reply == Failed(KeyNotFound) {
        return Number(-1);
      }
      match UnmarshalList(r.reply.b)
      case Err(e) => return Failed(LoadFailure(e));
      case Ok(l) =>
        var lst := new ListBuffer(l.value, l.limit);
        var found := lst.Find(item);
        return Number(found);
    }

    // ---------- mydis/type_hash.go ----------

    method SetHashField(key: Bytes, field: Blob, value: Blob) returns (r: Result)
      requires Valid() && !IsLockName(key)
      modifies this
      ensures Finished(HashUpdateCall(key, SetField(field, value)), r) && old(labels) <= labels
      ensures me !in old(state.calls)
      ensures WaitedFor(r, now - old(now))
    {
      hide At, Valid, Exec, Fresh, OutcomeOf, AfterReading, UnmarshalHash;
      var op := OnHash(SetField(field, value));
      ghost var call := LockedUpdate(key, op);
      Begin(LockedUpdate(key, op));
      var locked := Lock(key, call);
      if locked != Acquired {
        return Refused(locked);
      }
      var current := ReadLocked(key, op);
      var h: map<Blob, Blob> := map[];
      match LoadHash(current) {
        case Missing =>
        case Broken(e) =>
          Unlock(key, call, Failed(e));
          return Answer(Failed(e));
        case Loaded(m) =>
          h := m.value;
          if h == map[] { // decoded as a nil map
            return Answer(Panicked);
          }
      }
      h := h[field := value];
      r := UnlockThenSetHash(key, h, op, current);
    }

    method SetHashFields(key: Bytes, fields: map<Blob, Blob>) returns (r: Result)
      requires Valid() && !IsLockName(key)
      modifies this
      ensures Finished(HashUpdateCall(key, SetFields(fields)), r) && old(labels) <= labels
      ensures me !in old(state.calls)
      ensures WaitedFor(r, now - old(now))
    {
      hide At, Valid, Exec, Fresh, OutcomeOf, AfterReading, UnmarshalHash;
      var op := OnHash(SetFields(fields));
      ghost var call := LockedUpdate(key, op);
      Begin(LockedUpdate(key, op));
      var locked := Lock(key, call);
      if locked != Acquired {
        return Refused(locked);
      }
      var current := ReadLocked(key, op);
      var h: map<Blob, Blob> := map[];
      match LoadHash(current) {
        case Missing =>
        case Broken(e) =>
          Unlock(key, call, Failed(e));
          return Answer(Failed(e));
        case Loaded(m) =>
          h := m.value;
          if h == map[] && fields != map[] { // the loop's first write goes to a nil map
            return Answer(Panicked);
          }
      }
      h := MergeFields(h, fields);
      assert map[] + fields == fields;
      r := UnlockThenSetHash(key, h, op, current);
    }

    method DelHashField(key: Bytes, field: Blob) returns (r: Result)
      requires Valid() && !IsLockName(key)
      modifies this
      ensures Finished(HashUpdateCall(key, DeleteField(field)), r) && old(labels) <= labels
      ensures me !in old(state.calls)
      ensures WaitedFor(r, now - old(now))
    {
      hide At, Valid, Exec, Fresh, OutcomeOf, AfterReading, UnmarshalHash;
      var op := OnHash(DeleteField(field));
      ghost var call := LockedUpdate(key, op);
      Begin(LockedUpdate(key, op));
      var locked := Lock(key, call);
      if locked != Acquired {
        return Refused(locked);
      }
      var current := ReadLocked(key, op);
      match LoadHash(current)
      case Missing =>
        Unlock(key, call, Failed(KeyNotFound));
        return Answer(Failed(KeyNotFound));
      case Broken(e) =>
        Unlock(key, call, Failed(e));
        return Answer(Failed(e));
      case Loaded(m) =>
        r := UnlockThenSetHash(key, m.value - {field}, op, current);
    }
  }

  lemma NothingYet(data: Store, labels: seq<Label>, id: nat)
    ensures WroteNothing(data, labels, |labels|, id)
  {
  }
}
