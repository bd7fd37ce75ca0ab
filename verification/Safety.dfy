/** What every step of the protocol keeps, and what follows for every run. */
module Safety {
  import opened Bytes
  import opened Keys
  import opened Etcd
  import opened Messages
  import opened Operations
  import opened Protocol

  // ---------- the invariant ----------

  predicate Staged(st: Stage) {
    match st
    case AtGuard(call) => call.PlainSet? || call.PlainDelete?
    case AtGet(call) => call.PlainGet?
    case Done(_, _) => true
    case AtUnlock(call, _) => call.LockedUpdate? || call.Session?
    case Leaked(call, _) => call.LockedUpdate? || call.Session?
    case AtCommit(call, _) => call.LockedUpdate? || call.Session?
    case AtRead(call) => call.LockedUpdate? || call.Session?
    case AtLock(call) => call.LockedUpdate? || call.Session?
  }

  predicate HasReplied(st: Stage) {
    st.AtUnlock? || st.Done? || st.Leaked?
  }

  ghost predicate WellFormed(s: State) {
    forall id :: id in s.calls ==> Staged(s.calls[id]) && !IsLockName(s.calls[id].call.key)
  }

  ghost predicate HoldersLocked(s: State) {
    forall id :: id in s.calls && Holds(s.calls[id]) ==> Locked(s.store, s.calls[id].call.key)
  }

  ghost predicate OneHolder(s: State) {
    forall i, j :: i in s.calls && j in s.calls && Holds(s.calls[i]) && Holds(s.calls[j]) && i != j ==>
      s.calls[i].call.key != s.calls[j].call.key
  }

  ghost predicate HeldBy(s: State, id: nat, lock: Bytes) {
    id in s.calls && Holds(s.calls[id]) && LockName(s.calls[id].call.key) == lock
  }

  ghost predicate LocksOwned(s: State) {
    forall k :: k in s.store && IsLockName(k) ==> exists id :: HeldBy(s, id, k)
  }

  ghost predicate ReadsCurrent(s: State) {
    forall id :: id in s.calls && s.calls[id].AtCommit? ==> s.calls[id].seen == Find(s.store, s.calls[id].call.key)
  }

  ghost predicate EventsKnown(s: State) {
    forall i :: 0 <= i < |s.log| ==>
      s.log[i].id in s.calls && HasReplied(s.calls[s.log[i].id]) &&
      s.calls[s.log[i].id].call == s.log[i].call && s.calls[s.log[i].id].reply == s.log[i].reply
  }

  ghost predicate EventsOnce(s: State) {
    forall i, j :: 0 <= i < j < |s.log| ==> s.log[i].id != s.log[j].id
  }

  ghost predicate RepliesLogged(s: State) {
    forall id :: id in s.calls && HasReplied(s.calls[id]) ==> exists i :: 0 <= i < |s.log| && s.log[i].id == id
  }

  ghost predicate Linear(d: Store, s: State) {
    Data(s.store) == Replay(d, s.log) && Legal(d, s.log)
  }

  ghost predicate Inv(d: Store, s: State) {
    && SentinelClear(s.store)
    && WellFormed(s)
    && HoldersLocked(s)
    && OneHolder(s)
    && LocksOwned(s)
    && ReadsCurrent(s)
    && EventsKnown(s)
    && EventsOnce(s)
    && RepliesLogged(s)
    && Linear(d, s)
  }

  // ---------- the five kinds of move ----------

  ghost predicate Acquires(st: Stage, s: Store, m: Move) {
    m.Move? && st.AtLock? && m.stage == AtRead(st.call) && !Locked(s, st.call.key) &&
    m.store == s[LockName(st.call.key) := ZERO_BYTE] && m.effect == NoEffect
  }

  /** Nothing stored; a reply may be settled. */
  ghost predicate Looks(st: Stage, s: Store, m: Move) {
    && m.Move? && m.store == s && Holds(st) == Holds(m.stage)
    && (m.effect == NoEffect ==> HasReplied(st) == HasReplied(m.stage) && (HasReplied(st) ==> st.reply == m.stage.reply))
    && (m.effect.Settled? ==>
          !HasReplied(st) && HasReplied(m.stage) && m.stage.reply == m.effect.reply && m.effect.wrote == None)
    && (m.stage.AtCommit? ==> m.stage.seen == Find(s, st.call.key) || m.stage == st)
  }

  ghost predicate Commits(st: Stage, s: Store, m: Move) {
    m.Move? && st.AtCommit? && m.effect.Settled? && m.effect.wrote.Some? && ValidKey(st.call.key) &&
    m.stage == Done(st.call, m.effect.reply) &&
    m.store == (s - {LockName(st.call.key)})[st.call.key := m.effect.wrote.value]
  }

  ghost predicate Unlocks(st: Stage, s: Store, m: Move) {
    m.Move? && st.AtUnlock? && m.effect == NoEffect && m.stage == Done(st.call, st.reply) &&
    m.store == s - {LockName(st.call.key)}
  }

  ghost predicate WritesFree(st: Stage, s: Store, m: Move) {
    m.Move? && st.AtGuard? && !Locked(s, st.call.key) && m.stage == Done(st.call, Nothing) &&
    if st.call.PlainSet? then
      ValidKey(st.call.key) && m.effect == Settled(Nothing, Some(st.call.value)) && m.store == s[st.call.key := st.call.value]
    else
      st.call.PlainDelete? && m.effect == Settled(Nothing, None) && m.store == s - {st.call.key}
  }

  ghost predicate Proper(st: Stage, s: Store, m: Move) {
    Acquires(st, s, m) || Looks(st, s, m) || Commits(st, s, m) || Unlocks(st, s, m) || WritesFree(st, s, m)
  }

  lemma LockTurn(call: Call, s: Store, timeUp: bool)
    ensures Proper(AtLock(call), s, TryLock(call, s, timeUp))
    ensures var st := TryLock(call, s, timeUp).stage; st == AtRead(call) || st == AtLock(call) || st == Done(call, Failed(KeyLocked))
  {
    hide Apply, Succeeds;
    TxnEffects(s, call.key, []);
  }

  lemma GuardTurn(call: Call, s: Store, timeUp: bool)
    requires call.PlainSet? || call.PlainDelete?
    ensures Proper(AtGuard(call), s, TryGuarded(call, s, timeUp))
    ensures var st := TryGuarded(call, s, timeUp).stage; st == AtGuard(call) || (st.Done? && st.call == call)
  {
    hide Apply, Succeeds;
    TxnEffects(s, call.key, if call.PlainSet? then call.value else []);
  }

  /** With no lock of a lock around, Unlock goes through at its first attempt. */
  lemma UnlockTurn(call: Call, reply: Reply, s: Store, timeUp: bool)
    requires LockName(LockName(call.key)) !in s
    ensures TryUnlock(call, reply, s, timeUp) == Move(Done(call, reply), s - {LockName(call.key)}, NoEffect)
  {
    hide Apply, Succeeds;
    TxnEffects(s, LockName(call.key), []);
  }

  lemma CommitTurn(call: Call, seen: Option<Bytes>, s: Store, b: Bytes, how: HashLayout)
    requires SentinelClear(s) && CommitMove(call, seen, s, b, how).Move?
    ensures Commits(AtCommit(call, seen), s, CommitMove(call, seen, s, b, how))
  {
    hide Apply, OutcomeOf, Encoded;
    TxnEffects(s, call.key, b);
    if call.LockedUpdate? {
      CommitsOnlyValidKeys(call.key, call.op, seen);
    }
  }

  lemma ReadTurn(call: Call, s: Store)
    ensures Looks(AtRead(call), s, AfterRead(call, s))
    ensures var st := AfterRead(call, s).stage; Holds(st) && st.call == call && !st.AtRead?
  {
    hide OutcomeOf;
  }

  lemma MoveKinds(st: Stage, s: Store, act: Act)
    requires Staged(st) && SentinelClear(s) && LockName(LockName(st.call.key)) !in s
    requires MoveOf(st, s, act).Move?
    ensures var m := MoveOf(st, s, act);
            Proper(st, s, m) && m.stage.call == st.call && Staged(m.stage)
  {
    hide TryLock, TryGuarded, TryUnlock, CommitMove, AfterRead, Commits, Acquires, WritesFree;
    match st
    case AtLock(call) => LockTurn(call, s, act.timeUp);
    case AtGuard(call) => GuardTurn(call, s, act.timeUp);
    case AtUnlock(call, reply) => UnlockTurn(call, reply, s, act.timeUp);
    case AtRead(call) => ReadTurn(call, s);
    case AtCommit(call, seen) =>
      if act.Store? {
        CommitTurn(call, seen, s, act.b, act.how);
        CommitDone(call, seen, s, act.b, act.how);
      }
    case _ =>
  }

  lemma CommitDone(call: Call, seen: Option<Bytes>, s: Store, b: Bytes, how: HashLayout)
    requires CommitMove(call, seen, s, b, how).Move?
    ensures CommitMove(call, seen, s, b, how).stage == Done(call, ReplyAfter(call, seen))
  {
    hide Apply, OutcomeOf, Encoded;
  }

  // ---------- each part of the invariant is kept ----------

  /** A call's move, seen from the system. */
  ghost predicate Moves(s: State, id: nat, m: Move, s': State) {
    id in s.calls && m.Move? && Proper(s.calls[id], s.store, m) &&
    m.stage.call == s.calls[id].call && Staged(m.stage) && s' == AfterMove(s, id, m)
  }

  lemma NoLockOfALock(s: State, key: Bytes)
    requires WellFormed(s) && LocksOwned(s)
    ensures LockName(LockName(key)) !in s.store
  {
    var lock := LockName(LockName(key));
    LockNameInjective(LockName(key), key);
    forall id ensures !HeldBy(s, id, lock) {
      LockNameInjective(key, key);
      if id in s.calls {
        LockNameInjective(s.calls[id].call.key, LockName(key));
      }
    }
  }

  lemma KeepSentinel(s: State, id: nat, m: Move, s': State)
    requires Moves(s, id, m, s') && WellFormed(s) && SentinelClear(s.store)
    ensures SentinelClear(s'.store)
  {
    LockNameInjective(m.stage.call.key, m.stage.call.key);
  }

  lemma KeepWellFormed(s: State, id: nat, m: Move, s': State)
    requires Moves(s, id, m, s') && WellFormed(s)
    ensures WellFormed(s')
  {
    hide Proper;
  }

  /** A call that takes the lock finds it free, so nobody held it. */
  lemma KeepOneHolder(s: State, id: nat, m: Move, s': State)
    requires Moves(s, id, m, s') && HoldersLocked(s) && OneHolder(s)
    ensures OneHolder(s')
  {
    forall i, j | i in s'.calls && j in s'.calls && Holds(s'.calls[i]) && Holds(s'.calls[j]) && i != j
      ensures s'.calls[i].call.key != s'.calls[j].call.key
    {
    }
  }

  lemma KeepHoldersLocked(s: State, id: nat, m: Move, s': State)
    requires Moves(s, id, m, s') && WellFormed(s) && HoldersLocked(s) && OneHolder(s)
    ensures HoldersLocked(s')
  {
    var key := m.stage.call.key;
    forall i | i in s'.calls && Holds(s'.calls[i]) ensures Locked(s'.store, s'.calls[i].call.key) {
      var other := s'.calls[i].call.key;
      LockNameInjective(other, key);
      if i != id {
        assert Locked(s.store, other);
        assert WellFormed(s) && !IsLockName(key);
      }
    }
  }

  lemma KeepLocksOwned(s: State, id: nat, m: Move, s': State)
    requires Moves(s, id, m, s') && WellFormed(s) && LocksOwned(s)
    ensures LocksOwned(s')
  {
    var key := m.stage.call.key;
    forall k | k in s'.store && IsLockName(k) ensures exists i :: HeldBy(s', i, k) {
      if k == LockName(key) && Holds(m.stage) {
        assert HeldBy(s', id, k);
      } else {
        assert k in s.store;
        var i :| HeldBy(s, i, k);
        assert i != id;
        assert HeldBy(s', i, k);
      }
    }
  }

  lemma KeepReadsCurrent(s: State, id: nat, m: Move, s': State)
    requires Moves(s, id, m, s') && WellFormed(s) && HoldersLocked(s) && OneHolder(s) && ReadsCurrent(s)
    ensures ReadsCurrent(s')
  {
    var key := m.stage.call.key;
    forall i | i in s'.calls && s'.calls[i].AtCommit?
      ensures s'.calls[i].seen == Find(s'.store, s'.calls[i].call.key)
    {
      var other := s'.calls[i].call.key;
      LockNameInjective(key, other);
      if i != id {
        assert s.calls[i].seen == Find(s.store, other);
        assert !IsLockName(other);
      }
    }
  }

  lemma KeepEventsKnown(s: State, id: nat, m: Move, s': State)
    requires Moves(s, id, m, s') && EventsKnown(s)
    ensures EventsKnown(s')
  {
  }

  lemma KeepEventsOnce(s: State, id: nat, m: Move, s': State)
    requires Moves(s, id, m, s') && EventsKnown(s) && EventsOnce(s)
    ensures EventsOnce(s')
  {
  }

  lemma KeepRepliesLogged(s: State, id: nat, m: Move, s': State)
    requires Moves(s, id, m, s') && RepliesLogged(s)
    ensures RepliesLogged(s')
  {
    forall i | i in s'.calls && HasReplied(s'.calls[i])
      ensures exists k :: 0 <= k < |s'.log| && s'.log[k].id == i
    {
      if i == id && m.effect.Settled? {
        assert s'.log[|s.log|].id == id;
      } else {
        var k :| 0 <= k < |s.log| && s.log[k].id == i;
        assert s'.log[k].id == i;
      }
    }
  }

  // ---------- each effect is what the atomic operation does ----------

  lemma DataOfStore(s: Store, key: Bytes, b: Bytes)
    requires !IsLockName(key)
    ensures Find(Data(s), key) == Find(s, key)
    ensures Data(s[key := b]) == Data(s)[key := b]
    ensures Data(s - {key}) == Data(s) - {key}
    ensures Data(s[LockName(key) := b]) == Data(s)
    ensures Data(s - {LockName(key)}) == Data(s)
    ensures Data((s - {LockName(key)})[key := b]) == Data(s)[key := b]
  {
    LockNameInjective(key, key);
    assert Data(s[LockName(key) := b]) == Data(s);
    assert Data(s - {LockName(key)}) == Data(s);
  }

  ghost predicate EffectIsAtomic(s: Store, id: nat, m: Move) {
    m.Move? &&
    match m.effect
    case NoEffect => Data(m.store) == Data(s)
    case Settled(reply, wrote) =>
      var e := Event(id, m.stage.call, reply, wrote);
      Atomic(Data(s), e) && Data(m.store) == Changed(Data(s), e)
  }

  lemma ReadIsAtomic(call: Call, s: Store, id: nat)
    requires (call.LockedUpdate? || call.Session?) && !IsLockName(call.key)
    ensures EffectIsAtomic(s, id, AfterRead(call, s))
  {
    hide OutcomeOf, StoredAs, Data, IsLockName;
    DataOfStore(s, call.key, []);
    if call.LockedUpdate? {
      DecisionsNeverSayLocked(call.key, call.op, Find(s, call.key));
    }
  }

  lemma CommitIsAtomic(call: Call, s: Store, id: nat, b: Bytes, how: HashLayout)
    requires (call.LockedUpdate? || call.Session?) && !IsLockName(call.key) && SentinelClear(s)
    requires CommitMove(call, Find(s, call.key), s, b, how).Move?
    ensures EffectIsAtomic(s, id, CommitMove(call, Find(s, call.key), s, b, how))
  {
    hide OutcomeOf, StoredAs, Apply, Encoded, Data, LockName, IsLockName;
    TxnEffects(s, call.key, b);
    DataOfStore(s, call.key, b);
    if call.LockedUpdate? {
      EncodedIsStored(OutcomeOf(call.key, call.op, Find(s, call.key)).stored, how, b);
      CommitsOnlyValidKeys(call.key, call.op, Find(s, call.key));
      DecisionsNeverSayLocked(call.key, call.op, Find(s, call.key));
    }
  }

  lemma GuardIsAtomic(call: Call, s: Store, id: nat, timeUp: bool)
    requires (call.PlainSet? || call.PlainDelete?) && !IsLockName(call.key)
    ensures EffectIsAtomic(s, id, TryGuarded(call, s, timeUp))
  {
    hide Apply, Succeeds, OutcomeOf, StoredAs, Data, LockName, IsLockName, ValidKey;
    TxnEffects(s, call.key, if call.PlainSet? then call.value else []);
    DataOfStore(s, call.key, if call.PlainSet? then call.value else []);
  }

  lemma LockIsAtomic(call: Call, s: Store, id: nat, timeUp: bool)
    requires (call.LockedUpdate? || call.Session?) && !IsLockName(call.key)
    ensures EffectIsAtomic(s, id, TryLock(call, s, timeUp))
  {
    hide Apply, Succeeds, OutcomeOf, StoredAs, Data, LockName, IsLockName, ValidKey;
    TxnEffects(s, call.key, []);
    DataOfStore(s, call.key, ZERO_BYTE);
  }

  lemma MoveIsAtomic(st: Stage, s: Store, act: Act, id: nat)
    requires Staged(st) && !IsLockName(st.call.key) && SentinelClear(s) && LockName(LockName(st.call.key)) !in s
    requires st.AtCommit? ==> st.seen == Find(s, st.call.key)
    requires MoveOf(st, s, act).Move?
    ensures EffectIsAtomic(s, id, MoveOf(st, s, act))
  {
    hide TryLock, TryGuarded, TryUnlock, CommitMove, AfterRead, OutcomeOf, StoredAs;
    DataOfStore(s, st.call.key, []);
    match st
    case AtLock(call) => LockIsAtomic(call, s, id, act.timeUp);
    case AtGuard(call) => GuardIsAtomic(call, s, id, act.timeUp);
    case AtUnlock(call, reply) => UnlockTurn(call, reply, s, act.timeUp);
    case AtRead(call) => ReadIsAtomic(call, s, id);
    case AtCommit(call, seen) =>
      if act.Store? {
        CommitIsAtomic(call, s, id, act.b, act.how);
      }
    case _ =>
  }

  lemma KeepLinear(d: Store, s: State, id: nat, m: Move, s': State)
    requires Moves(s, id, m, s') && Linear(d, s) && EffectIsAtomic(s.store, id, m)
    ensures Linear(d, s')
  {
    hide Atomic, Proper, Data, Changed;
    if m.effect.Settled? {
      var e := Event(id, m.stage.call, m.effect.reply, m.effect.wrote);
      assert s'.log[..|s'.log| - 1] == s.log && s'.log[|s'.log| - 1] == e;
    }
  }

  // ---------- every run ----------

  lemma MovesProperly(d: Store, s: State, id: nat, act: Act)
    requires Inv(d, s) && id in s.calls && MoveOf(s.calls[id], s.store, act).Move?
    ensures var m := MoveOf(s.calls[id], s.store, act);
            Moves(s, id, m, Step(s, Run(id, act))) && EffectIsAtomic(s.store, id, m)
  {
    hide MoveOf, Proper, EffectIsAtomic;
    var st := s.calls[id];
    NoLockOfALock(s, st.call.key);
    MoveKinds(st, s.store, act);
    MoveIsAtomic(st, s.store, act, id);
  }

  lemma StepKeepsInv(d: Store, s: State, l: Label)
    requires Inv(d, s)
    ensures Inv(d, Step(s, l))
  {
    if l.Run? && l.id in s.calls && MoveOf(s.calls[l.id], s.store, l.act).Move? {
      var id, m, s' := l.id, MoveOf(s.calls[l.id], s.store, l.act), Step(s, l);
      MovesProperly(d, s, id, l.act);
      hide MoveOf, Step, Moves, EffectIsAtomic;
      KeepAll(d, s, id, m, s');
    } else {
      hide MoveOf;
      InvokeKeepsInv(d, s, l);
    }
  }

  lemma KeepAll(d: Store, s: State, id: nat, m: Move, s': State)
    requires Inv(d, s) && Moves(s, id, m, s') && EffectIsAtomic(s.store, id, m)
    ensures Inv(d, s')
  {
    hide Moves, EffectIsAtomic, WellFormed, HoldersLocked, OneHolder, LocksOwned, ReadsCurrent, EventsKnown,
         EventsOnce, RepliesLogged, Linear;
    KeepSentinel(s, id, m, s');
    KeepWellFormed(s, id, m, s');
    KeepOneHolder(s, id, m, s');
    KeepHoldersLocked(s, id, m, s');
    KeepLocksOwned(s, id, m, s');
    KeepReadsCurrent(s, id, m, s');
    KeepEventsKnown(s, id, m, s');
    KeepEventsOnce(s, id, m, s');
    KeepRepliesLogged(s, id, m, s');
    KeepLinear(d, s, id, m, s');
  }

  /** `s'` is `s` with one more call, which has not run yet. */
  ghost predicate Joins(s: State, id: nat, call: Call, s': State) {
    id !in s.calls && !IsLockName(call.key) && s' == s.(calls := s.calls[id := Entry(call)])
  }

  lemma JoinKeepsLocks(s: State, id: nat, call: Call, s': State)
    requires Joins(s, id, call, s') && HoldersLocked(s) && OneHolder(s) && LocksOwned(s)
    ensures HoldersLocked(s') && OneHolder(s') && LocksOwned(s')
  {
    forall k | k in s'.store && IsLockName(k) ensures exists i :: HeldBy(s', i, k) {
      var i :| HeldBy(s, i, k);
      assert HeldBy(s', i, k);
    }
  }

  lemma JoinKeepsEvents(s: State, id: nat, call: Call, s': State)
    requires Joins(s, id, call, s') && EventsKnown(s) && EventsOnce(s) && RepliesLogged(s)
    ensures EventsKnown(s') && EventsOnce(s') && RepliesLogged(s')
  {
  }

  lemma InvokeKeepsInv(d: Store, s: State, l: Label)
    requires Inv(d, s)
    requires l.Run? ==> Step(s, l) == s
    ensures Inv(d, Step(s, l))
  {
    hide MoveOf, HoldersLocked, OneHolder, LocksOwned, EventsKnown, EventsOnce, RepliesLogged, Data, Replay, Legal;
    var s' := Step(s, l);
    if s' != s {
      JoinKeepsLocks(s, l.id, l.call, s');
      JoinKeepsEvents(s, l.id, l.call, s');
    }
  }

  lemma StartInv(d: Store)
    requires Fresh(d)
    ensures Inv(d, Start(d))
  {
    assert Data(d) == d;
  }

  /** Everything in the invariant holds in every state of every run. */
  lemma {:induction false} RunKeepsInv(d: Store, labels: seq<Label>)
    requires Fresh(d)
    ensures Inv(d, Exec(Start(d), labels))
    decreases |labels|
  {
    hide Inv, Step;
    if labels == [] {
      StartInv(d);
    } else {
      RunKeepsInv(d, labels[..|labels| - 1]);
      StepKeepsInv(d, Exec(Start(d), labels[..|labels| - 1]), labels[|labels| - 1]);
    }
  }
}
