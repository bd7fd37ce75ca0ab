/** The guarantees of the lock protocol, for every run of any number of calls. */
module Theorems {
  import opened Bytes
  import opened Keys
  import opened Etcd
  import opened Operations
  import opened Protocol
  import opened Safety

  // ---------- mutual exclusion ----------

  /** At most one call per key is between its lock and its release, and then the lock entry is there. */
  lemma MutualExclusion(d: Store, labels: seq<Label>, i: nat, j: nat)
    requires Fresh(d)
    requires var s := Exec(Start(d), labels);
             i in s.calls && j in s.calls && Holds(s.calls[i]) && Holds(s.calls[j])
    ensures var s := Exec(Start(d), labels);
            Locked(s.store, s.calls[i].call.key) && (s.calls[i].call.key == s.calls[j].call.key ==> i == j)
  {
    hide Exec, Linear;
    RunKeepsInv(d, labels);
  }

  /** A data key's lock entry is in the store exactly while some call holds the key, and it is always [0]. */
  lemma LockEntryExactly(d: Store, labels: seq<Label>, key: Bytes)
    requires Fresh(d) && !IsLockName(key)
    ensures var s := Exec(Start(d), labels);
            && (LockName(key) in s.store <==> Locked(s.store, key))
            && (Locked(s.store, key) <==> exists id :: HeldBy(s, id, LockName(key)))
  {
    hide Exec, Linear;
    RunKeepsInv(d, labels);
    var s := Exec(Start(d), labels);
    LockNameInjective(key, key);
    if LockName(key) in s.store {
      var id :| HeldBy(s, id, LockName(key));
      LockNameInjective(key, s.calls[id].call.key);
    }
    forall id | HeldBy(s, id, LockName(key)) ensures Locked(s.store, key) {
      LockNameInjective(key, s.calls[id].call.key);
    }
  }

  /** Data keys and lock keys never mix: nothing but data and locks of data is ever stored. */
  lemma NamespacesApart(d: Store, labels: seq<Label>, k: Bytes)
    requires Fresh(d) && k in Exec(Start(d), labels).store
    ensures !IsLockName(k) || exists base: Bytes :: !IsLockName(base) && k == LockName(base)
  {
    hide Exec, Linear;
    RunKeepsInv(d, labels);
    var s := Exec(Start(d), labels);
    if IsLockName(k) {
      var id :| HeldBy(s, id, k);
      assert k == LockName(s.calls[id].call.key);
    }
  }

  /** Unlock never has to retry. */
  lemma UnlockAtFirstTry(d: Store, labels: seq<Label>, id: nat, timeUp: bool)
    requires Fresh(d)
    requires var s := Exec(Start(d), labels); id in s.calls && s.calls[id].AtUnlock?
    ensures var s := Exec(Start(d), labels); var s' := Step(s, Run(id, Try(timeUp)));
            var st := s.calls[id];
            s'.calls[id] == Done(st.call, st.reply) && s'.store == s.store - {LockName(st.call.key)}
  {
    hide Exec, Linear;
    RunKeepsInv(d, labels);
    var s := Exec(Start(d), labels);
    NoLockOfALock(s, s.calls[id].call.key);
    UnlockTurn(s.calls[id].call, s.calls[id].reply, s.store, timeUp);
  }

  /** ErrKeyLocked is only answered while another call holds the key, and then nothing was written. */
  lemma KeyLockedOnlyWhenHeld(d: Store, labels: seq<Label>, id: nat, act: Act)
    requires Fresh(d)
    requires var s := Exec(Start(d), labels); var s' := Step(s, Run(id, act));
             id in s.calls && !HasReplied(s.calls[id]) &&
             HasReplied(s'.calls[id]) && s'.calls[id].reply == Failed(KeyLocked)
    ensures var s := Exec(Start(d), labels); var s' := Step(s, Run(id, act));
            s'.store == s.store && exists other :: other != id && HeldBy(s, other, LockName(s.calls[id].call.key))
  {
    hide IsLockName, ValidKey, Exec, Linear, OutcomeOf, StoredAs, Encoded, Apply, Succeeds;
    RunKeepsInv(d, labels);
    var s := Exec(Start(d), labels);
    var st := s.calls[id];
    var key := st.call.key;
    LockEntryExactly(d, labels, key);
    TxnEffects(s.store, key, if st.call.PlainSet? then st.call.value else []);
    if st.call.LockedUpdate? {
      DecisionsNeverSayLocked(key, st.call.op, Find(s.store, key));
    }
    assert Locked(s.store, key);
    var other :| HeldBy(s, other, LockName(key));
  }

  /**
   Exclusion rests on holders alone unlocking: the lock entry carries no owner. Whenever a call waits for a key
   that another holds, an Unlock from anybody else lets it in while the holder still thinks it holds.
   */
  lemma ForeignUnlockBreaksExclusion(d: Store, labels: seq<Label>, i: nat, j: nat)
    requires Fresh(d)
    requires var s := Exec(Start(d), labels);
             i in s.calls && j in s.calls && Holds(s.calls[i]) && s.calls[j].AtLock? &&
             s.calls[i].call.key == s.calls[j].call.key
    ensures var s := Exec(Start(d), labels);
            var robbed := s.(store := Apply(s.store, DeleteTxn(LockName(s.calls[i].call.key))));
            var s' := Step(robbed, Run(j, Try(false)));
            i != j && s'.calls[i] == s.calls[i] && Holds(s'.calls[j])
  {
    hide Exec, Linear, Apply, Succeeds;
    RunKeepsInv(d, labels);
    var s := Exec(Start(d), labels);
    var key := s.calls[i].call.key;
    NoLockOfALock(s, key);
    TxnEffects(s.store, LockName(key), []);
    TxnEffects(s.store - {LockName(key)}, key, []);
  }

  // ---------- no interference ----------

  /** One step of anybody else leaves a held key, and the hold on it, as they are. */
  lemma OthersLeaveHeldKey(d: Store, s: State, l: Label, id: nat)
    requires Inv(d, s) && id in s.calls && Holds(s.calls[id]) && l.id != id
    ensures var s' := Step(s, l); var key := s.calls[id].call.key;
            id in s'.calls && s'.calls[id] == s.calls[id] &&
            Find(s'.store, key) == Find(s.store, key) && Locked(s'.store, key)
  {
    hide MoveOf, Linear, EffectIsAtomic;
    var key := s.calls[id].call.key;
    if l.Run? && l.id in s.calls && MoveOf(s.calls[l.id], s.store, l.act).Move? {
      MovesProperly(d, s, l.id, l.act);
      LockNameInjective(key, s.calls[l.id].call.key);
    }
  }

  /** The holder's own steps leave the key alone too, up to the one that commits. */
  lemma HolderLeavesKey(d: Store, s: State, l: Label, id: nat)
    requires Inv(d, s) && id in s.calls && Holds(s.calls[id])
    requires Holds(Step(s, l).calls[id])
    ensures Find(Step(s, l).store, s.calls[id].call.key) == Find(s.store, s.calls[id].call.key)
    ensures Step(s, l).calls[id].call == s.calls[id].call
  {
    hide MoveOf, Linear, EffectIsAtomic;
    if l.id != id {
      OthersLeaveHeldKey(d, s, l, id);
    } else if l.Run? && MoveOf(s.calls[l.id], s.store, l.act).Move? {
      MovesProperly(d, s, l.id, l.act);
    }
  }

  /** 0 before the lock, 1 while it is held, 2 after: a call goes through them in order. */
  function Phase(st: Stage): nat {
    if Holds(st) then 1 else if st.Done? then 2 else 0
  }

  lemma PhaseGrows(d: Store, s: State, l: Label, id: nat)
    requires Inv(d, s) && id in s.calls
    ensures id in Step(s, l).calls && Phase(s.calls[id]) <= Phase(Step(s, l).calls[id])
  {
    hide MoveOf, Linear, EffectIsAtomic;
    if l.Run? && l.id == id && MoveOf(s.calls[id], s.store, l.act).Move? {
      MovesProperly(d, s, id, l.act);
    }
  }

  /**
   Whatever runs in between: while a call holds a key, from any state after its lock transaction to any
   state before its release, the stored value is the same.
   */
  lemma {:induction false} NoInterference(d: Store, before: seq<Label>, during: seq<Label>, id: nat)
    requires Fresh(d)
    requires var s := Exec(Start(d), before); id in s.calls && Holds(s.calls[id])
    requires var s' := Exec(Exec(Start(d), before), during); id in s'.calls && Holds(s'.calls[id])
    ensures var s := Exec(Start(d), before); var s' := Exec(s, during);
            s'.calls[id].call == s.calls[id].call &&
            Find(s'.store, s.calls[id].call.key) == Find(s.store, s.calls[id].call.key)
    decreases |during|
  {
    hide Step, Inv;
    if during != [] {
      var n := |during| - 1;
      var s := Exec(Start(d), before);
      var mid := Exec(s, during[..n]);
      ExecAppend(Start(d), before, during[..n]);
      RunKeepsInv(d, before + during[..n]);
      PhaseGrowsOverRun(d, before, during[..n], id);
      PhaseGrows(d, mid, during[n], id);
      NoInterference(d, before, during[..n], id);
      HolderLeavesKey(d, mid, during[n], id);
    }
  }

  lemma {:induction false} PhaseGrowsOverRun(d: Store, before: seq<Label>, during: seq<Label>, id: nat)
    requires Fresh(d) && id in Exec(Start(d), before).calls
    ensures var s := Exec(Start(d), before); var s' := Exec(s, during);
            id in s'.calls && Phase(s.calls[id]) <= Phase(s'.calls[id])
    decreases |during|
  {
    hide Step, Inv;
    if during != [] {
      var n := |during| - 1;
      PhaseGrowsOverRun(d, before, during[..n], id);
      ExecAppend(Start(d), before, during[..n]);
      RunKeepsInv(d, before + during[..n]);
      PhaseGrows(d, Exec(Exec(Start(d), before), during[..n]), during[n], id);
    }
  }

  // ---------- atomicity ----------

  /**
   Each step of the system is a step of the atomic server: it changes no data and settles nothing,
   or settles one call exactly as the one-step version of that call would.
   */
  lemma StepIsAtomicOrSilent(d: Store, labels: seq<Label>, l: Label)
    requires Fresh(d)
    ensures var s := Exec(Start(d), labels); var s' := Step(s, l);
            || (s'.log == s.log && Data(s'.store) == Data(s.store))
            || exists e :: s'.log == s.log + [e] && e.id == l.id && e.id in s.calls &&
                           s.calls[e.id].call == e.call && !HasReplied(s.calls[e.id]) &&
                           Atomic(Data(s.store), e) && Data(s'.store) == Changed(Data(s.store), e)
  {
    hide MoveOf, Exec, Data, Atomic, Changed, Linear;
    RunKeepsInv(d, labels);
    var s := Exec(Start(d), labels);
    if l.Run? && l.id in s.calls && MoveOf(s.calls[l.id], s.store, l.act).Move? {
      var m := MoveOf(s.calls[l.id], s.store, l.act);
      MovesProperly(d, s, l.id, l.act);
      if m.effect.Settled? {
        var e := Event(l.id, m.stage.call, m.effect.reply, m.effect.wrote);
        assert Step(s, l).log == s.log + [e];
        SettlesOnce(s, l.id, m, Step(s, l));
      }
    }
  }

  lemma SettlesOnce(s: State, id: nat, m: Move, s': State)
    requires Moves(s, id, m, s') && m.effect.Settled?
    ensures !HasReplied(s.calls[id])
  {
  }

  /**
   Linearizability. In every state of every run the log is a history of atomic operations, in an order
   in which they explain the data and every reply given: each call that has answered is in it once,
   with that answer, and no other call is.
   */
  lemma Linearizable(d: Store, labels: seq<Label>)
    requires Fresh(d)
    ensures var s := Exec(Start(d), labels);
            && Legal(d, s.log)
            && Data(s.store) == Replay(d, s.log)
            && (forall id :: id in s.calls && HasReplied(s.calls[id]) ==>
                  exists i :: 0 <= i < |s.log| && s.log[i].id == id &&
                              s.log[i].call == s.calls[id].call && s.log[i].reply == s.calls[id].reply)
            && (forall i, j :: 0 <= i < j < |s.log| ==> s.log[i].id != s.log[j].id)
            && (forall i :: 0 <= i < |s.log| ==> s.log[i].id in s.calls && HasReplied(s.calls[s.log[i].id]))
  {
    hide Exec, Data, Replay, Legal;
    RunKeepsInv(d, labels);
    var s := Exec(Start(d), labels);
    forall id | id in s.calls && HasReplied(s.calls[id])
      ensures exists i :: 0 <= i < |s.log| && s.log[i].id == id &&
                          s.log[i].call == s.calls[id].call && s.log[i].reply == s.calls[id].reply
    {
      assert RepliesLogged(s) && HasReplied(s.calls[id]);
      var i :| 0 <= i < |s.log| && s.log[i].id == id;
    }
  }

  lemma {:induction false} LogGrows(s: State, during: seq<Label>)
    ensures s.log <= Exec(s, during).log
    decreases |during|
  {
    hide MoveOf;
    if during != [] {
      LogGrows(s, during[..|during| - 1]);
    }
  }

  /** The order of the log respects real time: a call that had answered before another began comes first. */
  lemma RealTimeOrder(d: Store, before: seq<Label>, during: seq<Label>, i: nat, j: nat)
    requires Fresh(d)
    requires var s := Exec(Start(d), before); var s' := Exec(s, during);
             i < |s'.log| && j < |s'.log| &&
             s'.log[i].id in s.calls && HasReplied(s.calls[s'.log[i].id]) && s'.log[j].id !in s.calls
    ensures i < j
  {
    hide Exec, Linear;
    var s := Exec(Start(d), before);
    RunKeepsInv(d, before);
    ExecAppend(Start(d), before, during);
    RunKeepsInv(d, before + during);
    LogGrows(s, during);
    var s' := Exec(s, during);
    var k :| 0 <= k < |s.log| && s.log[k].id == s'.log[i].id;
    assert forall n :: 0 <= n < |s.log| ==> s'.log[n] == s.log[n];
    assert k == i;
  }

  // ---------- release on exit ----------

  /** A call that returns after holding a lock leaves that lock free. It has changed nothing but its key. */
  lemma ReleaseOnExit(d: Store, labels: seq<Label>, id: nat, act: Act)
    requires Fresh(d)
    requires var s := Exec(Start(d), labels); var s' := Step(s, Run(id, act));
             id in s.calls && Holds(s.calls[id]) && s'.calls[id].Done?
    ensures var s := Exec(Start(d), labels); var s' := Step(s, Run(id, act)); var key := s.calls[id].call.key;
            LockName(key) !in s'.store &&
            forall k :: k != key && k != LockName(key) ==> Find(s'.store, k) == Find(s.store, k)
  {
    hide MoveOf, Exec, EffectIsAtomic, Linear;
    RunKeepsInv(d, labels);
    var s := Exec(Start(d), labels);
    if MoveOf(s.calls[id], s.store, act).Move? {
      MovesProperly(d, s, id, act);
      LockNameInjective(s.calls[id].call.key, s.calls[id].call.key);
    }
  }

  /** No step of a call touches any key but its own and that key's lock. */
  lemma OnlyOwnKey(d: Store, labels: seq<Label>, l: Label, k: Bytes)
    requires Fresh(d)
    requires var s := Exec(Start(d), labels);
             l.id in s.calls ==> k != s.calls[l.id].call.key && k != LockName(s.calls[l.id].call.key)
    ensures var s := Exec(Start(d), labels); Find(Step(s, l).store, k) == Find(s.store, k)
  {
    hide MoveOf, Exec, EffectIsAtomic, Linear;
    RunKeepsInv(d, labels);
    var s := Exec(Start(d), labels);
    if l.Run? && l.id in s.calls && MoveOf(s.calls[l.id], s.store, l.act).Move? {
      MovesProperly(d, s, l.id, l.act);
    }
  }

  /** A lock is left behind exactly for one of the causes listed with LeakCause. */
  lemma LeakOnlyForCause(d: Store, labels: seq<Label>, id: nat, act: Act)
    requires Fresh(d)
    requires var s := Exec(Start(d), labels); var s' := Step(s, Run(id, act));
             id in s.calls && !s.calls[id].Leaked? && s'.calls[id].Leaked?
    ensures var s := Exec(Start(d), labels); var s' := Step(s, Run(id, act)); var call := s.calls[id].call;
            s.calls[id].AtRead? && call.LockedUpdate? &&
            LeakCause(call.key, call.op, Find(s.store, call.key), s'.calls[id].reply)
  {
    hide Exec, Linear, OutcomeOf, StoredAs, Encoded, Apply, LeakCause, Succeeds;
    RunKeepsInv(d, labels);
    var s := Exec(Start(d), labels);
    var st := s.calls[id];
    NoLockOfALock(s, st.call.key);
    if st.AtUnlock? && act.Try? {
      UnlockTurn(st.call, st.reply, s.store, act.timeUp);
    } else if st.AtRead? && st.call.LockedUpdate? {
      LeaksExactly(st.call.key, st.call.op, Find(s.store, st.call.key), Step(s, Run(id, act)).calls[id].reply);
    }
  }

  /** After a leak the key is frozen: no run changes its value again. */
  lemma LeakFreezesKey(d: Store, before: seq<Label>, during: seq<Label>, id: nat)
    requires Fresh(d)
    requires var s := Exec(Start(d), before); id in s.calls && s.calls[id].Leaked?
    ensures var s := Exec(Start(d), before);
            Find(Exec(s, during).store, s.calls[id].call.key) == Find(s.store, s.calls[id].call.key)
  {
    StaysLeaked(Exec(Start(d), before), during, id);
    NoInterference(d, before, during, id);
  }

  lemma {:induction false} StaysLeaked(s: State, during: seq<Label>, id: nat)
    requires id in s.calls && s.calls[id].Leaked?
    ensures id in Exec(s, during).calls && Exec(s, during).calls[id] == s.calls[id]
    decreases |during|
  {
    if during != [] {
      StaysLeaked(s, during[..|during| - 1], id);
    }
  }

  lemma {:induction false} StaysDone(s: State, during: seq<Label>, id: nat)
    requires id in s.calls && s.calls[id].Done?
    ensures id in Exec(s, during).calls && Exec(s, during).calls[id] == s.calls[id]
    decreases |during|
  {
    if during != [] {
      StaysDone(s, during[..|during| - 1], id);
    }
  }
}
