/** What every interleaving keeps, and the safety results that follow from it. */
module RbusInvariant {
  import opened Wrappers
  import opened RbusRegistry
  import opened RbusProtocol

  ghost predicate AllSet(flags: seq<bool>) {
    SetUpTo(flags, |flags|)
  }

  ghost predicate SetUpTo(flags: seq<bool>, n: nat) {
    forall i :: 0 <= i < n && i < |flags| ==> flags[i]
  }

  /** The first `k` dependencies of component `c` resolve to registered entries. */
  ghost predicate NeedsMet(reg: Registry, registered: seq<bool>, c: nat, k: nat)
    requires c < |reg| && reg[c].dep.Some? && k <= |reg[c].dep.value.needs|
  {
    forall d :: 0 <= d < k ==> Resolved(reg, registered, reg[c].dep.value.needs[d])
  }

  ghost predicate AllNeedsMet(reg: Registry, registered: seq<bool>, c: nat)
    requires c < |reg| && reg[c].dep.Some?
  {
    NeedsMet(reg, registered, c, |reg[c].dep.value.needs|)
  }

  /** A ready check in progress, by a thread that holds the mutex, has seen exactly the flags as they are. */
  ghost predicate CheckInv(s: State, check: Check) {
    check.Scan? ==>
      && check.i <= |s.registered| && !s.systemReady
      && (check.ok <==> SetUpTo(s.registered, check.i))
  }

  /** The call has set its entry's `registered` flag. */
  predicate HasWritten(call: Call) {
    call.comp.Some? && (call.pc.ReadyCheck? || call.pc.Unlock? || call.pc.TestMonitor? || call.pc.Spawn?
                        || call.pc.Signal? || call.pc.Returned?)
  }

  /** The call found the system ready and has yet to signal the condition variable. */
  predicate Signalling(call: Call) {
    call.ok && (call.pc.Unlock? || call.pc.TestMonitor? || call.pc.Spawn? || call.pc.Signal?)
  }

  ghost predicate CallInv(reg: Registry, s: State, t: nat)
    requires Shape(reg, s) && t < |s.calls|
  {
    var call := s.calls[t];
    && (InCritical(call.pc) <==> s.owner == ByCall(t))
    && (if call.pc.Lookup? then call.comp.None? else call.comp == Find(reg, call.name))
    && (HasWritten(call) ==> s.registered[call.comp.value])
    && (call.pc.SetReady? ==> reg[call.comp.value].dep.None?)
    && (call.pc.SetRegistered? && reg[call.comp.value].dep.None? ==> s.ready[call.comp.value])
    && (call.pc.ReadyCheck? ==> CheckInv(s, call.pc.check))
    && (call.pc.Unlock? ==> (call.ok <==> s.systemReady))
    && (Signalling(call) ==> s.systemReady)
  }

  predicate WaiterHoldsMutex(pc: WaiterPc) {
    pc.Checking? || pc.ReadyUnlock? || pc.TestStarted? || pc.QuitUnlock? || pc.Wait?
  }

  ghost predicate WaiterInv(reg: Registry, s: State)
    requires Shape(reg, s)
  {
    && (WaiterHoldsMutex(s.waiter) <==> s.owner == ByWaiter)
    && (s.waiter.Checking? ==> CheckInv(s, s.waiter.check))
    && (s.waiter.ReadyUnlock? || s.waiter.Publishing? || s.waiter == Exited(true) ==> s.systemReady)
    && (s.waiter.TestStarted? || s.waiter.Wait? || s.waiter.QuitUnlock? ==> !s.systemReady && !AllSet(s.registered))
    && (s.waiter.Blocked? ==> |reg| > 0)
    && (s.waiter.NotCreated? <==> s.main.AwaitSelf? || s.main.CreateWaiter?)
    && (s.started <==> s.main.Opened?)
  }

  ghost predicate WakeupInv(s: State) {
    s.waiter.Blocked? && s.systemReady ==> exists t :: 0 <= t < |s.calls| && Signalling(s.calls[t])
  }

  predicate PollerHoldsMutex(pc: PollerPc) {
    pc.PollSetReady? || pc.PollUnlock?
  }

  ghost predicate PollerInv(reg: Registry, s: State, p: nat)
    requires Shape(reg, s) && p < |s.pollers|
  {
    var poller := s.pollers[p];
    && (PollerHoldsMutex(poller.pc) <==> s.owner == ByPoller(p))
    && s.registered[poller.comp]
    && (poller.pc.PollScan? ==> NeedsMet(reg, s.registered, poller.comp, poller.pc.i))
    && (poller.pc.PollLock? || poller.pc.PollSetReady? ==> AllNeedsMet(reg, s.registered, poller.comp))
    && (poller.pc.PollUnlock? || poller.pc.PollPublish? || poller.pc.PollClear? || poller.pc.PollExited?
        ==> s.ready[poller.comp])
  }

  /** Call `t` sits between its two flag writes for component `c`. */
  ghost predicate BetweenWrites(s: State, c: nat) {
    && s.owner.ByCall? && s.owner.t < |s.calls|
    && s.calls[s.owner.t].pc.SetRegistered? && s.calls[s.owner.t].comp == Some(c)
  }

  ghost predicate ReadyInv(reg: Registry, s: State)
    requires Shape(reg, s)
  {
    forall i :: 0 <= i < |reg| ==> ReadyInvAt(reg, s, i)
  }

  /** Some thread is about to conclude that the system is ready. */
  ghost predicate CheckUnderWay(s: State) {
    s.owner.ByCall? && s.owner.t < |s.calls| && s.calls[s.owner.t].pc.ReadyCheck?
  }

  ghost predicate FlagInv(reg: Registry, s: State)
    requires Shape(reg, s)
  {
    && (s.systemReady ==> AllSet(s.registered))
    && (AllSet(s.registered) && |reg| > 0 && !s.systemReady ==> CheckUnderWay(s))
    && (forall i :: 0 <= i < |reg| ==> s.registered[i] ==> RegisteredBy(s, i))
    && (s.owner.ByCall? ==> s.owner.t < |s.calls|)
    && (s.owner.ByPoller? ==> s.owner.p < |s.pollers|)
  }

  ghost predicate RegisteredBy(s: State, c: nat) {
    exists t :: 0 <= t < |s.calls| && HasWritten(s.calls[t]) && s.calls[t].comp == Some(c)
  }

  function Publications(log: seq<Event>): (n: nat) {
    if log == [] then 0 else (if log[|log| - 1].SystemReadyEvent? then 1 else 0) + Publications(log[..|log| - 1])
  }

  ghost predicate LogInv(reg: Registry, s: State)
    requires Shape(reg, s)
  {
    && Publications(s.log) == (if s.waiter == Exited(true) then 1 else 0)
    && forall k :: 0 <= k < |s.log| ==> s.log[k].DependencyEvent? ==> DependencyEventDue(reg, s, s.log[k].comp)
  }

  ghost predicate DependencyEventDue(reg: Registry, s: State, c: nat)
    requires Shape(reg, s)
  {
    c < |reg| && reg[c].dep.Some? && s.ready[c]
  }

  ghost predicate Inv(reg: Registry, s: State) {
    && Shape(reg, s)
    && (forall t :: 0 <= t < |s.calls| ==> CallInv(reg, s, t))
    && WaiterInv(reg, s) && WakeupInv(s)
    && (forall p :: 0 <= p < |s.pollers| ==> PollerInv(reg, s, p))
    && ReadyInv(reg, s) && FlagInv(reg, s) && LogInv(reg, s)
  }

  lemma InitInv(reg: Registry)
    ensures Inv(reg, Init(reg))
  {
    assert |reg| > 0 ==> !Init(reg).registered[0];
  }

  /** Flags are never cleared, so what a scan has established stays established. */
  ghost predicate Grows(a: seq<bool>, b: seq<bool>) {
    |a| == |b| && forall i :: 0 <= i < |a| && a[i] ==> b[i]
  }

  /** What a step by the thread with mutex tag `me` may do to the shared state. */
  ghost predicate Guarantee(s: State, s': State, me: Owner) {
    && Grows(s.registered, s'.registered) && Grows(s.ready, s'.ready) && (s.systemReady ==> s'.systemReady)
    && (s'.owner == s.owner || (s.owner.Free? && s'.owner == me) || (s.owner == me && s'.owner.Free?))
    && (s.owner != me ==> s.registered == s'.registered && s.systemReady == s'.systemReady && s.ready == s'.ready)
  }

  lemma CallStable(reg: Registry, s: State, s': State, me: Owner, u: nat)
    requires Shape(reg, s) && Shape(reg, s') && Guarantee(s, s', me) && me != ByCall(u)
    requires u < |s.calls| && u < |s'.calls| && s'.calls[u] == s.calls[u] && CallInv(reg, s, u)
    ensures CallInv(reg, s', u)
  {
    var call := s.calls[u];
    if call.comp.Some? {
      assert s.registered[call.comp.value] ==> s'.registered[call.comp.value];
      assert s.ready[call.comp.value] ==> s'.ready[call.comp.value];
    }
  }

  lemma WaiterStable(reg: Registry, s: State, s': State, me: Owner)
    requires Shape(reg, s) && Shape(reg, s') && Guarantee(s, s', me) && me != ByWaiter
    requires s'.waiter == s.waiter || (s.waiter.Blocked? && s'.waiter.Acquire?)
    requires s'.main == s.main && s'.started == s.started && WaiterInv(reg, s)
    ensures WaiterInv(reg, s')
  {
  }

  lemma PollerStable(reg: Registry, s: State, s': State, me: Owner, p: nat)
    requires Shape(reg, s) && Shape(reg, s') && Guarantee(s, s', me) && me != ByPoller(p)
    requires p < |s.pollers| && p < |s'.pollers| && s'.pollers[p] == s.pollers[p] && PollerInv(reg, s, p)
    ensures PollerInv(reg, s', p)
  {
  }

  /** Everything a registration step does except what it does to its own call. */
  ghost predicate CallEffect(reg: Registry, s: State, s': State, t: nat) {
    && Shape(reg, s) && Shape(reg, s') && Guarantee(s, s', ByCall(t))
    && t < |s.calls| == |s'.calls| && (forall u :: 0 <= u < |s.calls| && u != t ==> s'.calls[u] == s.calls[u])
    && (s'.waiter == s.waiter || (s.waiter.Blocked? && s'.waiter.Acquire?))
    && s'.main == s.main && s'.started == s.started && s'.log == s.log
    && |s.pollers| <= |s'.pollers| <= |s.pollers| + 1
    && (forall p :: 0 <= p < |s.pollers| ==> s'.pollers[p] == s.pollers[p])
    && (|s'.pollers| == |s.pollers| + 1 ==>
          s'.pollers[|s.pollers|].pc == PollScan(0) && s'.registered[s'.pollers[|s.pollers|].comp])
  }

  lemma CriticalHasEffect(reg: Registry, s: State, t: nat)
    requires Shape(reg, s) && t < |s.calls| && InCritical(s.calls[t].pc) && s.owner == ByCall(t)
    ensures CallEffect(reg, s, CriticalNext(reg, s, t), t)
  {
  }

  lemma CheckKeepsOwnInv(reg: Registry, s: State, t: nat)
    requires Shape(reg, s) && t < |s.calls| && s.calls[t].pc.ReadyCheck? && CallInv(reg, s, t)
    ensures CallInv(reg, CriticalNext(reg, s, t), t)
  {
  }

  lemma WriteKeepsOwnInv(reg: Registry, s: State, t: nat)
    requires Shape(reg, s) && t < |s.calls| && CallInv(reg, s, t)
    requires InCritical(s.calls[t].pc) && !s.calls[t].pc.ReadyCheck?
    ensures CallInv(reg, CriticalNext(reg, s, t), t)
  {
  }

  lemma CriticalKeepsOwnInv(reg: Registry, s: State, t: nat)
    requires Shape(reg, s) && t < |s.calls| && InCritical(s.calls[t].pc) && CallInv(reg, s, t)
    ensures CallInv(reg, CriticalNext(reg, s, t), t)
  {
    if s.calls[t].pc.ReadyCheck? {
      CheckKeepsOwnInv(reg, s, t);
    } else {
      WriteKeepsOwnInv(reg, s, t);
    }
  }

  lemma EntryHasEffect(reg: Registry, s: State, t: nat)
    requires Shape(reg, s) && t < |s.calls| && InEntry(s.calls[t].pc) && CallInv(reg, s, t)
    requires EntryNext(reg, s, t).Some?
    ensures CallEffect(reg, s, EntryNext(reg, s, t).value, t)
    ensures CallInv(reg, EntryNext(reg, s, t).value, t)
  {
  }

  lemma ExitHasEffect(reg: Registry, s: State, t: nat)
    requires Shape(reg, s) && t < |s.calls| && InExit(s.calls[t].pc) && CallInv(reg, s, t)
    ensures CallEffect(reg, s, ExitNext(reg, s, t), t)
    ensures CallInv(reg, ExitNext(reg, s, t), t)
  {
  }

  lemma CallHasEffect(reg: Registry, s: State, t: nat)
    requires Inv(reg, s) && CallNext(reg, s, t).Some?
    ensures CallEffect(reg, s, CallNext(reg, s, t).value, t)
    ensures CallInv(reg, CallNext(reg, s, t).value, t)
  {
    assert CallInv(reg, s, t);
    if InEntry(s.calls[t].pc) {
      EntryHasEffect(reg, s, t);
    } else if InCritical(s.calls[t].pc) {
      CriticalHasEffect(reg, s, t);
      CriticalKeepsOwnInv(reg, s, t);
    } else {
      ExitHasEffect(reg, s, t);
    }
  }

  /** The two flag vectors of one component. */
  ghost predicate ReadyInvAt(reg: Registry, s: State, i: nat)
    requires Shape(reg, s) && i < |reg|
  {
    if reg[i].dep.Some? then s.ready[i] ==> s.registered[i] && AllNeedsMet(reg, s.registered, i)
    else && (s.registered[i] ==> s.ready[i])
         && (s.ready[i] && !s.registered[i] ==> BetweenWrites(s, i))
  }

  lemma ReadyStable(reg: Registry, s: State, s': State, i: nat)
    requires Shape(reg, s) && Shape(reg, s') && i < |reg| && ReadyInvAt(reg, s, i)
    requires Grows(s.registered, s'.registered) && s'.ready[i] == s.ready[i]
    requires reg[i].dep.None? ==> s'.registered[i] == s.registered[i]
    requires reg[i].dep.None? && BetweenWrites(s, i) ==> BetweenWrites(s', i)
    ensures ReadyInvAt(reg, s', i)
  {
  }

  /** What a registration step does to its own call, as far as the other invariants depend on it. */
  ghost predicate CallProgress(s: State, s': State, t: nat)
    requires t < |s.calls| == |s'.calls|
  {
    var call, call' := s.calls[t], s'.calls[t];
    && (HasWritten(call) ==> HasWritten(call') && call'.comp == call.comp)
    && (Signalling(call) && s'.waiter.Blocked? ==> Signalling(call'))
    && (s'.systemReady && !s.systemReady ==> Signalling(call'))
    && (s'.owner == ByCall(t) ==> InCritical(call'.pc))
  }

  lemma CriticalProgresses(reg: Registry, s: State, t: nat)
    requires Shape(reg, s) && t < |s.calls| && InCritical(s.calls[t].pc) && CallInv(reg, s, t)
    ensures CallProgress(s, CriticalNext(reg, s, t), t)
  {
  }

  lemma ExitProgresses(reg: Registry, s: State, t: nat)
    requires Shape(reg, s) && t < |s.calls| && InExit(s.calls[t].pc) && CallInv(reg, s, t)
    ensures CallProgress(s, ExitNext(reg, s, t), t)
  {
  }

  lemma CallProgresses(reg: Registry, s: State, t: nat)
    requires Inv(reg, s) && CallNext(reg, s, t).Some? && |CallNext(reg, s, t).value.calls| == |s.calls|
    ensures CallProgress(s, CallNext(reg, s, t).value, t)
  {
    assert CallInv(reg, s, t);
    if InCritical(s.calls[t].pc) {
      CriticalProgresses(reg, s, t);
    } else if InExit(s.calls[t].pc) {
      ExitProgresses(reg, s, t);
    }
  }

  lemma CallKeepsWakeupInv(s: State, s': State, t: nat)
    requires WakeupInv(s) && t < |s.calls| == |s'.calls|
    requires CallProgress(s, s', t) && (s'.waiter.Blocked? ==> s.waiter.Blocked?)
    requires forall u :: 0 <= u < |s.calls| && u != t ==> s'.calls[u] == s.calls[u]
    ensures WakeupInv(s')
  {
    if s'.waiter.Blocked? && s'.systemReady {
      if s.systemReady {
        var u :| 0 <= u < |s.calls| && Signalling(s.calls[u]);
        assert Signalling(s'.calls[u]);
      } else {
        assert Signalling(s'.calls[t]);
      }
    }
  }

  /** Calls already in progress are still there, and those that had written their flag still have. */
  ghost predicate CallsKept(s: State, s': State) {
    && |s.calls| <= |s'.calls| && |s.pollers| <= |s'.pollers|
    && forall u :: 0 <= u < |s.calls| && HasWritten(s.calls[u])
                   ==> HasWritten(s'.calls[u]) && s'.calls[u].comp == s.calls[u].comp
  }

  lemma RegisteredByKept(s: State, s': State, c: nat)
    requires CallsKept(s, s') && RegisteredBy(s, c)
    ensures RegisteredBy(s', c)
  {
    var u :| 0 <= u < |s.calls| && HasWritten(s.calls[u]) && s.calls[u].comp == Some(c);
    assert HasWritten(s'.calls[u]);
  }

  ghost predicate OwnerInRange(s: State) {
    && (s.owner.ByCall? ==> s.owner.t < |s.calls|)
    && (s.owner.ByPoller? ==> s.owner.p < |s.pollers|)
  }

  /** A step taken without holding the mutex leaves the flag invariants alone. */
  lemma OutsideKeepsFlags(reg: Registry, s: State, s': State, me: Owner)
    requires Shape(reg, s) && Shape(reg, s') && ReadyInv(reg, s) && FlagInv(reg, s)
    requires Guarantee(s, s', me) && s.owner != me && CallsKept(s, s') && OwnerInRange(s')
    requires s.owner.ByCall? ==> s'.calls[s.owner.t] == s.calls[s.owner.t]
    ensures ReadyInv(reg, s') && FlagInv(reg, s')
  {
    forall i | 0 <= i < |reg|
      ensures ReadyInvAt(reg, s', i)
      ensures s'.registered[i] ==> RegisteredBy(s', i)
    {
      ReadyStable(reg, s, s', i);
      if s'.registered[i] {
        RegisteredByKept(s, s', i);
      }
    }
  }

  /** A step taken inside the registration call that holds the mutex. */
  lemma CriticalKeepsReadyAt(reg: Registry, s: State, t: nat, i: nat)
    requires Shape(reg, s) && t < |s.calls| && InCritical(s.calls[t].pc) && CallInv(reg, s, t)
    requires i < |reg| && ReadyInvAt(reg, s, i)
    ensures ReadyInvAt(reg, CriticalNext(reg, s, t), i)
  {
    var c := s.calls[t].comp.value;
    if i != c || (!s.calls[t].pc.SetReady? && !s.calls[t].pc.SetRegistered?) {
      ReadyStable(reg, s, CriticalNext(reg, s, t), i);
    }
  }

  lemma CriticalKeepsReadyInv(reg: Registry, s: State, t: nat)
    requires Inv(reg, s) && t < |s.calls| && InCritical(s.calls[t].pc)
    ensures ReadyInv(reg, CriticalNext(reg, s, t))
  {
    assert CallInv(reg, s, t);
    forall i | 0 <= i < |reg|
      ensures ReadyInvAt(reg, CriticalNext(reg, s, t), i)
    {
      assert ReadyInvAt(reg, s, i);
      CriticalKeepsReadyAt(reg, s, t, i);
    }
  }

  lemma CriticalKeepsFlagInv(reg: Registry, s: State, t: nat)
    requires Inv(reg, s) && t < |s.calls| && InCritical(s.calls[t].pc)
    requires CallsKept(s, CriticalNext(reg, s, t))
    ensures FlagInv(reg, CriticalNext(reg, s, t))
  {
    var s' := CriticalNext(reg, s, t);
    assert CallInv(reg, s, t);
    forall i | 0 <= i < |reg| && s'.registered[i]
      ensures RegisteredBy(s', i)
    {
      if s.registered[i] {
        RegisteredByKept(s, s', i);
      } else {
        assert HasWritten(s'.calls[t]) && s'.calls[t].comp == Some(i);
      }
    }
  }

  /** A step of call `t` keeps what holds of every thread. */
  lemma CallKeepsThreads(reg: Registry, s: State, s': State, t: nat)
    requires Inv(reg, s) && CallEffect(reg, s, s', t) && CallInv(reg, s', t) && CallProgress(s, s', t)
    ensures forall u :: 0 <= u < |s'.calls| ==> CallInv(reg, s', u)
    ensures forall p :: 0 <= p < |s'.pollers| ==> PollerInv(reg, s', p)
    ensures WaiterInv(reg, s') && WakeupInv(s') && LogInv(reg, s')
  {
    forall u | 0 <= u < |s'.calls| && u != t
      ensures CallInv(reg, s', u)
    {
      CallStable(reg, s, s', ByCall(t), u);
    }
    forall p | 0 <= p < |s'.pollers|
      ensures PollerInv(reg, s', p)
    {
      if p < |s.pollers| {
        PollerStable(reg, s, s', ByCall(t), p);
      }
    }
    WaiterStable(reg, s, s', ByCall(t));
    CallKeepsWakeupInv(s, s', t);
    LogStable(reg, s, s');
  }

  lemma CallKeepsInv(reg: Registry, s: State, t: nat)
    requires Inv(reg, s) && CallNext(reg, s, t).Some?
    ensures Inv(reg, CallNext(reg, s, t).value)
  {
    var s' := CallNext(reg, s, t).value;
    CallHasEffect(reg, s, t);
    CallProgresses(reg, s, t);
    CallKeepsThreads(reg, s, s', t);
    assert CallsKept(s, s');
    if InCritical(s.calls[t].pc) {
      CriticalKeepsReadyInv(reg, s, t);
      CriticalKeepsFlagInv(reg, s, t);
    } else {
      assert CallInv(reg, s, t);
      OutsideKeepsFlags(reg, s, s', ByCall(t));
    }
  }

  lemma LogStable(reg: Registry, s: State, s': State)
    requires Shape(reg, s) && Shape(reg, s') && LogInv(reg, s) && s'.log == s.log && Grows(s.ready, s'.ready)
    requires s'.waiter == Exited(true) <==> s.waiter == Exited(true)
    ensures LogInv(reg, s')
  {
    forall k | 0 <= k < |s'.log| && s'.log[k].DependencyEvent?
      ensures DependencyEventDue(reg, s', s'.log[k].comp)
    {
      assert DependencyEventDue(reg, s, s.log[k].comp);
    }
  }

  /** What holds of every registration call and poller survives a step of another thread. */
  lemma OthersStable(reg: Registry, s: State, s': State, me: Owner)
    requires Inv(reg, s) && Shape(reg, s') && Guarantee(s, s', me)
    requires |s.calls| <= |s'.calls| && |s.pollers| == |s'.pollers|
    requires forall u :: 0 <= u < |s.calls| ==> s'.calls[u] == s.calls[u] && me != ByCall(u)
    requires forall p :: 0 <= p < |s.pollers| && me != ByPoller(p) ==> s'.pollers[p] == s.pollers[p]
    ensures forall u :: 0 <= u < |s.calls| ==> CallInv(reg, s', u)
    ensures forall p :: 0 <= p < |s.pollers| && me != ByPoller(p) ==> PollerInv(reg, s', p)
    ensures CallsKept(s, s')
  {
    forall u | 0 <= u < |s.calls|
      ensures CallInv(reg, s', u)
    {
      CallStable(reg, s, s', me, u);
    }
    forall p | 0 <= p < |s.pollers| && me != ByPoller(p)
      ensures PollerInv(reg, s', p)
    {
      PollerStable(reg, s, s', me, p);
    }
  }

  lemma WakeupStable(s: State, s': State)
    requires WakeupInv(s) && |s.calls| <= |s'.calls| && s'.systemReady == s.systemReady
    requires forall u :: 0 <= u < |s.calls| ==> s'.calls[u] == s.calls[u]
    requires s'.waiter.Blocked? ==> s.waiter.Blocked?
    ensures WakeupInv(s')
  {
    if s'.waiter.Blocked? && s'.systemReady {
      var u :| 0 <= u < |s.calls| && Signalling(s.calls[u]);
      assert Signalling(s'.calls[u]);
    }
  }

  /** What the waiter's own step does to the rest of the state. */
  lemma WaiterHasEffect(reg: Registry, s: State)
    requires Shape(reg, s) && WaiterInv(reg, s) && WaiterNext(reg, s).Some?
    ensures var s' := WaiterNext(reg, s).value;
            && Guarantee(s, s', ByWaiter) && s'.calls == s.calls && s'.pollers == s.pollers
            && s'.ready == s.ready && s'.registered == s.registered && (s'.waiter.Blocked? ==> !s'.systemReady)
            && (s'.systemReady && !s.systemReady ==> AllSet(s.registered))
  {
  }

  lemma WaiterKeepsOwnInv(reg: Registry, s: State)
    requires Shape(reg, s) && WaiterInv(reg, s) && FlagInv(reg, s) && WaiterNext(reg, s).Some?
    ensures WaiterInv(reg, WaiterNext(reg, s).value)
  {
    assert CheckUnderWay(s) ==> s.owner.ByCall?;
  }

  lemma WaiterKeepsLogInv(reg: Registry, s: State)
    requires Inv(reg, s) && WaiterNext(reg, s).Some?
    ensures LogInv(reg, WaiterNext(reg, s).value)
  {
    var s' := WaiterNext(reg, s).value;
    if s.waiter.Publishing? {
      assert s'.log[..|s'.log| - 1] == s.log;
      forall k | 0 <= k < |s'.log| && s'.log[k].DependencyEvent?
        ensures DependencyEventDue(reg, s', s'.log[k].comp)
      {
        assert DependencyEventDue(reg, s, s.log[k].comp);
      }
    } else {
      LogStable(reg, s, s');
    }
  }

  lemma WaiterKeepsInv(reg: Registry, s: State)
    requires Inv(reg, s) && WaiterNext(reg, s).Some?
    ensures Inv(reg, WaiterNext(reg, s).value)
  {
    var s' := WaiterNext(reg, s).value;
    WaiterHasEffect(reg, s);
    WaiterKeepsOwnInv(reg, s);
    OthersStable(reg, s, s', ByWaiter);
    WaiterKeepsLogInv(reg, s);
    if s.owner.ByWaiter? {
      forall i | 0 <= i < |reg|
        ensures ReadyInvAt(reg, s', i)
        ensures s'.registered[i] ==> RegisteredBy(s', i)
      {
        ReadyStable(reg, s, s', i);
        if s'.registered[i] { RegisteredByKept(s, s', i); }
      }
    } else {
      OutsideKeepsFlags(reg, s, s', ByWaiter);
    }
  }

  lemma MainKeepsInv(reg: Registry, s: State)
    requires Inv(reg, s) && MainNext(reg, s).Some?
    ensures Inv(reg, MainNext(reg, s).value)
  {
    var s' := MainNext(reg, s).value;
    var me := ByCall(|s.calls|);
    OthersStable(reg, s, s', me);
    WakeupStable(s, s');
    LogStable(reg, s, s');
    OutsideKeepsFlags(reg, s, s', me);
  }

  lemma StartKeepsInv(reg: Registry, s: State, name: string)
    requires Inv(reg, s)
    ensures Inv(reg, Next(reg, s, StartCall(name)).value)
  {
    var s' := Next(reg, s, StartCall(name)).value;
    var me := ByCall(|s.calls|);
    OthersStable(reg, s, s', me);
    WaiterStable(reg, s, s', me);
    WakeupStable(s, s');
    LogStable(reg, s, s');
    OutsideKeepsFlags(reg, s, s', me);
  }

  lemma SpuriousKeepsInv(reg: Registry, s: State)
    requires Inv(reg, s) && s.waiter.Blocked?
    ensures Inv(reg, Next(reg, s, SpuriousWakeup).value)
  {
    var s' := Next(reg, s, SpuriousWakeup).value;
    var me := ByCall(|s.calls|);
    OthersStable(reg, s, s', me);
    WaiterStable(reg, s, s', me);
    WakeupStable(s, s');
    LogStable(reg, s, s');
    OutsideKeepsFlags(reg, s, s', me);
  }

  /** Everything a poller step does except what it does to `ready` and to the log. */
  ghost predicate PollerEffect(s: State, s': State, p: nat) {
    && Guarantee(s, s', ByPoller(p)) && s'.calls == s.calls && |s'.pollers| == |s.pollers|
    && (forall q :: 0 <= q < |s.pollers| && q != p ==> s'.pollers[q] == s.pollers[q])
    && s'.registered == s.registered && s'.systemReady == s.systemReady
    && s'.waiter == s.waiter && s'.main == s.main && s'.started == s.started
  }

  predicate Scanning(pc: PollerPc) {
    pc.PollScan? || pc.PollSleep?
  }

  predicate Locking(pc: PollerPc) {
    pc.PollLock? || PollerHoldsMutex(pc)
  }

  lemma ScanHasEffect(reg: Registry, s: State, p: nat)
    requires Shape(reg, s) && p < |s.pollers| && Scanning(s.pollers[p].pc) && PollerInv(reg, s, p)
    ensures PollerNext(reg, s, p).Some?
    ensures var s' := PollerNext(reg, s, p).value; PollerEffect(s, s', p) && PollerInv(reg, s', p)
  {
  }

  lemma LockHasEffect(reg: Registry, s: State, p: nat)
    requires Shape(reg, s) && p < |s.pollers| && Locking(s.pollers[p].pc) && PollerInv(reg, s, p)
    requires PollerNext(reg, s, p).Some?
    ensures var s' := PollerNext(reg, s, p).value; PollerEffect(s, s', p) && PollerInv(reg, s', p)
  {
  }

  lemma PublishHasEffect(reg: Registry, s: State, p: nat)
    requires Shape(reg, s) && p < |s.pollers| && PollerInv(reg, s, p) && PollerNext(reg, s, p).Some?
    requires !Scanning(s.pollers[p].pc) && !Locking(s.pollers[p].pc)
    ensures var s' := PollerNext(reg, s, p).value; PollerEffect(s, s', p) && PollerInv(reg, s', p)
  {
  }

  lemma PollerHasEffect(reg: Registry, s: State, p: nat)
    requires Shape(reg, s) && p < |s.pollers| && PollerNext(reg, s, p).Some? && PollerInv(reg, s, p)
    ensures var s' := PollerNext(reg, s, p).value; PollerEffect(s, s', p) && PollerInv(reg, s', p)
  {
    if Scanning(s.pollers[p].pc) {
      ScanHasEffect(reg, s, p);
    } else if Locking(s.pollers[p].pc) {
      LockHasEffect(reg, s, p);
    } else {
      PublishHasEffect(reg, s, p);
    }
  }

  lemma PollerKeepsReadyInv(reg: Registry, s: State, p: nat)
    requires Inv(reg, s) && p < |s.pollers| && s.owner == ByPoller(p) && PollerNext(reg, s, p).Some?
    ensures ReadyInv(reg, PollerNext(reg, s, p).value)
  {
    var s' := PollerNext(reg, s, p).value;
    assert PollerInv(reg, s, p);
    forall i | 0 <= i < |reg|
      ensures ReadyInvAt(reg, s', i)
    {
      assert ReadyInvAt(reg, s, i);
    }
  }

  lemma LogGrows(reg: Registry, s: State, s': State, c: nat)
    requires Shape(reg, s) && Shape(reg, s') && LogInv(reg, s) && Grows(s.ready, s'.ready) && s'.waiter == s.waiter
    requires s'.log == s.log + [DependencyEvent(c)] && DependencyEventDue(reg, s', c)
    ensures LogInv(reg, s')
  {
    PublicationsMore(s.log, DependencyEvent(c));
    forall k | 0 <= k < |s'.log| && s'.log[k].DependencyEvent?
      ensures DependencyEventDue(reg, s', s'.log[k].comp)
    {
      if k < |s.log| { assert s'.log[k] == s.log[k] && DependencyEventDue(reg, s, s.log[k].comp); }
    }
  }

  lemma PublicationsMore(log: seq<Event>, e: Event)
    ensures Publications(log + [e]) == Publications(log) + if e.SystemReadyEvent? then 1 else 0
  {
    assert (log + [e])[..|log|] == log;
  }

  lemma PollerKeepsLogInv(reg: Registry, s: State, p: nat)
    requires Inv(reg, s) && p < |s.pollers| && PollerNext(reg, s, p).Some?
    ensures LogInv(reg, PollerNext(reg, s, p).value)
  {
    var s' := PollerNext(reg, s, p).value;
    assert PollerInv(reg, s, p);
    PollerHasEffect(reg, s, p);
    if s.pollers[p].pc.PollPublish? {
      LogGrows(reg, s, s', s.pollers[p].comp);
    } else {
      LogStable(reg, s, s');
    }
  }

  lemma PollerKeepsInv(reg: Registry, s: State, p: nat)
    requires Inv(reg, s) && PollerNext(reg, s, p).Some?
    ensures Inv(reg, PollerNext(reg, s, p).value)
  {
    var s' := PollerNext(reg, s, p).value;
    var me := ByPoller(p);
    assert PollerInv(reg, s, p);
    PollerHasEffect(reg, s, p);
    OthersStable(reg, s, s', me);
    WaiterStable(reg, s, s', me);
    WakeupStable(s, s');
    PollerKeepsLogInv(reg, s, p);
    if s.owner == me {
      PollerKeepsReadyInv(reg, s, p);
      forall i | 0 <= i < |reg| && s'.registered[i] ensures RegisteredBy(s', i) { RegisteredByKept(s, s', i); }
    } else {
      OutsideKeepsFlags(reg, s, s', me);
    }
  }

  /** Every step of every thread keeps the invariant. */
  lemma StepKeepsInv(reg: Registry, s: State, step: Step)
    requires Inv(reg, s) && Next(reg, s, step).Some?
    ensures Inv(reg, Next(reg, s, step).value)
  {
    match step
    case StartCall(name) => StartKeepsInv(reg, s, name);
    case CallStep(t) => CallKeepsInv(reg, s, t);
    case MainStep => MainKeepsInv(reg, s);
    case WaiterStep => WaiterKeepsInv(reg, s);
    case SpuriousWakeup => SpuriousKeepsInv(reg, s);
    case PollerStep(p) => PollerKeepsInv(reg, s, p);
  }

  lemma {:induction false} ExecKeepsInv(reg: Registry, s: State, steps: seq<Step>)
    requires Inv(reg, s) && Exec(reg, s, steps).Some?
    ensures Inv(reg, Exec(reg, s, steps).value)
    decreases |steps|
  {
    if steps != [] {
      StepKeepsInv(reg, s, steps[0]);
      ExecKeepsInv(reg, Next(reg, s, steps[0]).value, steps[1..]);
    }
  }

  lemma ReachableInv(reg: Registry, s: State)
    requires Reachable(reg, s)
    ensures Inv(reg, s)
  {
    InitInv(reg);
    var steps :| Exec(reg, Init(reg), steps) == Some(s);
    ExecKeepsInv(reg, Init(reg), steps);
  }
}
