/** Safety of the rbus protocol over all runs. */
module RbusSafety {
  import opened Wrappers
  import opened CStrings
  import opened RbusRegistry
  import opened RbusProtocol
  import opened RbusInvariant

  /** No lost wakeup. If the system is ready while the waiter sits in `pthread_cond_wait`, some call that saw it ready
      has yet to signal; once the mutex is free that call is past its unlock. */
  lemma NoLostWakeup(reg: Registry, s: State)
    requires Reachable(reg, s) && s.systemReady && s.waiter.Blocked?
    ensures exists t :: 0 <= t < |s.calls| && Signalling(s.calls[t])
                        && (if s.owner == ByCall(t) then s.calls[t].pc.Unlock? else InExit(s.calls[t].pc))
  {
    ReachableInv(reg, s);
    var t :| 0 <= t < |s.calls| && Signalling(s.calls[t]);
    assert CallInv(reg, s, t);
  }

  /** Unless a registration call is inside its ready check, `isSystemReady` says exactly whether every entry is
      registered. */
  lemma SystemReadyAgrees(reg: Registry, s: State)
    requires Reachable(reg, s) && |reg| > 0 && !CheckUnderWay(s)
    ensures s.systemReady <==> AllSet(s.registered)
  {
    ReachableInv(reg, s);
  }

  /** With no entries at all nobody but the waiter can find the system ready. */
  lemma EmptyRegistryReadyByWaiter(reg: Registry, s: State, step: Step)
    requires Reachable(reg, s) && |reg| == 0 && !s.systemReady
    requires Next(reg, s, step).Some? && Next(reg, s, step).value.systemReady
    ensures step.WaiterStep?
  {
    ReachableInv(reg, s);
    if step.CallStep? {
      CallHasEffect(reg, s, step.t);
    }
  }

  /** Flags, once set, stay set along every run. */
  lemma {:induction false} FlagsNeverCleared(reg: Registry, s: State, steps: seq<Step>)
    requires Inv(reg, s) && Exec(reg, s, steps).Some?
    ensures Grows(s.registered, Exec(reg, s, steps).value.registered)
    ensures Grows(s.ready, Exec(reg, s, steps).value.ready)
    ensures s.systemReady ==> Exec(reg, s, steps).value.systemReady
    decreases |steps|
  {
    if steps != [] {
      var s1 := Next(reg, s, steps[0]).value;
      StepGrows(reg, s, steps[0]);
      StepKeepsInv(reg, s, steps[0]);
      FlagsNeverCleared(reg, s1, steps[1..]);
      var s2 := Exec(reg, s1, steps[1..]).value;
      assert forall i :: 0 <= i < |reg| && s.registered[i] ==> s1.registered[i];
      assert forall i :: 0 <= i < |reg| && s.ready[i] ==> s1.ready[i];
    }
  }

  lemma StepGrows(reg: Registry, s: State, step: Step)
    requires Inv(reg, s) && Next(reg, s, step).Some?
    ensures var s' := Next(reg, s, step).value;
            Grows(s.registered, s'.registered) && Grows(s.ready, s'.ready) && (s.systemReady ==> s'.systemReady)
  {
    match step
    case CallStep(t) => CallHasEffect(reg, s, t);
    case WaiterStep => WaiterHasEffect(reg, s);
    case PollerStep(p) =>
      assert PollerInv(reg, s, p);
      PollerHasEffect(reg, s, p);
    case _ =>
  }

  /** SystemReady is published at most once in a run. */
  lemma PublishedAtMostOnce(reg: Registry, s: State)
    requires Reachable(reg, s)
    ensures Publications(s.log) <= 1
    ensures Publications(s.log) == 1 ==> s.systemReady && AllSet(s.registered)
  {
    ReachableInv(reg, s);
  }

  /** What holds at the instant of a publication. Every other step leaves the log alone. */
  lemma PublishedOnlyWhenReady(reg: Registry, s: State, step: Step)
    requires Reachable(reg, s) && Next(reg, s, step).Some? && Next(reg, s, step).value.log != s.log
    ensures exists e :: Next(reg, s, step).value.log == s.log + [e] &&
                        match e
                        case SystemReadyEvent => s.systemReady && AllSet(s.registered)
                        case DependencyEvent(c) =>
                          && c < |reg| && reg[c].dep.Some? && s.ready[c]
                          && s.registered[c] && AllNeedsMet(reg, s.registered, c)
  {
    ReachableInv(reg, s);
    match step
    case WaiterStep =>
      assert s.waiter.Publishing?;
      assert Next(reg, s, step).value.log == s.log + [SystemReadyEvent];
    case PollerStep(p) =>
      var c := s.pollers[p].comp;
      assert PollerInv(reg, s, p) && ReadyInvAt(reg, s, c);
      assert Next(reg, s, step).value.log == s.log + [DependencyEvent(c)];
    case CallStep(t) =>
      CallHasEffect(reg, s, t);
      assert false;
  }

  /** A blocked waiter wakes spuriously, or by the signal of a call whose check found the system ready, and that call
      always wakes it; woken, it has the mutex still to acquire. */
  lemma WakeupCause(reg: Registry, s: State, step: Step)
    requires Reachable(reg, s) && Shape(reg, s) && s.waiter.Blocked? && Next(reg, s, step).Some?
    ensures Next(reg, s, SpuriousWakeup) == Some(s.(waiter := Acquire))
    ensures var s' := Next(reg, s, step).value;
            && (s'.waiter.Blocked? || s'.waiter.Acquire?)
            && (s'.waiter.Acquire? <==>
                  || step.SpuriousWakeup?
                  || (step.CallStep? && step.t < |s.calls| && s.calls[step.t].pc.Signal? && s.calls[step.t].ok))
            && (s'.waiter.Acquire? && !step.SpuriousWakeup? ==> s.systemReady)
  {
    ReachableInv(reg, s);
    match step
    case CallStep(t) =>
      assert CallInv(reg, s, t);
      SignalWakes(reg, s, t);
    case PollerStep(p) =>
      assert PollerInv(reg, s, p);
      PollerHasEffect(reg, s, p);
    case _ =>
  }

  lemma SignalWakes(reg: Registry, s: State, t: nat)
    requires Shape(reg, s) && s.waiter.Blocked? && CallNext(reg, s, t).Some?
    ensures CallNext(reg, s, t).value.waiter == if s.calls[t].pc.Signal? && s.calls[t].ok then Acquire else s.waiter
  {
  }

  /** Events are published by the waiter or a poller, and never by a thread that holds the mutex. */
  lemma PublishedOutsideMutex(reg: Registry, s: State, step: Step)
    requires Reachable(reg, s) && Next(reg, s, step).Some? && Next(reg, s, step).value.log != s.log
    ensures (step.WaiterStep? && s.owner != ByWaiter) || (step.PollerStep? && s.owner != ByPoller(step.p))
  {
    ReachableInv(reg, s);
    match step
    case CallStep(t) =>
      CallHasEffect(reg, s, t);
      assert false;
    case PollerStep(p) => assert PollerInv(reg, s, p);
    case _ =>
  }

  /** The lock-free dependency scan is sound: although a poller reads its dependencies one at a time while calls go on,
      `ready` is set only in a state in which all of them are registered at once. */
  lemma ReadySetOnlyWhenNeedsMet(reg: Registry, s: State, step: Step, c: nat)
    requires Reachable(reg, s) && c < |reg| && reg[c].dep.Some? && !s.ready[c]
    requires Next(reg, s, step).Some? && Next(reg, s, step).value.ready[c]
    ensures step.PollerStep? && s.registered[c] && AllNeedsMet(reg, s.registered, c)
  {
    ReachableInv(reg, s);
    match step
    case CallStep(t) =>
      CallNeverReadies(reg, s, t, c);
    case PollerStep(p) => PollerReadies(reg, s, p, c);
    case _ =>
  }

  lemma PollerReadies(reg: Registry, s: State, p: nat, c: nat)
    requires Inv(reg, s) && PollerNext(reg, s, p).Some? && c < |reg| && !s.ready[c]
    requires c < |PollerNext(reg, s, p).value.ready| && PollerNext(reg, s, p).value.ready[c]
    ensures reg[c].dep.Some? && s.registered[c] && AllNeedsMet(reg, s.registered, c)
  {
    assert PollerInv(reg, s, p);
    assert s.pollers[p].pc.PollSetReady? && s.pollers[p].comp == c;
  }

  lemma CallNeverReadies(reg: Registry, s: State, t: nat, c: nat)
    requires Inv(reg, s) && CallNext(reg, s, t).Some? && c < |reg| && reg[c].dep.Some?
    ensures CallNext(reg, s, t).value.ready[c] == s.ready[c]
  {
    assert CallInv(reg, s, t);
  }

  /** A ready component with dependencies is registered and so are they, now and in every later state. */
  lemma ReadyStaysSound(reg: Registry, s: State, steps: seq<Step>, c: nat)
    requires Reachable(reg, s) && c < |reg| && reg[c].dep.Some? && s.ready[c] && Exec(reg, s, steps).Some?
    ensures var s' := Exec(reg, s, steps).value;
            s'.ready[c] && s'.registered[c] && AllNeedsMet(reg, s'.registered, c)
  {
    ReachableInv(reg, s);
    FlagsNeverCleared(reg, s, steps);
    ExecKeepsInv(reg, s, steps);
    assert ReadyInvAt(reg, Exec(reg, s, steps).value, c);
  }

  /** A component without dependencies is ready exactly when it is registered, except in the window between the two
      writes its registration makes under the mutex. */
  lemma ReadyVersusRegistered(reg: Registry, s: State, c: nat)
    requires Reachable(reg, s) && c < |reg|
    ensures reg[c].dep.Some? ==> (s.ready[c] ==> s.registered[c])
    ensures reg[c].dep.None? ==> (s.ready[c] <==> s.registered[c] || BetweenWrites(s, c))
  {
    ReachableInv(reg, s);
    assert ReadyInvAt(reg, s, c);
    if BetweenWrites(s, c) {
      assert CallInv(reg, s, s.owner.t);
    }
  }

  /** That window is real: CR's own registration passes through it. */
  lemma ReadyBeforeRegistered()
    ensures exists reg, s :: Reachable(reg, s) && |reg| == 1 && s.ready[0] && !s.registered[0]
  {
    var reg := [Component(CR_COMPONENT_ID, None)];
    ContainsSelf(CR_COMPONENT_ID);
    assert Find(reg, CR_COMPONENT_ID) == Some(0);
    var s := Init(reg);
    var s1 := Next(reg, s, CallStep(0)).value;
    var s2 := Next(reg, s1, CallStep(0)).value;
    var s3 := Next(reg, s2, CallStep(0)).value;
    assert Exec(reg, s3, []) == Some(s3);
    assert Exec(reg, s2, [CallStep(0)]) == Some(s3);
    assert Exec(reg, s1, [CallStep(0), CallStep(0)]) == Some(s3) by {
      assert [CallStep(0), CallStep(0)][1..] == [CallStep(0)];
    }
    assert Exec(reg, s, [CallStep(0), CallStep(0), CallStep(0)]) == Some(s3) by {
      assert [CallStep(0), CallStep(0), CallStep(0)][1..] == [CallStep(0), CallStep(0)];
    }
    assert Reachable(reg, s3);
  }

  /** A get on a component's event name answers that component's `ready` flag when no earlier event name extends it; a
      true answer then means the component and all its dependencies are registered. */
  lemma GetAgreesWithPublish(reg: Registry, s: State, i: nat)
    requires Reachable(reg, s) && HasEvent(reg, i)
    requires forall j :: 0 <= j < i && HasEvent(reg, j)
                         ==> !(reg[i].dep.value.event.value <= reg[j].dep.value.event.value)
    ensures var hit := FindEvent(reg, reg[i].dep.value.event.value, 0);
            hit == Some(i) && (s.ready[hit.value] ==> s.registered[i] && AllNeedsMet(reg, s.registered, i))
  {
    ReachableInv(reg, s);
    EventFindsOwnerIff(reg, i);
    assert ReadyInvAt(reg, s, i);
  }

  /** A poller with an event for component `c` in the log implies the get answers true from then on. */
  lemma PublishedEventGetsTrue(reg: Registry, s: State, k: nat)
    requires Reachable(reg, s) && k < |s.log| && s.log[k].DependencyEvent?
    ensures var c := s.log[k].comp;
            c < |reg| && reg[c].dep.Some? && s.ready[c] && s.registered[c] && AllNeedsMet(reg, s.registered, c)
  {
    ReachableInv(reg, s);
    assert DependencyEventDue(reg, s, s.log[k].comp);
    assert ReadyInvAt(reg, s, s.log[k].comp);
  }

  /** The names under which registrations have set a flag so far. */
  ghost function NamesWritten(s: State): set<string> {
    set t | 0 <= t < |s.calls| && HasWritten(s.calls[t]) :: s.calls[t].name
  }

  lemma RegisteredIffNameWritten(reg: Registry, s: State, c: nat)
    requires Inv(reg, s) && c < |reg|
    ensures s.registered[c] <==> exists name :: name in NamesWritten(s) && Find(reg, name) == Some(c)
  {
    if s.registered[c] {
      assert RegisteredBy(s, c);
      var t :| 0 <= t < |s.calls| && HasWritten(s.calls[t]) && s.calls[t].comp == Some(c);
      assert CallInv(reg, s, t);
      assert s.calls[t].name in NamesWritten(s);
    }
    if name :| name in NamesWritten(s) && Find(reg, name) == Some(c) {
      var t :| 0 <= t < |s.calls| && HasWritten(s.calls[t]) && s.calls[t].name == name;
      assert CallInv(reg, s, t);
    }
  }

  /** Dependencies never hold readiness back: two runs, on registries that list the same names with any dependency data,
      that have registered under the same names agree on every `registered` flag and on `isSystemReady`. */
  lemma DependenciesNeverBlock(reg: Registry, s: State, reg': Registry, s': State)
    requires SameNames(reg, reg') && Reachable(reg, s) && Reachable(reg', s')
    requires NamesWritten(s) == NamesWritten(s')
    ensures s.registered == s'.registered
    ensures |reg| > 0 && !CheckUnderWay(s) && !CheckUnderWay(s') ==> s.systemReady == s'.systemReady
  {
    ReachableInv(reg, s);
    ReachableInv(reg', s');
    forall c | 0 <= c < |reg|
      ensures s.registered[c] == s'.registered[c]
    {
      RegisteredIffNameWritten(reg, s, c);
      RegisteredIffNameWritten(reg', s', c);
      forall name ensures Find(reg, name) == Find(reg', name) { FindIgnoresDependencies(reg, reg', name); }
    }
  }

  ghost predicate NamesAnEntry(reg: Registry, name: string) {
    exists j :: 0 <= j < |reg| && Contains(name, reg[j].name)
  }

  /** In any state the next read of a scan succeeds exactly when the first entry whose name the dependency contains is
      registered; otherwise the poller goes to sleep. */
  lemma ScanStepResolves(reg: Registry, s: State, p: nat, i: nat)
    requires Inv(reg, s) && p < |s.pollers| && s.pollers[p].pc == PollScan(i)
    requires i < |reg[s.pollers[p].comp].dep.value.needs|
    ensures var after, name := Next(reg, s, PollerStep(p)), reg[s.pollers[p].comp].dep.value.needs[i];
            && after.Some? && p < |after.value.pollers|
            && after.value.pollers[p].pc ==
               (if FirstIsRegistered(reg, s.registered, name) then PollScan(i + 1) else PollSleep)
  {
    var name := reg[s.pollers[p].comp].dep.value.needs[i];
    var k := Find(reg, name);
    if FirstIsRegistered(reg, s.registered, name) {
      var j :| 0 <= j < |reg| && IsFirst(reg, name, j) && s.registered[j];
      assert k == Some(j);
    } else if k.Some? {
      assert IsFirst(reg, name, k.value);
    }
  }

  ghost predicate IsFirst(reg: Registry, name: string, k: nat)
    requires k < |reg|
  {
    Contains(name, reg[k].name) && forall j :: 0 <= j < k ==> !Contains(name, reg[j].name)
  }

  ghost predicate FirstIsRegistered(reg: Registry, registered: seq<bool>, name: string)
    requires |registered| == |reg|
  {
    exists k :: 0 <= k < |reg| && IsFirst(reg, name, k) && registered[k]
  }

  /** In a ready system the next read of a scan succeeds exactly when the name it looks up contains some entry's name,
      whatever the other threads do in between. */
  lemma ScanStepIff(reg: Registry, s: State, p: nat, i: nat)
    requires Inv(reg, s) && s.systemReady && p < |s.pollers| && s.pollers[p].pc == PollScan(i)
    requires i < |reg[s.pollers[p].comp].dep.value.needs|
    ensures var after := Next(reg, s, PollerStep(p));
            after.Some? && |after.value.pollers| == |s.pollers| && after.value.pollers[p].comp == s.pollers[p].comp &&
            after.value.pollers[p].pc == if NamesAnEntry(reg, reg[s.pollers[p].comp].dep.value.needs[i])
                                         then PollScan(i + 1) else PollSleep
  {
  }
}
