/** The polling threads over whole runs: when one exists, when a registration creates one, and that in every reachable
    state a dependency event can still be published. */
module RbusPollers {
  import opened Wrappers
  import opened RbusRegistry
  import opened RbusProtocol
  import opened RbusInvariant
  import opened RbusProgress
  import opened RbusSchedules

  /** Some poller of component `c` has not exited. */
  ghost predicate HasLive(s: State, c: nat) {
    exists p :: 0 <= p < |s.pollers| && LiveAt(s, p, c)
  }

  predicate LiveAt(s: State, p: nat, c: nat)
    requires p < |s.pollers|
  {
    s.pollers[p].comp == c && !s.pollers[p].pc.PollExited?
  }

  ghost predicate MonitorInv(reg: Registry, s: State)
    requires Shape(reg, s)
  {
    forall c :: 0 <= c < |reg| && s.monitor[c] ==> HasLive(s, c)
  }

  /** What a registration step does to monitors and pollers: nothing, unless it creates a thread. */
  lemma CallMonitors(reg: Registry, s: State, t: nat)
    requires Shape(reg, s) && CallNext(reg, s, t).Some?
    ensures var s' := CallNext(reg, s, t).value;
            if s.calls[t].pc.Spawn?
            then var c := s.calls[t].comp.value;
                 c < |reg| && s'.monitor == s.monitor[c := true] && s'.pollers == s.pollers + [Poller(c, PollScan(0))]
            else s'.monitor == s.monitor && s'.pollers == s.pollers
  {
  }

  /** What a poller step does to monitors: nothing, unless it is the poller's last, which clears its component's. */
  lemma PollerMonitors(reg: Registry, s: State, p: nat)
    requires Shape(reg, s) && PollerNext(reg, s, p).Some?
    ensures var s', c := PollerNext(reg, s, p).value, s.pollers[p].comp;
            && |s'.pollers| == |s.pollers| && s'.pollers[p].comp == c && c < |reg|
            && (forall q :: 0 <= q < |s.pollers| && q != p ==> s'.pollers[q] == s.pollers[q])
            && if s.pollers[p].pc.PollClear?
               then s'.monitor == s.monitor[c := false] && s'.pollers[p].pc.PollExited?
               else s'.monitor == s.monitor && !s'.pollers[p].pc.PollExited?
  {
  }

  lemma CallKeepsMonitorInv(reg: Registry, s: State, t: nat)
    requires Shape(reg, s) && MonitorInv(reg, s) && CallNext(reg, s, t).Some?
    ensures MonitorInv(reg, CallNext(reg, s, t).value)
  {
    var s' := CallNext(reg, s, t).value;
    CallMonitors(reg, s, t);
    forall c | 0 <= c < |reg| && s'.monitor[c]
      ensures HasLive(s', c)
    {
      if s.monitor[c] {
        var p :| 0 <= p < |s.pollers| && LiveAt(s, p, c);
        assert LiveAt(s', p, c);
      } else {
        assert LiveAt(s', |s.pollers|, c);
      }
    }
  }

  lemma PollerKeepsMonitorInv(reg: Registry, s: State, p: nat)
    requires Shape(reg, s) && MonitorInv(reg, s) && PollerNext(reg, s, p).Some?
    ensures MonitorInv(reg, PollerNext(reg, s, p).value)
  {
    var s' := PollerNext(reg, s, p).value;
    PollerMonitors(reg, s, p);
    forall c | 0 <= c < |reg| && s'.monitor[c]
      ensures HasLive(s', c)
    {
      var q :| 0 <= q < |s.pollers| && LiveAt(s, q, c);
      assert LiveAt(s', q, c);
    }
  }

  lemma StepKeepsMonitorInv(reg: Registry, s: State, step: Step)
    requires Inv(reg, s) && MonitorInv(reg, s) && Next(reg, s, step).Some?
    ensures MonitorInv(reg, Next(reg, s, step).value)
  {
    match step
    case CallStep(t) => CallKeepsMonitorInv(reg, s, t);
    case PollerStep(p) => PollerKeepsMonitorInv(reg, s, p);
    case WaiterStep => WaiterKeepsMonitors(reg, s);
    case _ =>
      var s' := Next(reg, s, step).value;
      SameMonitors(reg, s, s');
  }

  lemma WaiterKeepsMonitors(reg: Registry, s: State)
    requires Shape(reg, s) && MonitorInv(reg, s) && WaiterNext(reg, s).Some?
    ensures MonitorInv(reg, WaiterNext(reg, s).value)
  {
    SameMonitors(reg, s, WaiterNext(reg, s).value);
  }

  lemma SameMonitors(reg: Registry, s: State, s': State)
    requires Shape(reg, s) && Shape(reg, s') && MonitorInv(reg, s) && s'.monitor == s.monitor && s'.pollers == s.pollers
    ensures MonitorInv(reg, s')
  {
    forall c | 0 <= c < |reg| && s'.monitor[c]
      ensures HasLive(s', c)
    {
      var p :| 0 <= p < |s.pollers| && LiveAt(s, p, c);
      assert LiveAt(s', p, c);
    }
  }

  lemma {:induction false} ExecKeepsMonitorInv(reg: Registry, s: State, steps: seq<Step>)
    requires Inv(reg, s) && MonitorInv(reg, s) && Exec(reg, s, steps).Some?
    ensures MonitorInv(reg, Exec(reg, s, steps).value)
    decreases |steps|
  {
    if steps != [] {
      StepKeepsInv(reg, s, steps[0]);
      StepKeepsMonitorInv(reg, s, steps[0]);
      ExecKeepsMonitorInv(reg, Next(reg, s, steps[0]).value, steps[1..]);
    }
  }

  /** In every reachable state a component whose monitor is set has a poller that has not exited. */
  lemma MonitorHasPoller(reg: Registry, s: State, c: nat)
    requires Reachable(reg, s) && c < |reg| && c < |s.monitor| && s.monitor[c]
    ensures HasLive(s, c)
  {
    InitInv(reg);
    var steps :| Exec(reg, Init(reg), steps) == Some(s);
    ExecKeepsMonitorInv(reg, Init(reg), steps);
  }

  /** What a registration of a component with dependencies does once it has released the mutex: a set monitor means a
      poller is there and none is added; a clear one sends it to create a poller and set the monitor. */
  lemma RegistrationWatches(reg: Registry, s: State, t: nat)
    requires Reachable(reg, s) && Shape(reg, s) && t < |s.calls| && (s.calls[t].pc.TestMonitor? || s.calls[t].pc.Spawn?)
    ensures CallNext(reg, s, t).Some?
    ensures var s', c := CallNext(reg, s, t).value, s.calls[t].comp.value;
            && c < |reg| && t < |s'.calls|
            && if s.calls[t].pc.Spawn?
               then s'.monitor == s.monitor[c := true] && s'.pollers == s.pollers + [Poller(c, PollScan(0))]
                    && HasLive(s', c) && s'.calls[t].pc.Signal?
               else s'.monitor == s.monitor && s'.pollers == s.pollers
                    && if s.monitor[c] then s'.calls[t].pc.Signal? && HasLive(s', c) else s'.calls[t].pc.Spawn?
  {
    CallMonitors(reg, s, t);
    var s', c := CallNext(reg, s, t).value, s.calls[t].comp.value;
    if s.calls[t].pc.Spawn? {
      assert LiveAt(s', |s.pollers|, c);
    } else if s.monitor[c] {
      MonitorHasPoller(reg, s, c);
      var p :| 0 <= p < |s.pollers| && LiveAt(s, p, c);
      assert LiveAt(s', p, c);
    }
  }

  /** Steps the thread that holds the mutex takes, at most, before it lets go. */
  function HoldRank(reg: Registry, s: State): nat {
    match s.owner
    case Free => 0
    case ByCall(t) => if t < |s.calls| then CallRank(|reg|, s.calls[t].pc) + 1 else 0
    case ByPoller(p) => HolderRank(s)
    case ByWaiter =>
      (match s.waiter
       case Checking(check) => 3 + CheckRank(|reg|, check)
       case TestStarted => 2
       case _ => 1)
  }

  function HolderStep(s: State): Step {
    match s.owner
    case ByCall(t) => CallStep(t)
    case ByPoller(p) => PollerStep(p)
    case _ => WaiterStep
  }

  ghost predicate HolderProgress(reg: Registry, s: State, s': State) {
    && s'.log == s.log && |s'.calls| == |s.calls|
    && Grows(s.registered, s'.registered)
    && (s'.owner.Free? || (s'.owner == s.owner && HoldRank(reg, s') < HoldRank(reg, s)))
  }

  lemma CallHolderMoves(reg: Registry, s: State, t: nat)
    requires Inv(reg, s) && s.owner == ByCall(t)
    ensures CallNext(reg, s, t).Some? && HolderProgress(reg, s, CallNext(reg, s, t).value)
  {
    assert CallInv(reg, s, t);
    CallEnabled(reg, s, t);
    CallHasEffect(reg, s, t);
    CallRankDrops(reg, s, t);
  }

  lemma PollerHolderMoves(reg: Registry, s: State, p: nat)
    requires Inv(reg, s) && s.owner == ByPoller(p)
    ensures PollerNext(reg, s, p).Some? && HolderProgress(reg, s, PollerNext(reg, s, p).value)
  {
    assert PollerInv(reg, s, p);
    HolderStepDrops(reg, s, p);
  }

  lemma WaiterHolderMoves(reg: Registry, s: State)
    requires Inv(reg, s) && s.owner == ByWaiter
    ensures WaiterNext(reg, s).Some? && HolderProgress(reg, s, WaiterNext(reg, s).value)
  {
  }

  lemma HolderMoves(reg: Registry, s: State)
    requires Inv(reg, s) && !s.owner.Free?
    ensures Next(reg, s, HolderStep(s)).Some? && HolderProgress(reg, s, Next(reg, s, HolderStep(s)).value)
  {
    match s.owner
    case ByCall(t) => CallHolderMoves(reg, s, t);
    case ByPoller(p) => PollerHolderMoves(reg, s, p);
    case ByWaiter => WaiterHolderMoves(reg, s);
  }

  /** From any state the holder of the mutex can be run until it lets go. */
  lemma {:induction false} FreeMutex(reg: Registry, s: State) returns (s': State)
    requires Inv(reg, s)
    ensures LeadsTo(reg, s, s') && Inv(reg, s') && s'.owner.Free? && s'.log == s.log
    decreases HoldRank(reg, s)
  {
    if s.owner.Free? {
      s' := s;
      LeadsToSelf(reg, s);
    } else {
      HolderMoves(reg, s);
      var s1 := Next(reg, s, HolderStep(s)).value;
      StepKeepsInv(reg, s, HolderStep(s));
      if s1.owner.Free? {
        s' := s1;
        LeadsToSelf(reg, s1);
      } else {
        s' := FreeMutex(reg, s1);
      }
      LeadsToStep(reg, s, HolderStep(s), s');
    }
  }

  /** Call `t` is going to create a poller for `c` if it runs alone. */
  predicate WillSpawn(reg: Registry, s: State, t: nat, c: nat)
    requires Shape(reg, s) && t < |s.calls| && c < |reg|
  {
    var call := s.calls[t];
    && reg[c].dep.Some? && !call.pc.Signal? && !call.pc.Returned?
    && (if call.pc.Lookup? then Find(reg, call.name) == Some(c) else call.comp == Some(c))
    && (call.pc.Spawn? || !s.monitor[c])
  }

  ghost predicate SpawnPending(reg: Registry, s: State, t: nat, c: nat, pollers: seq<Poller>)
    requires Shape(reg, s) && t < |s.calls| && c < |reg|
  {
    if s.pollers == pollers then WillSpawn(reg, s, t, c)
    else s.pollers == pollers + [Poller(c, PollScan(0))] && (s.calls[t].pc.Signal? || s.calls[t].pc.Returned?)
  }

  lemma SpawnGoesOn(reg: Registry, s: State, t: nat, c: nat, pollers: seq<Poller>)
    requires Inv(reg, s) && t < |s.calls| && c < |reg| && CallNext(reg, s, t).Some?
    requires SpawnPending(reg, s, t, c, pollers)
    ensures var s' := CallNext(reg, s, t).value; t < |s'.calls| && SpawnPending(reg, s', t, c, pollers)
  {
    CallMonitors(reg, s, t);
    assert CallInv(reg, s, t);
  }

  /** A call that finds the mutex free, or holds it, can be run to its end alone; it publishes nothing, and if it is to
      create a poller it does. */
  lemma {:induction false} RunCall(reg: Registry, s: State, t: nat, c: nat, pollers: seq<Poller>) returns (s': State)
    requires Inv(reg, s) && t < |s.calls| && (s.owner.Free? || s.owner == ByCall(t)) && c < |reg|
    ensures LeadsTo(reg, s, s') && Inv(reg, s') && s'.owner.Free? && s'.log == s.log
    ensures Grows(s.registered, s'.registered) && |s'.calls| == |s.calls|
    ensures s'.calls[t].pc.Returned? && s'.calls[t].name == s.calls[t].name
    ensures SpawnPending(reg, s, t, c, pollers) ==> SpawnPending(reg, s', t, c, pollers)
    decreases CallRank(|reg|, s.calls[t].pc)
  {
    assert CallInv(reg, s, t);
    if s.calls[t].pc.Returned? {
      LeadsToSelf(reg, s);
      return s;
    }
    CallEnabled(reg, s, t);
    var s1 := CallNext(reg, s, t).value;
    CallHasEffect(reg, s, t);
    CallRankDrops(reg, s, t);
    CallKeepsInv(reg, s, t);
    CallKeepsName(reg, s, t);
    if SpawnPending(reg, s, t, c, pollers) { SpawnGoesOn(reg, s, t, c, pollers); }
    s' := RunCall(reg, s1, t, c, pollers);
    LeadsToStep(reg, s, CallStep(t), s');
    GrowsFurther(s.registered, s1.registered, s'.registered);
  }

  lemma LeadsFurther(reg: Registry, a: State, b: State, c: State)
    requires Shape(reg, a) && LeadsTo(reg, a, b) && Shape(reg, b) && LeadsTo(reg, b, c)
    ensures LeadsTo(reg, a, c)
  {
    var first :| Exec(reg, a, first) == Some(b);
    var rest :| Exec(reg, b, rest) == Some(c);
    ExecAppend(reg, a, first, rest);
  }

  /** From any state with the mutex free the entry at `i` can be registered, if it is not shadowed. */
  lemma RegisterEntry(reg: Registry, s: State, i: nat) returns (s': State)
    requires Inv(reg, s) && s.owner.Free? && i < |reg|
    ensures LeadsTo(reg, s, s') && Inv(reg, s') && s'.owner.Free? && s'.log == s.log
    ensures Grows(s.registered, s'.registered) && (!Shadowed(reg, i) ==> s'.registered[i])
  {
    var name, t := reg[i].name, |s.calls|;
    var s1 := Next(reg, s, StartCall(name)).value;
    StartKeepsInv(reg, s, name);
    s' := RunCall(reg, s1, t, i, []);
    LeadsToStep(reg, s, StartCall(name), s');
    FoundByIffNotShadowed(reg, i);
    assert CallInv(reg, s', t);
  }

  lemma {:induction false} RegisterEach(reg: Registry, s: State, k: nat) returns (s': State)
    requires Inv(reg, s) && s.owner.Free? && k <= |reg|
    ensures LeadsTo(reg, s, s') && Inv(reg, s') && s'.owner.Free? && s'.log == s.log
    ensures forall i :: 0 <= i < k && !Shadowed(reg, i) ==> s'.registered[i]
    decreases k
  {
    if k == 0 {
      s' := s;
      LeadsToSelf(reg, s);
    } else {
      var s1 := RegisterEach(reg, s, k - 1);
      s' := RegisterEntry(reg, s1, k - 1);
      LeadsFurther(reg, s, s1, s');
      assert forall i :: 0 <= i < |reg| && s1.registered[i] ==> s'.registered[i];
    }
  }

  /** After its event has been published and all its pollers have exited, a component that registers once more gets one
      more poller, which can be run to one more event. */
  lemma RegisteredAgain(reg: Registry, s: State, c: nat, name: string) returns (s': State)
    requires Reachable(reg, s) && Inv(reg, s) && s.owner.Free? && c < |reg| && reg[c].dep.Some?
    requires Find(reg, name) == Some(c) && AllNeedsMet(reg, s.registered, c) && !HasLive(s, c)
    ensures LeadsTo(reg, Next(reg, s, StartCall(name)).value, s')
    ensures s'.log == s.log + [DependencyEvent(c)]
  {
    if s.monitor[c] { MonitorHasPoller(reg, s, c); }
    s' := UnwatchedAgain(reg, s, c, name);
  }

  lemma UnwatchedAgain(reg: Registry, s: State, c: nat, name: string) returns (s': State)
    requires Inv(reg, s) && s.owner.Free? && c < |reg| && reg[c].dep.Some? && !s.monitor[c]
    requires Find(reg, name) == Some(c) && AllNeedsMet(reg, s.registered, c)
    ensures LeadsTo(reg, Next(reg, s, StartCall(name)).value, s') && s'.log == s.log + [DependencyEvent(c)]
  {
    var t := |s.calls|;
    var s1 := Next(reg, s, StartCall(name)).value;
    StartKeepsInv(reg, s, name);
    assert WillSpawn(reg, s1, t, c);
    var s2 := RunCall(reg, s1, t, c, s.pollers);
    assert !WillSpawn(reg, s2, t, c);
    var p := |s.pollers|;
    assert s2.pollers[p] == Poller(c, PollScan(0));
    NeedsStayMet(reg, s.registered, s2.registered, c);
    s' := PollerPublishes(reg, s2, p);
    LeadsFurther(reg, s1, s2, s');
  }

  lemma NeedsStayMet(reg: Registry, before: seq<bool>, after: seq<bool>, c: nat)
    requires c < |reg| && reg[c].dep.Some? && AllNeedsMet(reg, before, c) && Grows(before, after)
    ensures AllNeedsMet(reg, after, c)
  {
    forall d | 0 <= d < |reg[c].dep.value.needs|
      ensures Resolved(reg, after, reg[c].dep.value.needs[d])
    {
      assert Resolved(reg, before, reg[c].dep.value.needs[d]);
    }
  }

  /** A state from which, with the dependencies registered and the mutex free, one more event is at hand. */
  lemma OneMoreEvent(reg: Registry, s: State, c: nat) returns (s': State)
    requires Inv(reg, s) && MonitorInv(reg, s) && s.owner.Free? && c < |reg| && reg[c].dep.Some? && !Shadowed(reg, c)
    requires AllNeedsMet(reg, s.registered, c)
    ensures LeadsTo(reg, s, s') && s'.log == s.log + [DependencyEvent(c)]
  {
    FoundByIffNotShadowed(reg, c);
    if p :| 0 <= p < |s.pollers| && LiveAt(s, p, c) {
      if s.pollers[p].pc.PollClear? {
        var s1 := PollerNext(reg, s, p).value;
        PollerMonitors(reg, s, p);
        PollerKeepsInv(reg, s, p);
        ClearStep(reg, s, p);
        s' := UnwatchedAgain(reg, s1, c, reg[c].name);
        LeadsToStep(reg, s1, StartCall(reg[c].name), s');
        LeadsToStep(reg, s, PollerStep(p), s');
      } else {
        s' := PollerPublishes(reg, s, p);
      }
    } else {
      s' := UnwatchedAgain(reg, s, c, reg[c].name);
      LeadsToStep(reg, s, StartCall(reg[c].name), s');
    }
  }

  lemma ClearStep(reg: Registry, s: State, p: nat)
    requires Shape(reg, s) && p < |s.pollers| && s.pollers[p].pc.PollClear?
    ensures Next(reg, s, PollerStep(p)).Some?
    ensures var s' := PollerNext(reg, s, p).value;
            s'.log == s.log && s'.registered == s.registered && s'.owner == s.owner
  {
  }

  /** Whatever has happened so far, a component that is not shadowed and whose dependencies name entries can have its
      event published once more: in no reachable state has a poller been lost or a registration made useless. */
  lemma EventAlwaysPossible(reg: Registry, s: State, c: nat)
    requires Reachable(reg, s) && Shape(reg, s) && c < |reg| && reg[c].dep.Some? && Awaitable(reg, c)
    ensures exists s' :: LeadsTo(reg, s, s') && s'.log == s.log + [DependencyEvent(c)]
  {
    ReachableInv(reg, s);
    var s1 := FreeMutex(reg, s);
    var s2 := RegisterEach(reg, s1, |reg|);
    LeadsFurther(reg, s, s1, s2);
    NeedsResolve(reg, s2, c);
    var steps :| Exec(reg, s, steps) == Some(s2);
    ReachableMonitors(reg, s);
    ExecKeepsMonitorInv(reg, s, steps);
    var s' := OneMoreEvent(reg, s2, c);
    LeadsFurther(reg, s, s2, s');
  }

  lemma ReachableMonitors(reg: Registry, s: State)
    requires Reachable(reg, s) && Shape(reg, s)
    ensures MonitorInv(reg, s)
  {
    forall c | 0 <= c < |reg| && s.monitor[c]
      ensures HasLive(s, c)
    {
      MonitorHasPoller(reg, s, c);
    }
  }
}
