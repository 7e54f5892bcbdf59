/** Results on stretches of one thread's work inside any schedule: other threads may take any steps in between. */
module RbusSchedules {
  import opened Wrappers
  import opened RbusRegistry
  import opened RbusProtocol
  import opened RbusInvariant
  import opened RbusSafety
  import opened RbusProgress

  /** What a step of another thread leaves alone while call `t` holds the mutex. */
  lemma OthersKeepCall(reg: Registry, s: State, step: Step, t: nat)
    requires Inv(reg, s) && Next(reg, s, step).Some? && step != CallStep(t) && t < |s.calls|
    ensures var s' := Next(reg, s, step).value;
            && t < |s'.calls| && s'.calls[t] == s.calls[t]
            && (s.owner == ByCall(t) ==>
                  s'.registered == s.registered && s'.ready == s.ready && s'.systemReady == s.systemReady)
  {
    match step
    case CallStep(u) => CallHasEffect(reg, s, u);
    case WaiterStep => WaiterHasEffect(reg, s);
    case PollerStep(p) =>
      assert PollerInv(reg, s, p);
      PollerHasEffect(reg, s, p);
    case _ =>
  }

  /** What a step of another thread leaves alone in poller `p`. */
  lemma OthersKeepPoller(reg: Registry, s: State, step: Step, p: nat)
    requires Inv(reg, s) && Next(reg, s, step).Some? && step != PollerStep(p) && p < |s.pollers|
    ensures var s' := Next(reg, s, step).value; p < |s'.pollers| && s'.pollers[p] == s.pollers[p]
  {
    match step
    case CallStep(t) => CallHasEffect(reg, s, t);
    case WaiterStep => WaiterHasEffect(reg, s);
    case PollerStep(q) =>
      assert PollerInv(reg, s, q);
      PollerHasEffect(reg, s, q);
    case _ =>
  }

  /** A call that is past its locked part never gets back into it. */
  lemma {:induction false} OutForGood(reg: Registry, s: State, t: nat, steps: seq<Step>)
    requires Inv(reg, s) && t < |s.calls| && (InExit(s.calls[t].pc) || s.calls[t].pc.Returned?)
    requires Exec(reg, s, steps).Some?
    ensures var s' := Exec(reg, s, steps).value; t < |s'.calls| && !InCritical(s'.calls[t].pc)
    decreases |steps|
  {
    if steps != [] {
      var s1 := Next(reg, s, steps[0]).value;
      StepKeepsInv(reg, s, steps[0]);
      if steps[0] == CallStep(t) {
        ExitGoesOn(reg, s, t);
      } else {
        OthersKeepCall(reg, s, steps[0], t);
      }
      OutForGood(reg, s1, t, steps[1..]);
    }
  }

  lemma ExitGoesOn(reg: Registry, s: State, t: nat)
    requires Inv(reg, s) && t < |s.calls| && !InEntry(s.calls[t].pc) && !InCritical(s.calls[t].pc)
    requires CallNext(reg, s, t).Some?
    ensures var s' := CallNext(reg, s, t).value;
            t < |s'.calls| && (InExit(s'.calls[t].pc) || s'.calls[t].pc.Returned?)
  {
  }

  lemma UnlockLeaves(reg: Registry, s: State, t: nat)
    requires Inv(reg, s) && t < |s.calls| && s.calls[t].pc.Unlock? && CallNext(reg, s, t).Some?
    ensures var s' := CallNext(reg, s, t).value; t < |s'.calls| && InExit(s'.calls[t].pc)
  {
    assert CallInv(reg, s, t);
  }

  /** One step of any thread while call `t` is in its locked part: the call goes on towards the same flags, or it
      leaves. */
  lemma LockedAnyStep(reg: Registry, s: State, t: nat, registered: seq<bool>, ready: seq<bool>, step: Step)
    requires Inv(reg, s) && t < |s.calls| && InCritical(s.calls[t].pc) && LockedEffect(reg, s, t, registered, ready)
    requires Next(reg, s, step).Some?
    ensures var s' := Next(reg, s, step).value;
            && t < |s'.calls|
            && if InCritical(s'.calls[t].pc)
               then LockedEffect(reg, s', t, registered, ready) && (s.systemReady ==> s'.systemReady)
               else InExit(s'.calls[t].pc)
  {
    assert CallInv(reg, s, t);
    if step != CallStep(t) {
      OthersKeepCall(reg, s, step, t);
    } else if s.calls[t].pc.Unlock? {
      UnlockLeaves(reg, s, t);
    } else {
      LockedStep(reg, s, t, registered, ready);
    }
  }

  /** However a schedule mixes the reads and writes of a locked part with steps of other threads, its call goes on
      towards the same flags as long as it is inside. */
  lemma {:induction false} LockedAnyhow(reg: Registry, s: State, t: nat, registered: seq<bool>, ready: seq<bool>,
                                        steps: seq<Step>)
    requires Inv(reg, s) && t < |s.calls| && InCritical(s.calls[t].pc) && LockedEffect(reg, s, t, registered, ready)
    requires Exec(reg, s, steps).Some? && t < |Exec(reg, s, steps).value.calls|
    requires InCritical(Exec(reg, s, steps).value.calls[t].pc)
    ensures var s' := Exec(reg, s, steps).value;
            LockedEffect(reg, s', t, registered, ready) && (s.systemReady ==> s'.systemReady)
    decreases |steps|
  {
    if steps != [] {
      var s1 := Next(reg, s, steps[0]).value;
      StepKeepsInv(reg, s, steps[0]);
      LockedAnyStep(reg, s, t, registered, ready, steps[0]);
      if InExit(s1.calls[t].pc) {
        OutForGood(reg, s1, t, steps[1..]);
      } else {
        LockedAnyhow(reg, s1, t, registered, ready, steps[1..]);
      }
    }
  }

  /** In every schedule that takes a call from inside its locked part to its unlock, the flags it leaves and its verdict
      are those of one uninterrupted `RbusHandlers.CrData.RegisterLocked`. */
  lemma LockedSection(reg: Registry, s: State, t: nat, registered: seq<bool>, ready: seq<bool>, steps: seq<Step>)
    requires Inv(reg, s) && t < |s.calls| && InCritical(s.calls[t].pc) && LockedEffect(reg, s, t, registered, ready)
    requires Exec(reg, s, steps).Some? && t < |Exec(reg, s, steps).value.calls|
    requires Exec(reg, s, steps).value.calls[t].pc.Unlock?
    ensures var s' := Exec(reg, s, steps).value;
            && s'.registered == registered && s'.ready == ready
            && (s'.systemReady <==> s.systemReady || AllSet(registered))
            && (s'.calls[t].ok <==> s'.systemReady)
  {
    LockedAnyhow(reg, s, t, registered, ready, steps);
    ExecKeepsInv(reg, s, steps);
    LockedVerdict(reg, Exec(reg, s, steps).value, t);
  }

  /** How many of the steps poller `p` takes. */
  function Own(steps: seq<Step>, p: nat): nat {
    if steps == [] then 0 else (if steps[0] == PollerStep(p) then 1 else 0) + Own(steps[1..], p)
  }

  lemma {:induction false} NoOwnSteps(reg: Registry, s: State, p: nat, steps: seq<Step>)
    requires Inv(reg, s) && p < |s.pollers| && Exec(reg, s, steps).Some? && Own(steps, p) == 0
    ensures var s' := Exec(reg, s, steps).value; p < |s'.pollers| && s'.pollers[p] == s.pollers[p]
    decreases |steps|
  {
    if steps != [] {
      StepKeepsInv(reg, s, steps[0]);
      OthersKeepPoller(reg, s, steps[0], p);
      NoOwnSteps(reg, Next(reg, s, steps[0]).value, p, steps[1..]);
    }
  }

  lemma {:induction false} PollerStays(reg: Registry, s: State, p: nat, steps: seq<Step>)
    requires Inv(reg, s) && p < |s.pollers| && Exec(reg, s, steps).Some?
    ensures var s' := Exec(reg, s, steps).value; p < |s'.pollers| && s'.pollers[p].comp == s.pollers[p].comp
    decreases |steps|
  {
    if steps != [] {
      StepKeepsInv(reg, s, steps[0]);
      if steps[0] == PollerStep(p) {
        PollerKeepsComp(reg, s, p);
      } else {
        OthersKeepPoller(reg, s, steps[0], p);
      }
      PollerStays(reg, Next(reg, s, steps[0]).value, p, steps[1..]);
    }
  }

  lemma PollerKeepsComp(reg: Registry, s: State, p: nat)
    requires Shape(reg, s) && p < |s.pollers| && PollerNext(reg, s, p).Some?
    ensures var s' := PollerNext(reg, s, p).value; p < |s'.pollers| && s'.pollers[p].comp == s.pollers[p].comp
  {
  }

  ghost predicate AllNamed(reg: Registry, names: seq<string>) {
    forall d :: 0 <= d < |names| ==> NamesAnEntry(reg, names[d])
  }

  /** The dependencies that poller `p` looks up. */
  function NeedsOf(reg: Registry, s: State, p: nat): seq<string>
    requires Shape(reg, s) && p < |s.pollers|
  {
    reg[s.pollers[p].comp].dep.value.needs
  }

  lemma LastScanStep(reg: Registry, s: State, p: nat)
    requires Inv(reg, s) && p < |s.pollers| && s.pollers[p].pc == PollScan(|NeedsOf(reg, s, p)|)
    ensures var after := Next(reg, s, PollerStep(p));
            after.Some? && p < |after.value.pollers| && after.value.pollers[p].pc == PollLock
  {
  }

  /** A scan that has come to dependency `i` in a ready system, if all dependencies name entries: as soon as the
      schedule has given the poller one step for each of them and one more, it is past the scan. */
  lemma {:induction false} PassGetsThrough(reg: Registry, s: State, p: nat, i: nat, steps: seq<Step>)
    requires Inv(reg, s) && s.systemReady && p < |s.pollers| && s.pollers[p].pc == PollScan(i)
    requires AllNamed(reg, NeedsOf(reg, s, p))
    requires Exec(reg, s, steps).Some? && Own(steps, p) == |NeedsOf(reg, s, p)| - i + 1
    ensures var s' := Exec(reg, s, steps).value; p < |s'.pollers| && s'.pollers[p].pc == PollLock
    decreases |steps|
  {
    assert PollerShape(reg, s.pollers[p]);
    var step := steps[0];
    var s1 := Next(reg, s, step).value;
    StepKeepsInv(reg, s, step);
    StepGrows(reg, s, step);
    if step != PollerStep(p) {
      OthersKeepPoller(reg, s, step, p);
      PassGetsThrough(reg, s1, p, i, steps[1..]);
    } else if i < |NeedsOf(reg, s, p)| {
      ScanStepIff(reg, s, p, i);
      PassGetsThrough(reg, s1, p, i + 1, steps[1..]);
    } else {
      LastScanStep(reg, s, p);
      NoOwnSteps(reg, s1, p, steps[1..]);
    }
  }

  /** A poller past its scan has resolved every dependency to a registered entry. */
  lemma LockedHasNamed(reg: Registry, s: State, p: nat)
    requires Inv(reg, s) && p < |s.pollers| && s.pollers[p].pc.PollLock?
    ensures AllNamed(reg, NeedsOf(reg, s, p))
  {
    assert PollerInv(reg, s, p);
    NeedsMetAreNamed(reg, s.registered, s.pollers[p].comp);
  }

  lemma NeedsMetAreNamed(reg: Registry, registered: seq<bool>, c: nat)
    requires c < |reg| && reg[c].dep.Some? && AllNeedsMet(reg, registered, c)
    ensures AllNamed(reg, reg[c].dep.value.needs)
  {
    forall d | 0 <= d < |reg[c].dep.value.needs|
      ensures NamesAnEntry(reg, reg[c].dep.value.needs[d])
    {
      assert Resolved(reg, registered, reg[c].dep.value.needs[d]);
    }
  }

  lemma PassStaysOut(reg: Registry, s: State, p: nat, steps: seq<Step>)
    requires Inv(reg, s) && p < |s.pollers| && !AllNamed(reg, NeedsOf(reg, s, p)) && Exec(reg, s, steps).Some?
    ensures var s' := Exec(reg, s, steps).value; p < |s'.pollers| && !s'.pollers[p].pc.PollLock?
  {
    PollerStays(reg, s, p, steps);
    ExecKeepsInv(reg, s, steps);
    if Exec(reg, s, steps).value.pollers[p].pc.PollLock? {
      LockedHasNamed(reg, Exec(reg, s, steps).value, p);
    }
  }

  /** In a ready system, and in any schedule that gives a poller one step per dependency and one more, with any steps of
      other threads in between: the pass succeeds if and only if each dependency names some entry. */
  lemma FullPassSucceedsIff(reg: Registry, s: State, p: nat, steps: seq<Step>)
    requires Reachable(reg, s) && s.systemReady && Shape(reg, s) && p < |s.pollers| && s.pollers[p].pc == PollScan(0)
    requires Exec(reg, s, steps).Some? && Own(steps, p) == |NeedsOf(reg, s, p)| + 1
    ensures var s' := Exec(reg, s, steps).value;
            p < |s'.pollers| && (s'.pollers[p].pc == PollLock <==> AllNamed(reg, NeedsOf(reg, s, p)))
  {
    ReachableInv(reg, s);
    if AllNamed(reg, NeedsOf(reg, s, p)) {
      PassGetsThrough(reg, s, p, 0, steps);
    } else {
      PassStaysOut(reg, s, p, steps);
    }
  }

  /** Steps a poller has to take, at most, until it has published, if its dependencies are registered. */
  function PollerRank(n: nat, pc: PollerPc): nat {
    match pc
    case PollSleep => n + 6
    case PollScan(i) => if i <= n then n - i + 5 else 5
    case PollLock => 4
    case PollSetReady => 3
    case PollUnlock => 2
    case PollPublish => 1
    case PollClear => 0
    case PollExited => 0
  }

  /** One step of a poller whose dependencies are registered, while nobody else holds the mutex. */
  lemma MetScanMoves(reg: Registry, s: State, p: nat)
    requires Inv(reg, s) && p < |s.pollers| && (s.owner.Free? || s.owner == ByPoller(p))
    requires AllNeedsMet(reg, s.registered, s.pollers[p].comp) && Scanning(s.pollers[p].pc)
    ensures PollerNext(reg, s, p).Some?
    ensures var s', n := PollerNext(reg, s, p).value, |NeedsOf(reg, s, p)|;
            && p < |s'.pollers| && s'.pollers[p].comp == s.pollers[p].comp && s'.registered == s.registered
            && s'.log == s.log && s'.owner == s.owner
            && PollerRank(n, s'.pollers[p].pc) < PollerRank(n, s.pollers[p].pc)
            && !s'.pollers[p].pc.PollClear? && !s'.pollers[p].pc.PollExited?
  {
    assert PollerShape(reg, s.pollers[p]);
  }

  lemma MetPollerMoves(reg: Registry, s: State, p: nat)
    requires Inv(reg, s) && p < |s.pollers| && (s.owner.Free? || s.owner == ByPoller(p))
    requires AllNeedsMet(reg, s.registered, s.pollers[p].comp)
    requires !s.pollers[p].pc.PollClear? && !s.pollers[p].pc.PollExited? && !s.pollers[p].pc.PollPublish?
    ensures PollerNext(reg, s, p).Some?
    ensures var s', n := PollerNext(reg, s, p).value, |NeedsOf(reg, s, p)|;
            && p < |s'.pollers| && s'.pollers[p].comp == s.pollers[p].comp && s'.registered == s.registered
            && s'.log == s.log
            && (s'.owner.Free? || s'.owner == ByPoller(p))
            && PollerRank(n, s'.pollers[p].pc) < PollerRank(n, s.pollers[p].pc)
            && !s'.pollers[p].pc.PollClear? && !s'.pollers[p].pc.PollExited?
  {
    if Scanning(s.pollers[p].pc) {
      MetScanMoves(reg, s, p);
    } else {
      assert PollerInv(reg, s, p);
    }
  }

  lemma PublishStep(reg: Registry, s: State, p: nat)
    requires Inv(reg, s) && p < |s.pollers| && s.pollers[p].pc.PollPublish?
    ensures PollerNext(reg, s, p).Some?
    ensures var s', c := PollerNext(reg, s, p).value, s.pollers[p].comp;
            s'.log == s.log + [DependencyEvent(c)] && s'.ready == s.ready && s.ready[c]
  {
    assert PollerInv(reg, s, p);
  }

  ghost predicate Announced(s: State, c: nat) {
    c < |s.ready| && s.ready[c] && DependencyEvent(c) in s.log
  }

  ghost predicate OwnOnly(steps: seq<Step>, p: nat) {
    forall k :: 0 <= k < |steps| ==> steps[k] == PollerStep(p)
  }

  lemma OwnOnlyStep(reg: Registry, s: State, p: nat, s': State)
    requires Shape(reg, s) && PollerNext(reg, s, p).Some?
    requires exists rest :: Exec(reg, PollerNext(reg, s, p).value, rest) == Some(s') && OwnOnly(rest, p)
    ensures exists steps :: Exec(reg, s, steps) == Some(s') && OwnOnly(steps, p)
  {
    var rest :| Exec(reg, PollerNext(reg, s, p).value, rest) == Some(s') && OwnOnly(rest, p);
    var steps := [PollerStep(p)] + rest;
    assert steps[1..] == rest;
    assert Exec(reg, s, steps) == Some(s') && OwnOnly(steps, p);
  }

  /** With its dependencies registered a poller that has not published yet can be run, by its own steps alone, until it
      has. */
  lemma {:induction false} PollerPublishes(reg: Registry, s: State, p: nat) returns (s': State)
    requires Inv(reg, s) && p < |s.pollers| && (s.owner.Free? || s.owner == ByPoller(p))
    requires AllNeedsMet(reg, s.registered, s.pollers[p].comp)
    requires !s.pollers[p].pc.PollClear? && !s.pollers[p].pc.PollExited?
    ensures exists steps :: Exec(reg, s, steps) == Some(s') && OwnOnly(steps, p)
    ensures Announced(s', s.pollers[p].comp) && s'.log == s.log + [DependencyEvent(s.pollers[p].comp)]
    decreases PollerRank(|NeedsOf(reg, s, p)|, s.pollers[p].pc)
  {
    StepGoes(reg, s, p);
    var s1 := PollerNext(reg, s, p).value;
    if s.pollers[p].pc.PollPublish? {
      PublishStep(reg, s, p);
      s' := s1;
      assert Exec(reg, s1, []) == Some(s1) && OwnOnly([], p);
    } else {
      MetPollerMoves(reg, s, p);
      PollerKeepsInv(reg, s, p);
      s' := PollerPublishes(reg, s1, p);
    }
    OwnOnlyStep(reg, s, p, s');
  }

  lemma StepGoes(reg: Registry, s: State, p: nat)
    requires Inv(reg, s) && p < |s.pollers| && (s.owner.Free? || s.owner == ByPoller(p)) && !s.pollers[p].pc.PollExited?
    ensures Next(reg, s, PollerStep(p)).Some?
  {
    assert PollerShape(reg, s.pollers[p]) && PollerInv(reg, s, p);
  }

  /** Component `c` can be registered, and each of its dependencies names some entry. Whether these depend on others, or
      on `c`, plays no part. */
  ghost predicate Awaitable(reg: Registry, c: nat)
    requires c < |reg| && reg[c].dep.Some?
  {
    !Shadowed(reg, c) && AllNamed(reg, reg[c].dep.value.needs)
  }

  /** What a name resolves to is never a shadowed entry, so once the others are registered every dependency is. */
  lemma NeedsResolve(reg: Registry, s: State, c: nat)
    requires Inv(reg, s) && c < |reg| && reg[c].dep.Some? && Awaitable(reg, c)
    requires forall i :: 0 <= i < |reg| && !Shadowed(reg, i) ==> s.registered[i]
    ensures AllNeedsMet(reg, s.registered, c)
  {
    forall d | 0 <= d < |reg[c].dep.value.needs|
      ensures Resolved(reg, s.registered, reg[c].dep.value.needs[d])
    {
      var name := reg[c].dep.value.needs[d];
      assert NamesAnEntry(reg, name);
      var k := Find(reg, name);
      assert k.Some?;
      FoundByIffNotShadowed(reg, k.value);
    }
  }

  lemma AwaitableIsAnnounced(reg: Registry, c: nat) returns (s: State)
    requires c < |reg| && reg[c].dep.Some? && Awaitable(reg, c)
    ensures Reachable(reg, s) && Announced(s, c)
  {
    var s0 := RegisterFirst(reg, |reg|);
    forall i | 0 <= i < |reg| && !Shadowed(reg, i)
      ensures s0.registered[i]
    {
      assert Settles(reg, s0, i);
    }
    NeedsResolve(reg, s0, c);
    assert Settles(reg, s0, c);
    var p :| 0 <= p < |s0.pollers| && s0.pollers[p].comp == c;
    s := PollerPublishes(reg, s0, p);
    ReachableThenLeadsTo(reg, s0, s);
  }

  lemma ReadyIsAwaitable(reg: Registry, s: State, c: nat)
    requires Reachable(reg, s) && c < |reg| && reg[c].dep.Some? && c < |s.ready| && s.ready[c]
    ensures Awaitable(reg, c)
  {
    ReachableInv(reg, s);
    assert ReadyInvAt(reg, s, c);
    if Shadowed(reg, c) { ShadowedNeverRegistered(reg, s, c); }
    NeedsMetAreNamed(reg, s.registered, c);
  }

  /** A component with dependencies becomes ready in some run, and has its event published in some run, if and only if
      it is not shadowed and each dependency names some entry; cycles among dependencies do no harm. */
  lemma DependencyReadyReachableIff(reg: Registry, c: nat)
    requires c < |reg| && reg[c].dep.Some?
    ensures (exists s :: Reachable(reg, s) && c < |s.ready| && s.ready[c]) <==> Awaitable(reg, c)
    ensures (exists s :: Reachable(reg, s) && DependencyEvent(c) in s.log) <==> Awaitable(reg, c)
  {
    if Awaitable(reg, c) {
      var s := AwaitableIsAnnounced(reg, c);
    }
    forall s | Reachable(reg, s) && c < |s.ready| && s.ready[c]
      ensures Awaitable(reg, c)
    {
      ReadyIsAwaitable(reg, s, c);
    }
    forall s | Reachable(reg, s) && DependencyEvent(c) in s.log
      ensures Awaitable(reg, c)
    {
      var k :| 0 <= k < |s.log| && s.log[k] == DependencyEvent(c);
      PublishedEventGetsTrue(reg, s, k);
      ReachableInv(reg, s);
      ReadyIsAwaitable(reg, s, c);
    }
  }
}
