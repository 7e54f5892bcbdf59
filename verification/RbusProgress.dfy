/** Progress of the rbus protocol: when SystemReady must be published, when it can be reached at all, and the one race
    that prevents its publication. */
module RbusProgress {
  import opened Wrappers
  import opened CStrings
  import opened RbusRegistry
  import opened RbusProtocol
  import opened RbusInvariant
  import opened RbusSafety

  function CheckRank(n: nat, check: Check): (r: nat)
    ensures r <= n + 2
  {
    match check
    case TestFlag => n + 2
    case Scan(i, _) => if i <= n then n - i + 1 else 0
  }

  /** Steps a registration call still has to take, at most. */
  function CallRank(n: nat, pc: CallPc): nat {
    match pc
    case Returned => 0
    case Signal => 1
    case Spawn => 2
    case TestMonitor => 3
    case Unlock => 4
    case ReadyCheck(check) => 4 + CheckRank(n, check)
    case SetRegistered => n + 7
    case SetReady => n + 8
    case Lock => n + 9
    case Lookup => n + 10
  }

  function CallsRank(n: nat, calls: seq<Call>): nat {
    if calls == [] then 0 else CallRank(n, calls[0].pc) + CallsRank(n, calls[1..])
  }

  function WaiterRank(n: nat, pc: WaiterPc): nat {
    match pc
    case NotCreated => n + 8
    case Blocked => n + 7
    case Wait => n + 6
    case TestStarted => n + 6
    case QuitUnlock => n + 6
    case Acquire => n + 5
    case Checking(check) => 2 + CheckRank(n, check)
    case ReadyUnlock => 2
    case Publishing => 1
    case Exited(_) => 0
  }

  function MainRank(pc: MainPc): nat {
    match pc
    case AwaitSelf => 3
    case CreateWaiter => 2
    case SetStarted => 1
    case Opened => 0
  }

  /** How many steps of registrars, waiter and main thread can still come. */
  function Remaining(s: State): nat {
    CallsRank(|s.registered|, s.calls) + WaiterRank(|s.registered|, s.waiter) + MainRank(s.main)
  }

  ghost predicate Settled(reg: Registry, s: State) {
    Inv(reg, s) && AllSet(s.registered)
  }

  /** The waiter has given up, or is about to: it found `g_waitThreadStarted` still unset. */
  predicate Quit(s: State) {
    s.waiter.QuitUnlock? || s.waiter == Exited(false)
  }

  predicate Published(s: State) {
    s.waiter == Exited(true)
  }

  lemma CallsRankUpdate(n: nat, calls: seq<Call>, t: nat, call: Call)
    requires t < |calls|
    ensures CallsRank(n, calls[t := call]) == CallsRank(n, calls) - CallRank(n, calls[t].pc) + CallRank(n, call.pc)
    ensures CallRank(n, calls[t].pc) <= CallsRank(n, calls)
  {
    if t == 0 {
      assert calls[t := call][1..] == calls[1..];
    } else {
      assert calls[t := call][1..] == calls[1..][t - 1 := call];
      CallsRankUpdate(n, calls[1..], t - 1, call);
    }
  }

  lemma CriticalRankDrops(reg: Registry, s: State, t: nat)
    requires Shape(reg, s) && t < |s.calls| && InCritical(s.calls[t].pc) && CallInv(reg, s, t)
    ensures var s' := CriticalNext(reg, s, t);
            |s'.calls| == |s.calls| && CallRank(|reg|, s'.calls[t].pc) < CallRank(|reg|, s.calls[t].pc)
  {
  }

  lemma EntryRankDrops(reg: Registry, s: State, t: nat)
    requires Shape(reg, s) && t < |s.calls| && InEntry(s.calls[t].pc) && EntryNext(reg, s, t).Some?
    ensures var s' := EntryNext(reg, s, t).value;
            |s'.calls| == |s.calls| && CallRank(|reg|, s'.calls[t].pc) < CallRank(|reg|, s.calls[t].pc)
  {
  }

  lemma ExitRankDrops(reg: Registry, s: State, t: nat)
    requires Shape(reg, s) && t < |s.calls| && InExit(s.calls[t].pc)
    ensures var s' := ExitNext(reg, s, t);
            |s'.calls| == |s.calls| && CallRank(|reg|, s'.calls[t].pc) < CallRank(|reg|, s.calls[t].pc)
  {
  }

  lemma CallRankDrops(reg: Registry, s: State, t: nat)
    requires Inv(reg, s) && CallNext(reg, s, t).Some?
    ensures var s' := CallNext(reg, s, t).value;
            |s'.calls| == |s.calls| && CallRank(|reg|, s'.calls[t].pc) < CallRank(|reg|, s.calls[t].pc)
  {
    assert CallInv(reg, s, t);
    if InCritical(s.calls[t].pc) {
      CriticalRankDrops(reg, s, t);
    } else if InEntry(s.calls[t].pc) {
      EntryRankDrops(reg, s, t);
    } else {
      ExitRankDrops(reg, s, t);
    }
  }

  lemma CallStepDrops(reg: Registry, s: State, t: nat)
    requires Inv(reg, s) && CallNext(reg, s, t).Some?
    ensures Remaining(CallNext(reg, s, t).value) < Remaining(s)
  {
    var s' := CallNext(reg, s, t).value;
    CallHasEffect(reg, s, t);
    CallRankDrops(reg, s, t);
    assert s'.calls == s.calls[t := s'.calls[t]];
    CallsRankUpdate(|reg|, s.calls, t, s'.calls[t]);
  }

  lemma WaiterStepDrops(reg: Registry, s: State)
    requires Settled(reg, s) && WaiterNext(reg, s).Some? && !Quit(s)
    ensures Remaining(WaiterNext(reg, s).value) < Remaining(s) && !Quit(WaiterNext(reg, s).value)
  {
    assert CheckUnderWay(s) ==> s.owner.ByCall?;
  }

  /** Once every entry is registered, and with no new call starting, every step of a registrar, of the waiter or of the
      main thread (a spurious wakeup included) uses up part of a fixed budget; poller steps use none. */
  lemma StepsAreBounded(reg: Registry, s: State, step: Step)
    requires Settled(reg, s) && !Quit(s) && !step.StartCall? && Next(reg, s, step).Some?
    ensures var s' := Next(reg, s, step).value;
            && Settled(reg, s') && !Quit(s')
            && (if step.PollerStep? then Remaining(s') == Remaining(s) else Remaining(s') < Remaining(s))
  {
    var s' := Next(reg, s, step).value;
    StepKeepsInv(reg, s, step);
    StepGrows(reg, s, step);
    assert forall i :: 0 <= i < |reg| ==> s.registered[i] ==> s'.registered[i];
    match step
    case CallStep(t) =>
      CallStepDrops(reg, s, t);
      CallHasEffect(reg, s, t);
    case WaiterStep => WaiterStepDrops(reg, s);
    case PollerStep(p) =>
      assert PollerInv(reg, s, p);
      PollerHasEffect(reg, s, p);
    case _ =>
  }

  /** A registration that is not waiting for the mutex can always move. */
  lemma CallEnabled(reg: Registry, s: State, t: nat)
    requires Shape(reg, s) && t < |s.calls| && !s.calls[t].pc.Returned?
    requires s.calls[t].pc.Lock? ==> s.owner.Free?
    ensures CallNext(reg, s, t).Some?
  {
  }

  /** A step that brings publication nearer without relying on a spurious wakeup or on a new registration: one by a
      registrar, the waiter or the main thread, or, when a poller holds the mutex, that poller's. */
  ghost function Useful(reg: Registry, s: State): (step: Step)
    requires Settled(reg, s) && !Quit(s) && !Published(s)
    ensures Next(reg, s, step).Some?
    ensures step.CallStep? || step.WaiterStep? || step.MainStep? || (step.PollerStep? && s.owner == ByPoller(step.p))
  {
    if s.owner.ByCall? then
      assert CallInv(reg, s, s.owner.t);
      CallEnabled(reg, s, s.owner.t);
      CallStep(s.owner.t)
    else if s.owner.ByPoller? then
      assert PollerInv(reg, s, s.owner.p);
      PollerStep(s.owner.p)
    else if s.waiter.NotCreated? then
      if s.main.AwaitSelf? && !s.calls[0].pc.Returned? then
        WaiterAbsent(reg, s);
        CallEnabled(reg, s, 0);
        CallStep(0)
      else MainStep
    else if s.waiter.Blocked? then
      BlockedMeansSignalling(reg, s);
      var t :| 0 <= t < |s.calls| && Signalling(s.calls[t]);
      CallEnabled(reg, s, t);
      CallStep(t)
    else
      WaiterMoves(reg, s);
      WaiterStep
  }

  lemma WaiterAbsent(reg: Registry, s: State)
    requires Inv(reg, s) && s.waiter.NotCreated? && !s.owner.ByCall? && !s.owner.ByPoller?
    ensures s.owner.Free?
  {
  }

  lemma BlockedMeansSignalling(reg: Registry, s: State)
    requires Settled(reg, s) && s.waiter.Blocked? && !s.owner.ByCall?
    ensures exists t :: 0 <= t < |s.calls| && Signalling(s.calls[t])
  {
    assert !CheckUnderWay(s);
  }

  lemma WaiterMoves(reg: Registry, s: State)
    requires Inv(reg, s) && !s.owner.ByCall? && !s.owner.ByPoller?
    requires !s.waiter.NotCreated? && !s.waiter.Blocked? && !s.waiter.Exited?
    ensures WaiterNext(reg, s).Some?
  {
  }

  /** Remaining steps of the poller that holds the mutex. */
  function HolderRank(s: State): nat {
    if s.owner.ByPoller? && s.owner.p < |s.pollers| then
      (if s.pollers[s.owner.p].pc.PollSetReady? then 2 else 1)
    else 0
  }

  lemma HolderStepDrops(reg: Registry, s: State, p: nat)
    requires Inv(reg, s) && s.owner == ByPoller(p) && PollerNext(reg, s, p).Some?
    ensures HolderRank(PollerNext(reg, s, p).value) < HolderRank(s)
  {
    assert PollerInv(reg, s, p);
  }

  ghost predicate NoNewCalls(steps: seq<Step>) {
    forall k :: 0 <= k < |steps| ==> !steps[k].StartCall? && !steps[k].SpuriousWakeup?
  }

  ghost predicate CanPublish(reg: Registry, s: State)
    requires Shape(reg, s)
  {
    exists steps :: NoNewCalls(steps) && Exec(reg, s, steps).Some? && Published(Exec(reg, s, steps).value)
  }

  lemma {:induction false} UsefulStepsPublish(reg: Registry, s: State)
    requires Settled(reg, s) && !Quit(s)
    ensures CanPublish(reg, s)
    decreases Remaining(s), HolderRank(s)
  {
    if Published(s) {
      assert Exec(reg, s, []) == Some(s) && NoNewCalls([]);
    } else {
      var step := Useful(reg, s);
      var s' := Next(reg, s, step).value;
      StepsAreBounded(reg, s, step);
      if step.PollerStep? { HolderStepDrops(reg, s, step.p); }
      UsefulStepsPublish(reg, s');
      PrependStep(reg, s, step);
    }
  }

  lemma PrependStep(reg: Registry, s: State, step: Step)
    requires Shape(reg, s) && Next(reg, s, step).Some? && !step.StartCall? && !step.SpuriousWakeup?
    requires CanPublish(reg, Next(reg, s, step).value)
    ensures CanPublish(reg, s)
  {
    var s' := Next(reg, s, step).value;
    var rest :| NoNewCalls(rest) && Exec(reg, s', rest).Some? && Published(Exec(reg, s', rest).value);
    var steps := [step] + rest;
    assert steps[0] == step && steps[1..] == rest;
    assert NoNewCalls(steps);
    assert Exec(reg, s, steps) == Exec(reg, s', rest);
  }

  lemma QuitStays(reg: Registry, s: State, step: Step)
    requires Inv(reg, s) && Quit(s) && Next(reg, s, step).Some?
    ensures Quit(Next(reg, s, step).value)
  {
  }

  lemma {:induction false} QuitForever(reg: Registry, s: State, steps: seq<Step>)
    requires Inv(reg, s) && Quit(s) && Exec(reg, s, steps).Some?
    ensures Quit(Exec(reg, s, steps).value)
    decreases |steps|
  {
    if steps != [] {
      QuitStays(reg, s, steps[0]);
      StepKeepsInv(reg, s, steps[0]);
      QuitForever(reg, Next(reg, s, steps[0]).value, steps[1..]);
    }
  }

  /** Once every entry is registered, SystemReady can still be published exactly when the waiter has not quit. No
      spurious wakeup and no further registration is needed. */
  lemma PublishableIff(reg: Registry, s: State)
    requires Reachable(reg, s) && AllSet(s.registered)
    ensures CanPublish(reg, s) <==> !Quit(s)
  {
    ReachableInv(reg, s);
    if Quit(s) {
      forall steps | Exec(reg, s, steps).Some?
        ensures !Published(Exec(reg, s, steps).value)
      {
        QuitForever(reg, s, steps);
      }
    } else {
      UsefulStepsPublish(reg, s);
    }
  }

  /** Before SystemReady is published some thread can always take a useful step: no reachable state is stuck. */
  lemma NeverStuck(reg: Registry, s: State)
    requires Reachable(reg, s) && AllSet(s.registered) && !Quit(s) && !Published(s)
    ensures exists step :: Next(reg, s, step).Some? && !step.StartCall? && !step.SpuriousWakeup?
                           && (step.PollerStep? ==> s.owner == ByPoller(step.p))
  {
    ReachableInv(reg, s);
    var step := Useful(reg, s);
  }

  function NonPollerSteps(steps: seq<Step>): nat {
    if steps == [] then 0 else (if steps[0].PollerStep? then 0 else 1) + NonPollerSteps(steps[1..])
  }

  /** However the threads are scheduled, and however often the waiter wakes spuriously, a run without new calls has a
      bounded number of steps by registrars, waiter and main thread. */
  lemma {:induction false} RunsAreBounded(reg: Registry, s: State, steps: seq<Step>)
    requires Settled(reg, s) && !Quit(s) && Exec(reg, s, steps).Some?
    requires forall k :: 0 <= k < |steps| ==> !steps[k].StartCall?
    ensures NonPollerSteps(steps) + Remaining(Exec(reg, s, steps).value) <= Remaining(s)
    decreases |steps|
  {
    if steps != [] {
      StepsAreBounded(reg, s, steps[0]);
      RunsAreBounded(reg, Next(reg, s, steps[0]).value, steps[1..]);
    }
  }

  /** Call 0 is CR's own registration, and the waiter is created only after it has returned. */
  predicate MainInv(s: State) {
    && |s.calls| > 0 && s.calls[0].name == CR_COMPONENT_ID
    && (!s.main.AwaitSelf? ==> s.calls[0].pc.Returned?)
  }

  lemma StepKeepsMainInv(reg: Registry, s: State, step: Step)
    requires Inv(reg, s) && MainInv(s) && Next(reg, s, step).Some?
    ensures MainInv(Next(reg, s, step).value)
  {
    if step.CallStep? {
      CallHasEffect(reg, s, step.t);
      CallKeepsName(reg, s, step.t);
    }
  }

  lemma CallKeepsName(reg: Registry, s: State, t: nat)
    requires Shape(reg, s) && CallNext(reg, s, t).Some?
    ensures var s' := CallNext(reg, s, t).value; t < |s'.calls| && s'.calls[t].name == s.calls[t].name
    ensures var s' := CallNext(reg, s, t).value; s'.waiter == s.waiter || s'.waiter.Acquire?
  {
  }

  /** The profile lists something besides the entry that CR's own registration sets. */
  ghost predicate ListsAnother(reg: Registry) {
    exists i: nat :: i < |reg| && Find(reg, CR_COMPONENT_ID) != Some(i)
  }

  lemma QuitsByWaiter(reg: Registry, s: State, step: Step)
    requires Shape(reg, s) && !Quit(s) && Next(reg, s, step).Some? && Quit(Next(reg, s, step).value)
    ensures step.WaiterStep? && s.waiter.TestStarted? && !s.started
  {
    match step
    case CallStep(t) => CallKeepsName(reg, s, t);
    case _ =>
  }

  lemma StepKeepsQuitCause(reg: Registry, s: State, step: Step)
    requires Inv(reg, s) && MainInv(s) && (Quit(s) ==> ListsAnother(reg)) && Next(reg, s, step).Some?
    ensures Quit(Next(reg, s, step).value) ==> ListsAnother(reg)
  {
    if !Quit(s) && Quit(Next(reg, s, step).value) {
      QuitsByWaiter(reg, s, step);
      var i: nat :| i < |reg| && !s.registered[i];
      assert CallInv(reg, s, 0);
      assert Find(reg, CR_COMPONENT_ID) != Some(i);
    }
  }

  lemma {:induction false} QuitCause(reg: Registry, s: State, steps: seq<Step>)
    requires Inv(reg, s) && MainInv(s) && (Quit(s) ==> ListsAnother(reg)) && Exec(reg, s, steps).Some?
    ensures Quit(Exec(reg, s, steps).value) ==> ListsAnother(reg)
    decreases |steps|
  {
    if steps != [] {
      StepKeepsInv(reg, s, steps[0]);
      StepKeepsMainInv(reg, s, steps[0]);
      StepKeepsQuitCause(reg, s, steps[0]);
      QuitCause(reg, Next(reg, s, steps[0]).value, steps[1..]);
    }
  }

  /** The waiter quits only by testing the started flag before the main thread has set it. */
  lemma QuitsOnlyBeforeStarted(reg: Registry, s: State, step: Step)
    requires Reachable(reg, s) && !Quit(s) && Next(reg, s, step).Some? && Quit(Next(reg, s, step).value)
    ensures step.WaiterStep? && !s.started && s.main.SetStarted? && !AllSet(s.registered)
  {
    ReachableInv(reg, s);
    QuitsByWaiter(reg, s, step);
  }

  /** `b` can be reached from `a`. */
  ghost predicate LeadsTo(reg: Registry, a: State, b: State)
    requires Shape(reg, a)
  {
    exists steps :: Exec(reg, a, steps) == Some(b)
  }

  lemma LeadsToStep(reg: Registry, a: State, step: Step, b: State)
    requires Shape(reg, a) && Next(reg, a, step).Some? && LeadsTo(reg, Next(reg, a, step).value, b)
    ensures LeadsTo(reg, a, b)
  {
    var rest :| Exec(reg, Next(reg, a, step).value, rest) == Some(b);
    assert ([step] + rest)[1..] == rest;
    assert Exec(reg, a, [step] + rest) == Some(b);
  }

  lemma LeadsToSelf(reg: Registry, a: State)
    requires Shape(reg, a)
    ensures LeadsTo(reg, a, a)
  {
    assert Exec(reg, a, []) == Some(a);
  }

  lemma ReachableThenLeadsTo(reg: Registry, a: State, b: State)
    requires Reachable(reg, a) && Shape(reg, a) && LeadsTo(reg, a, b)
    ensures Reachable(reg, b)
  {
    var first :| Exec(reg, Init(reg), first) == Some(a);
    var rest :| Exec(reg, a, rest) == Some(b);
    ExecAppend(reg, Init(reg), first, rest);
  }

  lemma GrowsFurther(a: seq<bool>, b: seq<bool>, c: seq<bool>)
    requires Grows(a, b) && Grows(b, c)
    ensures Grows(a, c)
  {
    assert forall i :: 0 <= i < |a| && a[i] ==> b[i];
  }

  ghost predicate HasPoller(s: State, c: nat) {
    exists p :: 0 <= p < |s.pollers| && s.pollers[p].comp == c
  }

  /** No poller has moved yet, and every call past its spawning step has left a poller for its component. */
  ghost predicate Quiet(reg: Registry, s: State) {
    && Shape(reg, s)
    && (forall p :: 0 <= p < |s.pollers| ==> s.pollers[p].pc == PollScan(0))
    && (forall c :: 0 <= c < |reg| && s.monitor[c] ==> HasPoller(s, c))
    && (forall t :: 0 <= t < |s.calls| ==> CallWatched(reg, s, t))
  }

  ghost predicate CallWatched(reg: Registry, s: State, t: nat)
    requires Shape(reg, s) && t < |s.calls|
  {
    var call := s.calls[t];
    (call.pc.Signal? || call.pc.Returned?) && call.comp.Some? && reg[call.comp.value].dep.Some?
    ==> HasPoller(s, call.comp.value)
  }

  lemma PollersStay(s: State, s': State, c: nat)
    requires HasPoller(s, c) && s.pollers <= s'.pollers
    ensures HasPoller(s', c)
  {
    var p :| 0 <= p < |s.pollers| && s.pollers[p].comp == c;
    assert s'.pollers[p] == s.pollers[p];
  }

  /** What a call's step does to pollers and monitors, and to its own claim on a poller. */
  ghost predicate WatchEffect(reg: Registry, s: State, s': State, t: nat) {
    && Shape(reg, s') && t < |s'.calls| && CallWatched(reg, s', t) && s.pollers <= s'.pollers
    && (forall p :: 0 <= p < |s'.pollers| ==> s'.pollers[p].pc == PollScan(0))
    && forall c :: 0 <= c < |reg| && s'.monitor[c] ==> (c < |s.monitor| && s.monitor[c]) || HasPoller(s', c)
  }

  lemma ExitWatched(reg: Registry, s: State, t: nat)
    requires Quiet(reg, s) && t < |s.calls| && InExit(s.calls[t].pc)
    ensures WatchEffect(reg, s, ExitNext(reg, s, t), t)
  {
    var s' := ExitNext(reg, s, t);
    assert CallWatched(reg, s, t);
    if s.calls[t].pc.Spawn? {
      assert s'.pollers[|s.pollers|].comp == s.calls[t].comp.value;
    }
  }

  lemma CriticalWatched(reg: Registry, s: State, t: nat)
    requires Quiet(reg, s) && t < |s.calls| && InCritical(s.calls[t].pc)
    ensures WatchEffect(reg, s, CriticalNext(reg, s, t), t)
  {
  }

  lemma EntryWatched(reg: Registry, s: State, t: nat)
    requires Quiet(reg, s) && t < |s.calls| && InEntry(s.calls[t].pc) && EntryNext(reg, s, t).Some?
    ensures WatchEffect(reg, s, EntryNext(reg, s, t).value, t)
  {
  }

  lemma CallKeepsQuiet(reg: Registry, s: State, t: nat)
    requires Inv(reg, s) && Quiet(reg, s) && CallNext(reg, s, t).Some?
    ensures var s' := CallNext(reg, s, t).value; s.pollers <= s'.pollers && Quiet(reg, s')
  {
    CallHasEffect(reg, s, t);
    if InEntry(s.calls[t].pc) {
      EntryWatched(reg, s, t);
    } else if InCritical(s.calls[t].pc) {
      CriticalWatched(reg, s, t);
    } else {
      ExitWatched(reg, s, t);
    }
    QuietAfter(reg, s, CallNext(reg, s, t).value, t);
  }

  lemma QuietAfter(reg: Registry, s: State, s': State, t: nat)
    requires Quiet(reg, s) && WatchEffect(reg, s, s', t) && |s'.calls| == |s.calls|
    requires forall u :: 0 <= u < |s.calls| && u != t ==> s'.calls[u] == s.calls[u]
    ensures Quiet(reg, s')
  {
    forall c | 0 <= c < |reg| && s'.monitor[c]
      ensures HasPoller(s', c)
    {
      if s.monitor[c] { PollersStay(s, s', c); }
    }
    forall u | 0 <= u < |s'.calls|
      ensures CallWatched(reg, s', u)
    {
      if u != t { OtherWatched(reg, s, s', u); }
    }
  }

  lemma OtherWatched(reg: Registry, s: State, s': State, u: nat)
    requires Shape(reg, s) && Shape(reg, s') && u < |s.calls| == |s'.calls| && s'.calls[u] == s.calls[u]
    requires CallWatched(reg, s, u) && s.pollers <= s'.pollers
    ensures CallWatched(reg, s', u)
  {
    var call := s.calls[u];
    if call.comp.Some? && HasPoller(s, call.comp.value) { PollersStay(s, s', call.comp.value); }
  }

  /** Before the waiter exists, a call that holds the mutex, or finds it free, can be run to its end alone. */
  lemma {:induction false} RunToReturn(reg: Registry, s: State, t: nat) returns (s': State)
    requires Inv(reg, s) && s.waiter.NotCreated? && t < |s.calls| && (s.owner.Free? || s.owner == ByCall(t))
    ensures LeadsTo(reg, s, s') && Inv(reg, s')
    ensures s'.waiter.NotCreated? && s'.owner.Free? && s'.main == s.main && Grows(s.registered, s'.registered)
    ensures |s'.calls| == |s.calls| && s'.calls[t].pc.Returned? && s'.calls[t].name == s.calls[t].name
    ensures s.pollers <= s'.pollers && (Quiet(reg, s) ==> Quiet(reg, s'))
    decreases CallRank(|reg|, s.calls[t].pc)
  {
    assert CallInv(reg, s, t);
    if s.calls[t].pc.Returned? {
      LeadsToSelf(reg, s);
      return s;
    }
    CallEnabled(reg, s, t);
    var s1 := CallNext(reg, s, t).value;
    CallHasEffect(reg, s, t);
    CallRankDrops(reg, s, t);
    CallKeepsInv(reg, s, t);
    CallKeepsName(reg, s, t);
    if Quiet(reg, s) { CallKeepsQuiet(reg, s, t); }
    s' := RunToReturn(reg, s1, t);
    LeadsToStep(reg, s, CallStep(t), s');
    GrowsFurther(s.registered, s1.registered, s'.registered);
  }

  /** The flags as the locked part of call `t` will leave them. */
  ghost predicate LockedEffect(reg: Registry, s: State, t: nat, registered: seq<bool>, ready: seq<bool>)
    requires Shape(reg, s) && t < |s.calls| && InCritical(s.calls[t].pc)
  {
    var c := s.calls[t].comp.value;
    && registered == s.registered[c := true]
    && ready == if s.calls[t].pc.SetReady? then s.ready[c := true] else s.ready
  }

  lemma LockedStep(reg: Registry, s: State, t: nat, registered: seq<bool>, ready: seq<bool>)
    requires Shape(reg, s) && t < |s.calls| && InCritical(s.calls[t].pc) && !s.calls[t].pc.Unlock?
    requires LockedEffect(reg, s, t, registered, ready) && CallInv(reg, s, t)
    ensures var s' := CriticalNext(reg, s, t);
            && InCritical(s'.calls[t].pc) && LockedEffect(reg, s', t, registered, ready)
            && (s.systemReady ==> s'.systemReady)
  {
  }

  lemma LockedVerdict(reg: Registry, s: State, t: nat)
    requires Inv(reg, s) && t < |s.calls| && s.calls[t].pc.Unlock?
    ensures s.systemReady <==> AllSet(s.registered)
    ensures s.calls[t].ok <==> s.systemReady
    ensures s.registered == s.registered[s.calls[t].comp.value := true]
  {
    assert CallInv(reg, s, t);
  }

  /** The locked part of a registration can always be run to its unlock. */
  lemma {:induction false} LockedSectionRuns(reg: Registry, s: State, t: nat, registered: seq<bool>, ready: seq<bool>)
    returns (s': State)
    requires Inv(reg, s) && t < |s.calls| && InCritical(s.calls[t].pc) && LockedEffect(reg, s, t, registered, ready)
    ensures LeadsTo(reg, s, s') && Inv(reg, s') && t < |s'.calls| && s'.calls[t].pc.Unlock?
    ensures s'.registered == registered && s'.ready == ready
    ensures s'.systemReady <==> s.systemReady || AllSet(registered)
    ensures s'.calls[t].ok <==> s'.systemReady
    decreases CallRank(|reg|, s.calls[t].pc)
  {
    assert CallInv(reg, s, t);
    if s.calls[t].pc.Unlock? {
      LeadsToSelf(reg, s);
      LockedVerdict(reg, s, t);
      return s;
    }
    LockedStep(reg, s, t, registered, ready);
    CallRankDrops(reg, s, t);
    CallKeepsInv(reg, s, t);
    s' := LockedSectionRuns(reg, CallNext(reg, s, t).value, t, registered, ready);
    LeadsToStep(reg, s, CallStep(t), s');
  }

  /** Entry `i` is registered, and watched by a poller if it has dependencies. */
  ghost predicate Settles(reg: Registry, s: State, i: nat)
    requires Shape(reg, s) && i < |reg|
  {
    s.registered[i] && (reg[i].dep.Some? ==> HasPoller(s, i))
  }

  lemma SettlesStays(reg: Registry, s: State, s': State, i: nat)
    requires Shape(reg, s) && Shape(reg, s') && i < |reg| && Settles(reg, s, i)
    requires Grows(s.registered, s'.registered) && s.pollers <= s'.pollers
    ensures Settles(reg, s', i)
  {
    if reg[i].dep.Some? { PollersStay(s, s', i); }
  }

  /** Registering each of the first `k` entries under its own name registers those that are not shadowed. */
  lemma {:induction false} RegisterFirst(reg: Registry, k: nat) returns (s: State)
    requires k <= |reg|
    ensures Reachable(reg, s) && Inv(reg, s) && Quiet(reg, s) && s.waiter.NotCreated? && s.owner.Free?
    ensures forall i :: 0 <= i < k && !Shadowed(reg, i) ==> Settles(reg, s, i)
  {
    if k == 0 {
      s := Init(reg);
      InitInv(reg);
      LeadsToSelf(reg, s);
    } else {
      var s0 := RegisterFirst(reg, k - 1);
      s := RegisterOne(reg, s0, k - 1);
      ReachableThenLeadsTo(reg, s0, s);
      forall i | 0 <= i < k && !Shadowed(reg, i)
        ensures Settles(reg, s, i)
      {
        if i < k - 1 { SettlesStays(reg, s0, s, i); }
      }
    }
  }

  lemma RegisterOne(reg: Registry, s: State, i: nat) returns (s': State)
    requires Inv(reg, s) && Quiet(reg, s) && s.waiter.NotCreated? && s.owner.Free? && i < |reg|
    ensures LeadsTo(reg, s, s') && Inv(reg, s') && Quiet(reg, s') && s'.waiter.NotCreated? && s'.owner.Free?
    ensures Grows(s.registered, s'.registered) && s.pollers <= s'.pollers
    ensures !Shadowed(reg, i) ==> Settles(reg, s', i)
  {
    var name, t := reg[i].name, |s.calls|;
    var s1 := Next(reg, s, StartCall(name)).value;
    StartKeepsInv(reg, s, name);
    StartKeepsQuiet(reg, s, name);
    s' := RunToReturn(reg, s1, t);
    LeadsToStep(reg, s, StartCall(name), s');
    FoundByIffNotShadowed(reg, i);
    assert CallInv(reg, s', t) && CallWatched(reg, s', t);
  }

  lemma StartKeepsQuiet(reg: Registry, s: State, name: string)
    requires Quiet(reg, s)
    ensures Quiet(reg, Next(reg, s, StartCall(name)).value)
  {
    var s' := Next(reg, s, StartCall(name)).value;
    forall c | 0 <= c < |reg| && s.monitor[c]
      ensures HasPoller(s', c)
    {
      PollersStay(s, s', c);
    }
    forall u | 0 <= u < |s'.calls|
      ensures CallWatched(reg, s', u)
    {
      if u < |s.calls| { assert CallWatched(reg, s, u); }
    }
  }

  /** A shadowed entry is never registered, in any run, so the system never becomes ready. */
  lemma ShadowedNeverRegistered(reg: Registry, s: State, i: nat)
    requires Reachable(reg, s) && i < |reg| && Shadowed(reg, i)
    ensures !s.registered[i] && !s.systemReady
  {
    ReachableInv(reg, s);
    FoundByIffNotShadowed(reg, i);
    RegisteredIffNameWritten(reg, s, i);
  }

  /** Some run makes the system ready, and some run publishes SystemReady, exactly when no entry's name contains an
      earlier entry's name. */
  lemma SystemReadyReachableIff(reg: Registry)
    ensures (exists s :: Reachable(reg, s) && s.systemReady) <==> NoneShadowed(reg)
    ensures (exists s :: Reachable(reg, s) && Published(s)) <==> NoneShadowed(reg)
  {
    if NoneShadowed(reg) {
      var s := RegisterFirst(reg, |reg|);
      forall i | 0 <= i < |s.registered|
        ensures s.registered[i]
      {
        assert !Shadowed(reg, i) && Settles(reg, s, i);
      }
      UsefulStepsPublish(reg, s);
      var steps :| NoNewCalls(steps) && Exec(reg, s, steps).Some? && Published(Exec(reg, s, steps).value);
      var s' := Exec(reg, s, steps).value;
      assert LeadsTo(reg, s, s');
      ReachableThenLeadsTo(reg, s, s');
      ReachableInv(reg, s');
      assert s'.systemReady;
    } else {
      var i :| 0 <= i < |reg| && Shadowed(reg, i);
      forall s | Reachable(reg, s)
        ensures !s.systemReady && !Published(s)
      {
        ShadowedNeverRegistered(reg, s, i);
        ReachableInv(reg, s);
      }
    }
  }

  /** A waiter whose check cannot succeed, with the started flag unset, runs into quitting. */
  lemma {:induction false} CheckRunsToQuit(reg: Registry, s: State) returns (s': State)
    requires Inv(reg, s) && s.waiter.Checking? && !AllSet(s.registered) && !s.started
    ensures LeadsTo(reg, s, s') && Quit(s')
    decreases CheckRank(|reg|, s.waiter.check)
  {
    var s1 := WaiterNext(reg, s).value;
    WaiterKeepsInv(reg, s);
    WaiterHasEffect(reg, s);
    if s1.waiter.Checking? {
      s' := CheckRunsToQuit(reg, s1);
    } else {
      assert s1.waiter.TestStarted?;
      s' := WaiterNext(reg, s1).value;
      LeadsToSelf(reg, s');
      LeadsToStep(reg, s1, WaiterStep, s');
    }
    LeadsToStep(reg, s, WaiterStep, s');
  }

  /** The race is real whenever the profile lists another component: the waiter can test `g_waitThreadStarted` before
      `CRRbusOpen` sets it, quit, and leave SystemReady unpublished for good. */
  lemma WaiterCanQuitIff(reg: Registry)
    ensures (exists s :: Reachable(reg, s) && Quit(s)) <==> ListsAnother(reg)
  {
    var init := Init(reg);
    InitInv(reg);
    forall s | Reachable(reg, s) && Quit(s)
      ensures ListsAnother(reg)
    {
      var steps :| Exec(reg, init, steps) == Some(s);
      QuitCause(reg, init, steps);
    }
    if ListsAnother(reg) {
      var s1 := RunToReturn(reg, init, 0);
      var i: nat :| i < |reg| && Find(reg, CR_COMPONENT_ID) != Some(i);
      assert CallInv(reg, s1, 0);
      assert !s1.registered[i];
      var s2 := OpenWaiter(reg, s1);
      var s3 := CheckRunsToQuit(reg, s2);
      LeadsToSelf(reg, init);
      ReachableThenLeadsTo(reg, init, s1);
      ReachableThenLeadsTo(reg, s1, s2);
      ReachableThenLeadsTo(reg, s2, s3);
    }
  }

  /** CR's own registration, under its literal name: in a profile that lists CR alone it makes the system ready. */
  lemma SelfRegistration(reg: Registry)
    requires |reg| == 1 && reg[0].name == "com.cisco.spvtg.ccsp.CR"
    ensures exists s :: Reachable(reg, s) && |s.calls| == 1 && s.calls[0].name == "com.cisco.spvtg.ccsp.CR"
                        && s.registered == [true] && s.systemReady
  {
    var init := Init(reg);
    InitInv(reg);
    LeadsToSelf(reg, init);
    var s := RunToReturn(reg, init, 0);
    ReachableThenLeadsTo(reg, init, s);
    ContainsSelf(reg[0].name);
    assert Find(reg, reg[0].name) == Some(0);
    assert CallInv(reg, s, 0);
    assert s.registered == [true];
  }

  /** The main thread creates the waiter, which takes the mutex before the started flag is set. */
  lemma OpenWaiter(reg: Registry, s: State) returns (s': State)
    requires Inv(reg, s) && s.main.AwaitSelf? && s.calls[0].pc.Returned? && s.owner.Free?
    ensures LeadsTo(reg, s, s') && Inv(reg, s')
    ensures s'.waiter == Checking(TestFlag) && !s'.started && s'.registered == s.registered
  {
    var s1 := MainNext(reg, s).value;
    MainKeepsInv(reg, s);
    var s2 := MainNext(reg, s1).value;
    MainKeepsInv(reg, s1);
    s' := WaiterNext(reg, s2).value;
    WaiterKeepsInv(reg, s2);
    LeadsToSelf(reg, s');
    LeadsToStep(reg, s2, WaiterStep, s');
    LeadsToStep(reg, s1, MainStep, s');
    LeadsToStep(reg, s, MainStep, s');
  }
}
