/** The rbus registration protocol as a step system: any number of `RegisterComponent()` calls, the thread that opens
    the bus, the thread that waits for SystemReady, and the polling threads of components with dependencies. One step
    is one atomic action of one thread: a read or write of one shared flag, a mutex or condition-variable operation, a
    thread creation, or a publication. */
module RbusProtocol {
  import opened Wrappers
  import opened RbusRegistry

  const CR_COMPONENT_ID := "com.cisco.spvtg.ccsp.CR"

  /** Progress inside `crData_ReadyCheck`: about to read `isSystemReady`, or about to read entry `i` of the registry
      with `ok` standing for `rc == 0` so far. */
  datatype Check = TestFlag | Scan(i: nat, ok: bool)
  datatype CheckResult = More(check: Check) | Verdict(ok: bool)

  /** One run of `crData_RegisterComponent`. `comp` is what the lookup returned, `ok` whether its ready check said 0. */
  datatype CallPc = Lookup | Lock | SetReady | SetRegistered | ReadyCheck(check: Check) | Unlock
                  | TestMonitor | Spawn | Signal | Returned
  datatype Call = Call(name: string, comp: Option<nat>, pc: CallPc, ok: bool)

  /** The waiting thread. `Blocked` is inside `pthread_cond_wait` with the mutex released; once woken it must acquire
      the mutex again, which is the state it also starts in. */
  datatype WaiterPc = NotCreated | Acquire | Checking(check: Check) | ReadyUnlock | Publishing
                    | TestStarted | QuitUnlock | Wait | Blocked | Exited(published: bool)

  /** The thread in `CRRbusOpen`: it registers CR itself (call 0), creates the waiter, then sets the started flag. */
  datatype MainPc = AwaitSelf | CreateWaiter | SetStarted | Opened

  datatype PollerPc = PollScan(i: nat) | PollSleep | PollLock | PollSetReady | PollUnlock | PollPublish | PollClear
                    | PollExited
  datatype Poller = Poller(comp: nat, pc: PollerPc)

  datatype Owner = Free | ByCall(t: nat) | ByWaiter | ByPoller(p: nat)
  datatype Event = SystemReadyEvent | DependencyEvent(comp: nat)

  datatype State = State(
    registered: seq<bool>, ready: seq<bool>, systemReady: bool, started: bool, monitor: seq<bool>,
    owner: Owner, main: MainPc, waiter: WaiterPc, calls: seq<Call>, pollers: seq<Poller>, log: seq<Event>)

  datatype Step = StartCall(name: string) | CallStep(t: nat) | MainStep | WaiterStep | SpuriousWakeup
                | PollerStep(p: nat)

  function Init(reg: Registry): State {
    var off := seq(|reg|, i => false);
    var self := Call(CR_COMPONENT_ID, None, Lookup, false);
    State(off, off, false, false, off, Free, AwaitSelf, NotCreated, [self], [], [])
  }

  predicate CallShape(reg: Registry, call: Call) {
    && (call.comp.Some? ==> call.comp.value < |reg|)
    && (!call.pc.Lookup? && !call.pc.Returned? ==> call.comp.Some?)
    && (call.pc.TestMonitor? || call.pc.Spawn? ==> reg[call.comp.value].dep.Some?)
  }

  predicate PollerShape(reg: Registry, poller: Poller) {
    && poller.comp < |reg| && reg[poller.comp].dep.Some?
    && (poller.pc.PollScan? ==> poller.pc.i <= |reg[poller.comp].dep.value.needs|)
  }

  predicate Shape(reg: Registry, s: State) {
    && |s.registered| == |s.ready| == |s.monitor| == |reg|
    && |s.calls| > 0
    && (forall t :: 0 <= t < |s.calls| ==> CallShape(reg, s.calls[t]))
    && (forall p :: 0 <= p < |s.pollers| ==> PollerShape(reg, s.pollers[p]))
  }

  /** One read made by `crData_ReadyCheck`, and whether it decides the verdict. */
  function CheckNext(registered: seq<bool>, systemReady: bool, check: Check): CheckResult {
    match check
    case TestFlag => if systemReady then Verdict(true) else More(Scan(0, true))
    case Scan(i, ok) => if i < |registered| then More(Scan(i + 1, ok && registered[i])) else Verdict(ok)
  }

  function WithCall(reg: Registry, s: State, t: nat, call: Call): (r: State)
    requires Shape(reg, s) && t < |s.calls| && CallShape(reg, call)
    ensures Shape(reg, r)
  {
    s.(calls := s.calls[t := call])
  }

  /** The part of a registration call that runs with the mutex held. */
  predicate InCritical(pc: CallPc) {
    pc.SetReady? || pc.SetRegistered? || pc.ReadyCheck? || pc.Unlock?
  }

  function CriticalNext(reg: Registry, s: State, t: nat): (r: State)
    requires Shape(reg, s) && t < |s.calls| && InCritical(s.calls[t].pc)
    ensures Shape(reg, r)
  {
    var call := s.calls[t];
    var c := call.comp.value;
    match call.pc
    case SetReady => WithCall(reg, s.(ready := s.ready[c := true]), t, call.(pc := SetRegistered))
    case SetRegistered => WithCall(reg, s.(registered := s.registered[c := true]), t, call.(pc := ReadyCheck(TestFlag)))
    case ReadyCheck(check) =>
      (match CheckNext(s.registered, s.systemReady, check)
       case More(check') => WithCall(reg, s, t, call.(pc := ReadyCheck(check')))
       case Verdict(ok) => WithCall(reg, s.(systemReady := s.systemReady || ok), t, call.(pc := Unlock, ok := ok)))
    case Unlock =>
      WithCall(reg, s.(owner := Free), t, call.(pc := if reg[c].dep.Some? then TestMonitor else Signal))
  }

  predicate InEntry(pc: CallPc) {
    pc.Lookup? || pc.Lock?
  }

  function EntryNext(reg: Registry, s: State, t: nat): (r: Option<State>)
    requires Shape(reg, s) && t < |s.calls| && InEntry(s.calls[t].pc)
    ensures r.Some? ==> Shape(reg, r.value)
  {
    var call := s.calls[t];
    if call.pc.Lookup? then
      var found := Find(reg, call.name);
      Some(WithCall(reg, s, t, call.(comp := found, pc := if found.Some? then Lock else Returned)))
    else if !s.owner.Free? then None
    else
      var next := if reg[call.comp.value].dep.Some? then SetRegistered else SetReady;
      Some(WithCall(reg, s.(owner := ByCall(t)), t, call.(pc := next)))
  }

  /** What a call still has to do once it has released the mutex. */
  predicate InExit(pc: CallPc) {
    pc.TestMonitor? || pc.Spawn? || pc.Signal?
  }

  function ExitNext(reg: Registry, s: State, t: nat): (r: State)
    requires Shape(reg, s) && t < |s.calls| && InExit(s.calls[t].pc)
    ensures Shape(reg, r)
  {
    var call := s.calls[t];
    var c := call.comp.value;
    match call.pc
    case TestMonitor => WithCall(reg, s, t, call.(pc := if s.monitor[c] then Signal else Spawn))
    case Spawn =>
      var pollers := s.pollers + [Poller(c, PollScan(0))];
      WithCall(reg, s.(monitor := s.monitor[c := true], pollers := pollers), t, call.(pc := Signal))
    case Signal =>
      var waiter := if call.ok && s.waiter.Blocked? then Acquire else s.waiter;
      WithCall(reg, s.(waiter := waiter), t, call.(pc := Returned))
  }

  /** One step of registration call `t`; `None` when it has returned or must wait for the mutex. */
  function CallNext(reg: Registry, s: State, t: nat): (r: Option<State>)
    requires Shape(reg, s)
    ensures r.Some? ==> Shape(reg, r.value)
  {
    if t >= |s.calls| || s.calls[t].pc.Returned? then None
    else if InEntry(s.calls[t].pc) then EntryNext(reg, s, t)
    else if InCritical(s.calls[t].pc) then Some(CriticalNext(reg, s, t))
    else Some(ExitNext(reg, s, t))
  }

  function WaiterNext(reg: Registry, s: State): (r: Option<State>)
    requires Shape(reg, s)
    ensures r.Some? ==> Shape(reg, r.value)
  {
    match s.waiter
    case NotCreated => None
    case Acquire => if s.owner.Free? then Some(s.(owner := ByWaiter, waiter := Checking(TestFlag))) else None
    case Checking(check) =>
      (match CheckNext(s.registered, s.systemReady, check)
       case More(check') => Some(s.(waiter := Checking(check')))
       case Verdict(ok) =>
         Some(s.(systemReady := s.systemReady || ok, waiter := if ok then ReadyUnlock else TestStarted)))
    case ReadyUnlock => Some(s.(owner := Free, waiter := Publishing))
    case Publishing => Some(s.(log := s.log + [SystemReadyEvent], waiter := Exited(true)))
    case TestStarted => Some(s.(waiter := if s.started then Wait else QuitUnlock))
    case QuitUnlock => Some(s.(owner := Free, waiter := Exited(false)))
    case Wait => Some(s.(owner := Free, waiter := Blocked))
    case Blocked => None
    case Exited(_) => None
  }

  function MainNext(reg: Registry, s: State): (r: Option<State>)
    requires Shape(reg, s)
    ensures r.Some? ==> Shape(reg, r.value)
  {
    match s.main
    case AwaitSelf => if s.calls[0].pc.Returned? then Some(s.(main := CreateWaiter)) else None
    case CreateWaiter => Some(s.(waiter := Acquire, main := SetStarted))
    case SetStarted => Some(s.(started := true, main := Opened))
    case Opened => None
  }

  /** `isCompNameRegistered`: the name resolves to an entry whose flag is set. */
  predicate Resolved(reg: Registry, registered: seq<bool>, name: string) {
    var found := Find(reg, name);
    found.Some? && found.value < |registered| && registered[found.value]
  }

  function WithPoller(s: State, p: nat, pc: PollerPc): State
    requires p < |s.pollers|
  {
    s.(pollers := s.pollers[p := s.pollers[p].(pc := pc)])
  }

  function PollerNext(reg: Registry, s: State, p: nat): (r: Option<State>)
    requires Shape(reg, s)
    ensures r.Some? ==> Shape(reg, r.value)
  {
    if p >= |s.pollers| then None
    else
      var poller := s.pollers[p];
      var c := poller.comp;
      match poller.pc
      case PollScan(i) =>
        var needs := reg[c].dep.value.needs;
        if i == |needs| then Some(WithPoller(s, p, PollLock))
        else if Resolved(reg, s.registered, needs[i]) then Some(WithPoller(s, p, PollScan(i + 1)))
        else Some(WithPoller(s, p, PollSleep))
      case PollSleep => Some(WithPoller(s, p, PollScan(0)))
      case PollLock => if s.owner.Free? then Some(WithPoller(s.(owner := ByPoller(p)), p, PollSetReady)) else None
      case PollSetReady => Some(WithPoller(s.(ready := s.ready[c := true]), p, PollUnlock))
      case PollUnlock => Some(WithPoller(s.(owner := Free), p, PollPublish))
      case PollPublish => Some(WithPoller(s.(log := s.log + [DependencyEvent(c)]), p, PollClear))
      case PollClear => Some(WithPoller(s.(monitor := s.monitor[c := false]), p, PollExited))
      case PollExited => None
  }

  function Next(reg: Registry, s: State, step: Step): (r: Option<State>)
    requires Shape(reg, s)
    ensures r.Some? ==> Shape(reg, r.value)
  {
    match step
    case StartCall(name) => Some(s.(calls := s.calls + [Call(name, None, Lookup, false)]))
    case CallStep(t) => CallNext(reg, s, t)
    case MainStep => MainNext(reg, s)
    case WaiterStep => WaiterNext(reg, s)
    case SpuriousWakeup => if s.waiter.Blocked? then Some(s.(waiter := Acquire)) else None
    case PollerStep(p) => PollerNext(reg, s, p)
  }

  /** The state a schedule leads to, or `None` if it asks for a step that is not enabled. */
  function Exec(reg: Registry, s: State, steps: seq<Step>): (r: Option<State>)
    requires Shape(reg, s)
    ensures r.Some? ==> Shape(reg, r.value)
    decreases |steps|
  {
    if steps == [] then Some(s)
    else
      var s1 := Next(reg, s, steps[0]);
      if s1.None? then None else Exec(reg, s1.value, steps[1..])
  }

  ghost predicate Reachable(reg: Registry, s: State) {
    exists steps :: Exec(reg, Init(reg), steps) == Some(s)
  }

  lemma ExecAppend(reg: Registry, s: State, a: seq<Step>, b: seq<Step>)
    requires Shape(reg, s) && Exec(reg, s, a).Some?
    ensures Exec(reg, s, a + b) == Exec(reg, Exec(reg, s, a).value, b)
    decreases |a|
  {
    if a == [] {
      assert a + b == b;
    } else {
      assert (a + b)[0] == a[0] && (a + b)[1..] == a[1..] + b;
      ExecAppend(reg, Next(reg, s, a[0]).value, a[1..], b);
    }
  }
}
