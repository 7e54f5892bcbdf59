/** The legacy registry as a state machine: registration, the bus callback and unregistration, over one ordered queue of
    components whose last entry is the registry's own. */
module LegacyRegistry {
  import opened Wrappers
  import opened LegacyLookup

  datatype Status = NotRegistered | RegSuccessful | RegFailed

  datatype Code = Success | InvalidParam | MemoryAllocFail | UnknownComponent | NamespaceError(code: int)

  datatype Entry = Entry(name: string, version: nat, status: Status)

  /** `signals` counts the calls of `SignalSystemReadyProc`. */
  datatype Registry = Registry(queue: seq<Entry>, ready: bool, signals: nat, hasNamespaceMgr: bool, hasSignalProc: bool)

  /** One call from outside. What the namespace manager answers is part of the call. */
  datatype Op =
    | Register(name: Option<string>, version: nat, path: Option<string>, answer: Code)
    | Unregister(name: Option<string>, answer: Code)
    | Callback(name: Option<string>)

  function Names(queue: seq<Entry>): (r: seq<string>)
    ensures |r| == |queue| && forall i :: 0 <= i < |queue| ==> r[i] == queue[i].name
  {
    seq(|queue|, i requires 0 <= i < |queue| => queue[i].name)
  }

  /** What no call changes: names, versions, and what is plugged in. */
  ghost predicate SameProfile(a: Registry, b: Registry) {
    && |a.queue| == |b.queue| && a.hasNamespaceMgr == b.hasNamespaceMgr && a.hasSignalProc == b.hasSignalProc
    && forall i :: 0 <= i < |a.queue| ==> a.queue[i].name == b.queue[i].name && a.queue[i].version == b.queue[i].version
  }

  function SetStatus(s: Registry, k: nat, status: Status): (r: Registry)
    requires k < |s.queue|
    ensures SameProfile(s, r)
  {
    s.(queue := s.queue[k := s.queue[k].(status := status)])
  }

  /** What the readiness scan finds out: it moves to the next link before it tests an entry, and takes a missing link
      for success, so that the last entry does not matter. */
  predicate AllButLast(queue: seq<Entry>) {
    forall i :: 0 <= i < |queue| - 1 ==> queue[i].status == RegSuccessful
  }

  predicate AllSuccessful(queue: seq<Entry>) {
    forall i :: 0 <= i < |queue| ==> queue[i].status == RegSuccessful
  }

  /** Both registration paths end with this scan. */
  function Scan(s: Registry): (r: Registry)
    ensures r.queue == s.queue && SameProfile(s, r)
  {
    if !s.ready && AllButLast(s.queue)
    then s.(ready := true, signals := s.signals + if s.hasSignalProc then 1 else 0)
    else s
  }

  /** The source dereferences the namespace manager on unregistration without a test. */
  predicate Callable(s: Registry, op: Op) {
    op.Unregister? && op.name.Some? ==> s.hasNamespaceMgr
  }

  function Apply(s: Registry, op: Op): (r: (Registry, Code))
    ensures |r.0.queue| == |s.queue|
  {
    match op
    case Register(name, version, path, answer) =>
      if name.None? || path.None? then (s, InvalidParam)
      else if !s.hasNamespaceMgr then (s, MemoryAllocFail)
      else
        var k := Lookup(Names(s.queue), name);
        if k.None? then (s, answer)
        else if s.queue[k.value].version != version then (s, UnknownComponent)
        else if s.queue[k.value].status != RegSuccessful && answer != Success
        then (SetStatus(s, k.value, RegFailed), answer)
        else (Scan(SetStatus(s, k.value, RegSuccessful)), answer)
    case Unregister(name, answer) =>
      if name.None? then (s, InvalidParam)
      else
        var k := Lookup(Names(s.queue), name);
        (if k.Some? && answer == Success then SetStatus(s, k.value, NotRegistered) else s, answer)
    case Callback(name) =>
      var k := Lookup(Names(s.queue), name);
      (if k.Some? then Scan(SetStatus(s, k.value, RegSuccessful)) else s, Success)
  }

  /** The state after a run. */
  function Run(s: Registry, ops: seq<Op>): (r: Registry)
    ensures |r.queue| == |s.queue|
    decreases |ops|
  {
    if ops == [] then s else Apply(Run(s, ops[..|ops| - 1]), ops[|ops| - 1]).0
  }

  lemma RunNext(s: Registry, ops: seq<Op>, k: nat)
    requires k < |ops|
    ensures Run(s, ops[..k + 1]) == Apply(Run(s, ops[..k]), ops[k]).0
  {
    assert ops[..k + 1][..k] == ops[..k];
  }

  lemma SameProfileNames(a: Registry, b: Registry)
    requires SameProfile(a, b)
    ensures Names(a.queue) == Names(b.queue)
  {
  }

  lemma ApplyKeepsProfile(s: Registry, op: Op)
    ensures SameProfile(s, Apply(s, op).0)
  {
  }

  lemma {:induction false} RunKeepsProfile(s: Registry, ops: seq<Op>)
    ensures SameProfile(s, Run(s, ops))
    decreases |ops|
  {
    if ops != [] {
      var init, op := ops[..|ops| - 1], ops[|ops| - 1];
      RunKeepsProfile(s, init);
      ApplyKeepsProfile(Run(s, init), op);
      SameProfileTransitive(s, Run(s, init), Apply(Run(s, init), op).0);
    }
  }

  lemma SameProfileTransitive(a: Registry, b: Registry, c: Registry)
    requires SameProfile(a, b) && SameProfile(b, c)
    ensures SameProfile(a, c)
  {
  }

  /** One call changes the status of at most the entry the lookup returns, and in these ways only: a failure never
      overwrites a success, and a success is undone by a successful unregistration alone. */
  lemma StatusChanges(s: Registry, op: Op, i: nat)
    requires i < |s.queue| && Apply(s, op).0.queue[i].status != s.queue[i].status
    ensures Lookup(Names(s.queue), op.name) == Some(i)
    ensures s.queue[i].status == RegSuccessful ==>
              op.Unregister? && op.answer == Success && Apply(s, op).0.queue[i].status == NotRegistered
    ensures Apply(s, op).0.queue[i].status == RegFailed ==> op.Register? && op.answer != Success
    ensures Apply(s, op).0.queue[i].status == RegSuccessful ==>
              op.Callback? || (op.Register? && op.answer == Success && op.version == s.queue[i].version)
  {
  }

  /** The outcome of a registration. Without a name or a path, without a namespace manager, or with a version other than
      that of the entry found, it is turned down and changes nothing. Otherwise the namespace manager's answer is
      returned; a name without an entry changes nothing; a first failure is noted in the entry found, and in every other
      case that entry is successful and readiness is looked at. No other entry changes. */
  lemma RegisterCodes(s: Registry, name: Option<string>, version: nat, path: Option<string>, answer: Code)
    ensures var (s', code) := Apply(s, Register(name, version, path, answer));
            var k := Lookup(Names(s.queue), name);
            if name.None? || path.None? then s' == s && code == InvalidParam
            else if !s.hasNamespaceMgr then s' == s && code == MemoryAllocFail
            else if k.None? then s' == s && code == answer
            else if s.queue[k.value].version != version then s' == s && code == UnknownComponent
            else if answer != Success && s.queue[k.value].status != RegSuccessful
            then code == answer && s' == s.(queue := s.queue[k.value := s.queue[k.value].(status := RegFailed)])
            else code == answer && Registered(s, s', k.value)
  {
  }

  /** The entry at `k`, and it alone, has become successful; the system is ready if it was, or if every entry but the
      last is successful now; and becoming ready is signalled once. */
  ghost predicate Registered(s: Registry, s': Registry, k: nat)
    requires k < |s.queue|
  {
    && s'.queue == s.queue[k := s.queue[k].(status := RegSuccessful)]
    && (s'.ready <==> s.ready || forall i :: 0 <= i < |s'.queue| - 1 ==> s'.queue[i].status == RegSuccessful)
    && s'.signals == s.signals + (if s'.ready && !s.ready && s.hasSignalProc then 1 else 0)
    && SameProfile(s, s')
  }

  /** Unregistration: without a name it is refused; otherwise the namespace manager's answer is returned, and if that is
      success the entry found, and it alone, is unregistered. Readiness and signals are never touched. */
  lemma UnregisterCodes(s: Registry, name: Option<string>, answer: Code)
    ensures var (s', code), k := Apply(s, Unregister(name, answer)), Lookup(Names(s.queue), name);
            && code == (if name.None? then InvalidParam else answer)
            && s'.ready == s.ready && s'.signals == s.signals && SameProfile(s, s')
            && (if answer == Success && k.Some?
                then && s'.queue[k.value].status == NotRegistered
                     && forall i :: 0 <= i < |s.queue| && i != k.value ==> s'.queue[i] == s.queue[i]
                else s' == s)
  {
  }

  /** A callback for a name that finds an entry does what a successful registration does; for any other name it does
      nothing. */
  lemma CallbackEffect(s: Registry, name: Option<string>)
    ensures var s', k := Apply(s, Callback(name)).0, Lookup(Names(s.queue), name);
            if k.None? then s' == s else Registered(s, s', k.value)
  {
  }

  /** A call that scans: it leaves its entry successful. */
  predicate Scans(s: Registry, op: Op) {
    var k := Lookup(Names(s.queue), op.name);
    && k.Some?
    && match op
       case Register(name, version, path, answer) =>
         && path.Some? && s.hasNamespaceMgr && s.queue[k.value].version == version
         && (s.queue[k.value].status == RegSuccessful || answer == Success)
       case Unregister(_, _) => false
       case Callback(_) => true
  }

  /** `bSystemReady` never reverts; it is set, and the signal sent, by a scanning call after which all entries but the
      last are successful. */
  lemma ReadyStep(s: Registry, op: Op)
    ensures var s' := Apply(s, op).0;
            && (s.ready ==> s'.ready)
            && (!s.ready && s'.ready <==> !s.ready && Scans(s, op) && AllButLast(s'.queue))
            && s'.signals == s.signals + if !s.ready && s'.ready && s.hasSignalProc then 1 else 0
  {
  }

  /** The state in which the registry starts. */
  ghost predicate Init(s: Registry) {
    s.queue != [] && !s.ready && s.signals == 0 && forall i :: 0 <= i < |s.queue| ==> s.queue[i].status == NotRegistered
  }

  lemma {:induction false} ReadyStays(s: Registry, ops: seq<Op>, k: nat)
    requires k <= |ops| && Run(s, ops[..k]).ready
    ensures Run(s, ops).ready
    decreases |ops|
  {
    if k < |ops| {
      var init := ops[..|ops| - 1];
      assert init[..k] == ops[..k];
      ReadyStays(s, init, k);
      ReadyStep(Run(s, init), ops[|ops| - 1]);
    } else {
      assert ops[..k] == ops;
    }
  }

  /** The signal goes out at most once in a run: exactly when the system has become ready and there is someone to
      tell. */
  lemma {:induction false} SignalOnce(s: Registry, ops: seq<Op>)
    requires Init(s)
    ensures Run(s, ops).signals == if Run(s, ops).ready && s.hasSignalProc then 1 else 0
    decreases |ops|
  {
    if ops != [] {
      var init := ops[..|ops| - 1];
      SignalOnce(s, init);
      RunKeepsProfile(s, init);
      ReadyStep(Run(s, init), ops[|ops| - 1]);
    }
  }

  /** A call at which the system becomes ready, seen from the whole run. */
  ghost predicate ReadyAt(s: Registry, ops: seq<Op>, k: nat)
    requires k < |ops|
  {
    Scans(Run(s, ops[..k]), ops[k]) && AllButLast(Run(s, ops[..k + 1]).queue)
  }

  lemma ReadyAtLast(s: Registry, ops: seq<Op>)
    requires ops != []
    ensures var n := |ops| - 1; Run(s, ops).ready <==> Run(s, ops[..n]).ready || ReadyAt(s, ops, n)
  {
    var n := |ops| - 1;
    ReadyStep(Run(s, ops[..n]), ops[n]);
    assert ops[..n + 1] == ops;
  }

  lemma ReadyAtPrefix(s: Registry, ops: seq<Op>, k: nat, n: nat)
    requires k < n <= |ops|
    ensures ReadyAt(s, ops[..n], k) <==> ReadyAt(s, ops, k)
  {
    assert ops[..n][..k] == ops[..k] && ops[..n][..k + 1] == ops[..k + 1];
  }

  lemma {:induction false} ReadyMoment(s: Registry, ops: seq<Op>) returns (k: nat)
    requires Init(s) && Run(s, ops).ready
    ensures k < |ops| && ReadyAt(s, ops, k)
    decreases |ops|
  {
    var n := |ops| - 1;
    if Run(s, ops[..n]).ready {
      k := ReadyMoment(s, ops[..n]);
      ReadyAtPrefix(s, ops, k, n);
    } else {
      ReadyAtLast(s, ops);
      k := n;
    }
  }

  /** The system is ready if and only if some scanning call of the run found all entries but the last successful. */
  lemma ReadyIffScanSucceeded(s: Registry, ops: seq<Op>)
    requires Init(s)
    ensures Run(s, ops).ready <==> exists k :: 0 <= k < |ops| && ReadyAt(s, ops, k)
  {
    if Run(s, ops).ready {
      var k := ReadyMoment(s, ops);
    }
    if k :| 0 <= k < |ops| && ReadyAt(s, ops, k) {
      RunNext(s, ops, k);
      ReadyStep(Run(s, ops[..k]), ops[k]);
      ReadyStays(s, ops, k + 1);
    }
  }

  /** With at least one entry before the last, `bSystemReady` is never behind: as soon as all entries but the last are
      successful it is set. */
  lemma {:induction false} AllButLastIsReady(s: Registry, ops: seq<Op>)
    requires Init(s) && |s.queue| >= 2
    ensures AllButLast(Run(s, ops).queue) ==> Run(s, ops).ready
    decreases |ops|
  {
    if ops == [] {
      assert s.queue[0].status == NotRegistered;
    } else {
      var init, op := ops[..|ops| - 1], ops[|ops| - 1];
      AllButLastIsReady(s, init);
      RunKeepsProfile(s, init);
      var before := Run(s, init);
      ReadyStep(before, op);
      if AllButLast(Run(s, ops).queue) && !AllButLast(before.queue) {
        var i :| 0 <= i < |before.queue| - 1 && before.queue[i].status != RegSuccessful;
        StatusChanges(before, op, i);
      }
    }
  }

  /** A registry whose entries are all successful is ready, however many there are. */
  lemma {:induction false} AllSuccessfulIsReady(s: Registry, ops: seq<Op>)
    requires Init(s)
    ensures AllSuccessful(Run(s, ops).queue) ==> Run(s, ops).ready
    decreases |ops|
  {
    if ops == [] {
      assert s.queue[0].status == NotRegistered;
    } else {
      var init, op := ops[..|ops| - 1], ops[|ops| - 1];
      AllSuccessfulIsReady(s, init);
      RunKeepsProfile(s, init);
      var before := Run(s, init);
      ReadyStep(before, op);
      if AllSuccessful(Run(s, ops).queue) && !AllSuccessful(before.queue) {
        var i :| 0 <= i < |before.queue| && before.queue[i].status != RegSuccessful;
        StatusChanges(before, op, i);
      }
    }
  }

  /** Some call of the run scans after marking entry `j`. */
  ghost predicate FoundAgain(s: Registry, ops: seq<Op>, j: nat) {
    exists k :: 0 <= k < |ops| && FindsAt(s, ops, k, j)
  }

  ghost predicate FindsAt(s: Registry, ops: seq<Op>, k: nat, j: nat)
    requires k < |ops|
  {
    Scans(Run(s, ops[..k]), ops[k]) && Lookup(Names(s.queue), ops[k].name) == Some(j)
  }

  lemma FoundAgainEarlier(s: Registry, ops: seq<Op>, j: nat)
    requires ops != [] && FoundAgain(s, ops[..|ops| - 1], j)
    ensures FoundAgain(s, ops, j)
  {
    var init := ops[..|ops| - 1];
    var k :| 0 <= k < |init| && FindsAt(s, init, k, j);
    assert init[..k] == ops[..k];
    assert FindsAt(s, ops, k, j);
  }

  lemma {:induction false} UnsuccessfulBlocks(s: Registry, ops: seq<Op>, j: nat)
    requires !s.ready && j < |s.queue| - 1 && s.queue[j].status != RegSuccessful && !FoundAgain(s, ops, j)
    ensures !Run(s, ops).ready && Run(s, ops).queue[j].status != RegSuccessful
    decreases |ops|
  {
    if ops != [] {
      var n := |ops| - 1;
      var init, op := ops[..n], ops[n];
      if FoundAgain(s, init, j) { FoundAgainEarlier(s, ops, j); }
      UnsuccessfulBlocks(s, init, j);
      RunKeepsProfile(s, init);
      SameProfileNames(s, Run(s, init));
      assert !FindsAt(s, ops, n, j);
      ReadyStep(Run(s, init), op);
      if Run(s, ops).queue[j].status == RegSuccessful {
        StatusChanges(Run(s, init), op, j);
      }
    }
  }

  /** An entry before the last that is unregistered while the system is not ready keeps it from becoming ready, until a
      later call that scans finds that entry again. */
  lemma UnregisteredBlocks(s: Registry, name: Option<string>, j: nat, ops: seq<Op>)
    requires !s.ready && j < |s.queue| - 1 && Lookup(Names(s.queue), name) == Some(j)
    ensures var s' := Apply(s, Unregister(name, Success)).0;
            && s'.queue[j].status == NotRegistered
            && (Run(s', ops).ready || Run(s', ops).queue[j].status == RegSuccessful ==> FoundAgain(s', ops, j))
  {
    UnregisterCodes(s, name, Success);
    var s' := Apply(s, Unregister(name, Success)).0;
    if !FoundAgain(s', ops, j) { UnsuccessfulBlocks(s', ops, j); }
  }

  /** The queue as it is loaded: the entries of the profile, then the registry's own. */
  ghost predicate LoadedFrom(s: Registry, profile: seq<Entry>, own: Entry) {
    s.queue == profile + [own]
  }

  /** Since the registry's own entry is last, the scan tests exactly the components the profile defines. */
  lemma ScanIsProfileTest(profile: seq<Entry>, own: Entry)
    ensures AllButLast(profile + [own]) <==> AllSuccessful(profile)
  {
    var queue := profile + [own];
    assert forall i :: 0 <= i < |profile| ==> queue[i] == profile[i];
  }

  /** An entry that no query finds stays unregistered in every run. */
  lemma {:induction false} UnfoundStaysUnregistered(s: Registry, ops: seq<Op>, j: nat)
    requires Init(s) && j < |s.queue| && !Findable(Names(s.queue), j)
    ensures Run(s, ops).queue[j].status == NotRegistered
    decreases |ops|
  {
    if ops != [] {
      var init, op := ops[..|ops| - 1], ops[|ops| - 1];
      UnfoundStaysUnregistered(s, init, j);
      RunKeepsProfile(s, init);
      var before := Run(s, init);
      SameProfileNames(s, before);
      assert Lookup(Names(before.queue), op.name) != Some(j);
      if Run(s, ops).queue[j].status != NotRegistered {
        StatusChanges(before, op, j);
      }
    }
  }

  /** If the profile lists the registry's own name, the entry appended last is never found by any query, stays
      unregistered in every run, and a test of all entries could never succeed. */
  lemma OwnEntryShadowed(s: Registry, profile: seq<Entry>, own: Entry, ops: seq<Op>, query: Option<string>)
    requires Init(s) && LoadedFrom(s, profile, own) && own.name in Names(profile)
    ensures Lookup(Names(s.queue), query) != Some(|profile|)
    ensures Run(s, ops).queue[|profile|].status == NotRegistered && !AllSuccessful(Run(s, ops).queue)
  {
    var i :| 0 <= i < |profile| && Names(profile)[i] == own.name;
    var names := Names(s.queue);
    assert names[i] == names[|profile|];
    assert Doubled(names, |profile|);
    forall q ensures Lookup(names, q) != Some(|profile|) { DoubledIsNeverFound(names, |profile|, q); }
    UnfoundStaysUnregistered(s, ops, |profile|);
    RunKeepsProfile(s, ops);
  }

  ghost predicate AllFindable(names: seq<string>, m: nat) {
    forall j :: 0 <= j < m ==> Findable(names, j)
  }

  /** Each query finds the entry at its own place. */
  predicate Answered(names: seq<string>, queries: seq<Option<string>>) {
    forall j :: 0 <= j < |queries| ==> Lookup(names, queries[j]) == Some(j)
  }

  lemma AnsweredMore(names: seq<string>, queries: seq<Option<string>>, query: Option<string>)
    requires Answered(names, queries) && Lookup(names, query) == Some(|queries|)
    ensures Answered(names, queries + [query])
  {
    var more := queries + [query];
    forall j | 0 <= j < |more|
      ensures Lookup(names, more[j]) == Some(j)
    {
      assert more[j] == if j < |queries| then queries[j] else query;
    }
  }

  lemma QueryFor(names: seq<string>, j: nat) returns (query: Option<string>)
    requires Findable(names, j)
    ensures Lookup(names, query) == Some(j)
  {
    query :| Lookup(names, query) == Some(j);
  }

  lemma {:induction false} ChooseQueries(names: seq<string>, m: nat) returns (queries: seq<Option<string>>)
    requires AllFindable(names, m)
    ensures |queries| == m && Answered(names, queries)
    decreases m
  {
    queries := [];
    if m > 0 {
      var init := ChooseQueries(names, m - 1);
      var query := QueryFor(names, m - 1);
      AnsweredMore(names, init, query);
      queries := init + [query];
    }
  }

  function Callbacks(queries: seq<Option<string>>): (r: seq<Op>)
    ensures |r| == |queries| && forall j :: 0 <= j < |queries| ==> r[j] == Callback(queries[j])
  {
    seq(|queries|, j requires 0 <= j < |queries| => Callback(queries[j]))
  }

  /** The first `m` entries are successful and the others untouched. */
  ghost predicate DoneUpTo(queue: seq<Entry>, m: nat) {
    forall i :: 0 <= i < |queue| ==> queue[i].status == if i < m then RegSuccessful else NotRegistered
  }

  lemma {:induction false} CallbacksSucceed(s: Registry, queries: seq<Option<string>>)
    requires Init(s) && |queries| <= |s.queue| && Answered(Names(s.queue), queries)
    ensures DoneUpTo(Run(s, Callbacks(queries)).queue, |queries|)
    decreases |queries|
  {
    if queries != [] {
      var m := |queries| - 1;
      var ops, init := Callbacks(queries), Callbacks(queries[..m]);
      assert ops[..m] == init;
      CallbacksSucceed(s, queries[..m]);
      RunKeepsProfile(s, init);
      SameProfileNames(s, Run(s, init));
      CallbackEffect(Run(s, init), queries[m]);
    }
  }

  ghost predicate Completes(s: Registry, ops: seq<Op>) {
    AllSuccessful(Run(s, ops).queue)
  }

  lemma FullRun(s: Registry) returns (ops: seq<Op>)
    requires Init(s) && AllFindable(Names(s.queue), |s.queue|)
    ensures Completes(s, ops)
  {
    var queries := ChooseQueries(Names(s.queue), |s.queue|);
    ops := Callbacks(queries);
    CallbacksSucceed(s, queries);
  }

  /** Some run makes every entry successful if and only if every entry is found by some query. */
  lemma AllSuccessfulReachableIff(s: Registry)
    requires Init(s)
    ensures (exists ops :: Completes(s, ops)) <==> AllFindable(Names(s.queue), |s.queue|)
  {
    var names := Names(s.queue);
    if AllFindable(names, |s.queue|) {
      var ops := FullRun(s);
    } else {
      var j :| 0 <= j < |s.queue| && !Findable(names, j);
      forall ops
        ensures !Completes(s, ops)
      {
        UnfoundStaysUnregistered(s, ops, j);
      }
    }
  }

  /** A run that gets the system ready, and leaves the last entry out if there are others. */
  lemma ReadyRun(s: Registry) returns (ops: seq<Op>)
    requires Init(s) && AllFindable(Names(s.queue), |s.queue| - 1)
    ensures Run(s, ops).ready
    ensures |s.queue| >= 2 ==> Run(s, ops).queue[|s.queue| - 1].status == NotRegistered
  {
    var names, n := Names(s.queue), |s.queue| - 1;
    if n == 0 {
      LoneEntryIsFound(names);
      var query := QueryFor(names, 0);
      ops := LoneRun(s, query);
    } else {
      var queries := ChooseQueries(names, n);
      ops := Callbacks(queries);
      CallbacksSucceed(s, queries);
      AllButLastIsReady(s, ops);
    }
  }

  lemma LoneRun(s: Registry, query: Option<string>) returns (ops: seq<Op>)
    requires |s.queue| == 1 && Lookup(Names(s.queue), query).Some?
    ensures Run(s, ops).ready
  {
    ops := [Callback(query)];
    RunNext(s, ops, 0);
    assert ops[..1] == ops && ops[..0] == [];
    ReadyStep(s, Callback(query));
  }

  lemma BlockedByUnfound(s: Registry, ops: seq<Op>, j: nat)
    requires Init(s) && j < |s.queue| - 1 && !Findable(Names(s.queue), j)
    ensures !Run(s, ops).ready
  {
    ReadyIffScanSucceeded(s, ops);
    if k :| 0 <= k < |ops| && ReadyAt(s, ops, k) {
      UnfoundStaysUnregistered(s, ops[..k + 1], j);
      assert false;
    }
  }

  /** Some run gets the system ready if and only if every entry before the last is found by some query. */
  lemma ReadyReachableIff(s: Registry)
    requires Init(s)
    ensures (exists ops :: Run(s, ops).ready) <==> AllFindable(Names(s.queue), |s.queue| - 1)
  {
    var names, n := Names(s.queue), |s.queue| - 1;
    if AllFindable(names, n) {
      var ops := ReadyRun(s);
    } else {
      var j :| 0 <= j < n && !Findable(names, j);
      forall ops
        ensures !Run(s, ops).ready
      {
        BlockedByUnfound(s, ops, j);
      }
    }
  }

  /** The scan is not a test of every entry: with a component in the profile, if the system can become ready at all it
      can do so while the registry's own entry is unregistered. */
  lemma ReadyWithoutOwn(s: Registry, profile: seq<Entry>, own: Entry)
    requires Init(s) && LoadedFrom(s, profile, own) && profile != []
    ensures (exists ops :: Run(s, ops).ready && Run(s, ops).queue[|profile|].status == NotRegistered)
            <==> exists ops :: Run(s, ops).ready
  {
    ReadyReachableIff(s);
    if AllFindable(Names(s.queue), |profile|) {
      var ops := ReadyRun(s);
    }
  }
}
