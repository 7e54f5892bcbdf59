/** The legacy registry as the source has it: an object whose methods update the components of its queue, proved against
    the state machine in `LegacyRegistry`. */
module LegacyManager {
  import opened Wrappers
  import opened LegacyLookup
  import opened LegacyRegistry

  class CompInfo {
    const name: string
    const version: nat
    var status: Status

    constructor (name: string, version: nat)
      ensures this.name == name && this.version == version && status == NotRegistered
    {
      this.name, this.version, status := name, version, NotRegistered;
    }
  }

  /** A `component` node of the device profile: its name and version, as far as they can be read. */
  datatype ComponentNode = ComponentNode(name: Option<string>, version: Option<nat>)

  predicate Readable(node: ComponentNode) {
    node.name.Some? && node.name.value != "" && node.version.Some?
  }

  /** The entries a list of nodes yields; unreadable nodes are skipped. */
  function Loaded(nodes: seq<ComponentNode>): seq<Entry> {
    if nodes == [] then []
    else
      var n := |nodes| - 1;
      Loaded(nodes[..n]) +
        if Readable(nodes[n]) then [Entry(nodes[n].name.value, nodes[n].version.value, NotRegistered)] else []
  }

  /** A node with a non-empty name and a version yields one entry, unregistered; any other node yields none. */
  lemma LoadedOne(node: ComponentNode)
    ensures Loaded([node]) == match (node.name, node.version)
                              case (Some(name), Some(version)) =>
                                if name == "" then [] else [Entry(name, version, NotRegistered)]
                              case _ => []
  {
    assert [node][..0] == [];
  }

  /** What is loaded from two lists of nodes is loaded from one after the other. */
  lemma {:induction false} LoadedConcat(a: seq<ComponentNode>, b: seq<ComponentNode>)
    ensures Loaded(a + b) == Loaded(a) + Loaded(b)
    decreases |b|
  {
    if b == [] {
      assert a + b == a;
    } else {
      var n := |b| - 1;
      LoadedConcat(a, b[..n]);
      assert (a + b)[..|a + b| - 1] == a + b[..n];
    }
  }

  /** Each readable node has its entry at the place that counts the readable nodes before it. */
  lemma LoadedAt(nodes: seq<ComponentNode>, i: nat)
    requires i < |nodes| && nodes[i].name.Some? && nodes[i].name.value != "" && nodes[i].version.Some?
    ensures var k := |Loaded(nodes[..i])|;
            k < |Loaded(nodes)| && Loaded(nodes)[k] == Entry(nodes[i].name.value, nodes[i].version.value, NotRegistered)
  {
    assert nodes == nodes[..i] + ([nodes[i]] + nodes[i + 1..]);
    LoadedConcat(nodes[..i], [nodes[i]] + nodes[i + 1..]);
    LoadedConcat([nodes[i]], nodes[i + 1..]);
    LoadedOne(nodes[i]);
  }

  class CrManager {
    var queue: seq<CompInfo>
    var systemReady: bool
    var signals: nat
    const hasNamespaceMgr: bool
    const hasSignalProc: bool

    ghost predicate Valid()
      reads this
    {
      forall i, j :: 0 <= i < j < |queue| ==> queue[i] != queue[j]
    }

    ghost function Entries(): (r: seq<Entry>)
      reads this, queue
      ensures |r| == |queue|
      ensures forall i :: 0 <= i < |queue| ==> r[i] == Entry(queue[i].name, queue[i].version, queue[i].status)
    {
      seq(|queue|, i requires 0 <= i < |queue| reads this, queue =>
        Entry(queue[i].name, queue[i].version, queue[i].status))
    }

    ghost function State(): Registry
      reads this, queue
    {
      Registry(Entries(), systemReady, signals, hasNamespaceMgr, hasSignalProc)
    }

    constructor (hasNamespaceMgr: bool, hasSignalProc: bool)
      ensures Valid() && queue == [] && State() == Registry([], false, 0, hasNamespaceMgr, hasSignalProc)
    {
      queue, systemReady, signals := [], false, 0;
      this.hasNamespaceMgr, this.hasSignalProc := hasNamespaceMgr, hasSignalProc;
    }

    /** `AnscQueuePushEntry` on a new component. */
    method Push(name: string, version: nat)
      requires Valid()
      modifies this`queue
      ensures Valid() && Entries() == old(Entries()) + [Entry(name, version, NotRegistered)]
      ensures |queue| == old(|queue|) + 1 && queue[..|queue| - 1] == old(queue) && fresh(queue[|queue| - 1])
    {
      var info := new CompInfo(name, version);
      queue := queue + [info];
    }

    /** The queue-building part of `CcspCrLoadDeviceProfile`: the readable components in order, then the registry
        itself. */
    method LoadDeviceProfile(nodes: seq<ComponentNode>, ownName: string, ownVersion: nat)
      requires Valid() && queue == []
      modifies this`queue
      ensures Valid() && Entries() == Loaded(nodes) + [Entry(ownName, ownVersion, NotRegistered)]
      ensures systemReady == old(systemReady) && signals == old(signals)
    {
      for i := 0 to |nodes|
        invariant Valid() && Entries() == Loaded(nodes[..i]) && forall k :: 0 <= k < |queue| ==> fresh(queue[k])
      {
        assert nodes[..i + 1][..i] == nodes[..i];
        var _ := LoadComponentProfile(nodes[i]);
      }
      assert nodes[..|nodes|] == nodes;
      Push(ownName, ownVersion);
    }

    /** `CcspCrLoadComponentProfile`. */
    method LoadComponentProfile(node: ComponentNode) returns (ok: bool)
      requires Valid()
      modifies this`queue
      ensures Valid() && ok == Readable(node)
      ensures Entries() == old(Entries()) +
                           if ok then [Entry(node.name.value, node.version.value, NotRegistered)] else []
      ensures old(queue) <= queue && forall k :: old(|queue|) <= k < |queue| ==> fresh(queue[k])
    {
      if node.name.None? || node.name.value == "" {
        return false;
      }
      if node.version.None? {
        return false;
      }
      Push(node.name.value, node.version.value);
      return true;
    }

    /** `CcspCrLookforComponent`. */
    method LookforComponent(name: Option<string>) returns (info: CompInfo?, ghost found: Option<nat>)
      ensures found == Lookup(Names(Entries()), name)
      ensures if found.Some? then found.value < |queue| && info == queue[found.value] else info == null
    {
      var link := 0;
      ghost var names := Names(Entries());
      while link < |queue|
        invariant 0 <= link <= |queue| && Lookup(names, name) == LookupFrom(names, name, link)
      {
        info := queue[link];
        link := link + 1;
        if name.Some? && EndsWith(name.value, info.name) {
          found := Some(link - 1);
          return;
        }
      }
      info, found := null, None;
    }

    /** The scan of both registration paths: the link moves on before the entry is tested. */
    method ScanQueue() returns (ready: bool)
      ensures ready == AllButLast(Entries())
    {
      var link := 0;
      while link < |queue|
        invariant 0 <= link <= |queue| && forall i :: 0 <= i < link ==> queue[i].status == RegSuccessful
      {
        var info := queue[link];
        link := link + 1;
        if info.status != RegSuccessful {
          break;
        }
      }
      ready := link == |queue|;
    }

    /** One component reaches a status; nothing else changes. */
    method Mark(info: CompInfo, ghost k: nat, status: Status)
      requires Valid() && k < |queue| && info == queue[k]
      modifies info`status
      ensures Valid() && State() == SetStatus(old(State()), k, status)
    {
      info.status := status;
      assert Entries() == old(Entries())[k := old(Entries())[k].(status := status)];
    }

    /** A component has registered: mark it, and if the system is not ready yet find out whether it is now. */
    method MarkSuccessful(info: CompInfo, ghost k: nat)
      requires Valid() && k < |queue| && info == queue[k]
      modifies this`systemReady, this`signals, info`status
      ensures Valid() && State() == Scan(SetStatus(old(State()), k, RegSuccessful))
    {
      Mark(info, k, RegSuccessful);
      if !systemReady {
        var ready := ScanQueue();
        if ready {
          systemReady := true;
          if hasSignalProc {
            signals := signals + 1;
          }
        }
      }
    }

    /** `CcspCrRegisterCapabilities`; `answer` is what the namespace manager returns. */
    method RegisterCapabilities(name: Option<string>, version: nat, path: Option<string>, answer: Code)
      returns (code: Code)
      requires Valid()
      modifies this`systemReady, this`signals, queue
      ensures Valid() && (State(), code) == Apply(old(State()), Register(name, version, path, answer))
    {
      if name.None? || path.None? {
        return InvalidParam;
      }
      if !hasNamespaceMgr {
        return MemoryAllocFail;
      }
      var info;
      ghost var found;
      info, found := LookforComponent(name);
      if info != null && info.version != version {
        return UnknownComponent;
      }
      if info != null {
        if info.status != RegSuccessful && answer != Success {
          Mark(info, found.value, RegFailed);
          return answer;
        }
        MarkSuccessful(info, found.value);
      }
      return answer;
    }

    /** `CcspCrUnregisterComponent`. */
    method UnregisterComponent(name: Option<string>, answer: Code) returns (code: Code)
      requires Valid() && Callable(State(), Unregister(name, answer))
      modifies queue
      ensures Valid() && (State(), code) == Apply(old(State()), Unregister(name, answer))
    {
      if name.None? {
        return InvalidParam;
      }
      var info;
      ghost var found;
      info, found := LookforComponent(name);
      if info != null {
        if answer == Success {
          Mark(info, found.value, NotRegistered);
        }
      }
      return answer;
    }

    /** `CcspCrProcessRegisterCap`, the callback from the bus. */
    method ProcessRegisterCap(name: Option<string>)
      requires Valid()
      modifies this`systemReady, this`signals, queue
      ensures Valid() && State() == Apply(old(State()), Callback(name)).0
    {
      var info;
      ghost var found;
      info, found := LookforComponent(name);
      if info == null {
        return;
      }
      MarkSuccessful(info, found.value);
    }
  }

  /** A freshly loaded registry is a start state whose scan is the test of the profile's components. */
  lemma LoadedIsInit(nodes: seq<ComponentNode>, own: Entry, hasNamespaceMgr: bool, hasSignalProc: bool)
    requires own.status == NotRegistered
    ensures var s := Registry(Loaded(nodes) + [own], false, 0, hasNamespaceMgr, hasSignalProc);
            Init(s) && LoadedFrom(s, Loaded(nodes), own)
  {
    LoadedUnregistered(nodes);
  }

  lemma {:induction false} LoadedUnregistered(nodes: seq<ComponentNode>)
    ensures forall i :: 0 <= i < |Loaded(nodes)| ==> Loaded(nodes)[i].status == NotRegistered
    decreases |nodes|
  {
    if nodes != [] { LoadedUnregistered(nodes[..|nodes| - 1]); }
  }
}
