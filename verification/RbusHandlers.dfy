/** The loops of the rbus handlers, run by one thread at a time: the name lookup, the ready check, the part of a
    registration made under the mutex, and the get handler of the dependency events. `RbusProtocol` interleaves the
    same actions one flag access at a time. */
module RbusHandlers {
  import opened Wrappers
  import opened CStrings
  import opened RbusRegistry
  import opened RbusInvariant

  class ComponentRegistration {
    const name: string
    const dep: Option<Dependency>
    var registered: bool
    var ready: bool

    constructor (name: string, dep: Option<Dependency>)
      ensures this.name == name && this.dep == dep && !registered && !ready
    {
      this.name, this.dep := name, dep;
      registered, ready := false, false;
    }
  }

  class CrData {
    var isSystemReady: bool
    const registry: seq<ComponentRegistration>

    ghost predicate Valid() {
      forall i, j :: 0 <= i < j < |registry| ==> registry[i] != registry[j]
    }

    /** The immutable part of the registry. */
    ghost function Profile(): (r: Registry)
      ensures |r| == |registry|
      ensures forall i :: 0 <= i < |registry| ==> r[i] == Component(registry[i].name, registry[i].dep)
    {
      seq(|registry|, i requires 0 <= i < |registry| => Component(registry[i].name, registry[i].dep))
    }

    ghost function Registered(): (r: seq<bool>)
      reads registry
      ensures |r| == |registry|
      ensures forall i :: 0 <= i < |registry| ==> r[i] == registry[i].registered
    {
      seq(|registry|, i requires 0 <= i < |registry| reads registry => registry[i].registered)
    }

    ghost function Ready(): (r: seq<bool>)
      reads registry
      ensures |r| == |registry|
      ensures forall i :: 0 <= i < |registry| ==> r[i] == registry[i].ready
    {
      seq(|registry|, i requires 0 <= i < |registry| reads registry => registry[i].ready)
    }

    constructor (registry: seq<ComponentRegistration>)
      requires forall i, j :: 0 <= i < j < |registry| ==> registry[i] != registry[j]
      ensures Valid() && !isSystemReady && this.registry == registry
    {
      this.registry := registry;
      isSystemReady := false;
    }

    /** `rtVector_Find` with the substring comparison. */
    method FindComponent(query: string) returns (found: Option<nat>)
      ensures found == Find(Profile(), query)
    {
      var i := 0;
      while i < |registry|
        invariant 0 <= i <= |registry|
        invariant Find(Profile(), query) == FindFrom(Profile(), query, i)
      {
        if StrStr(query, registry[i].name).Some? {
          return Some(i);
        }
        i := i + 1;
      }
      return None;
    }

    method IsCompNameRegistered(name: string) returns (answer: bool)
      ensures answer <==> exists c: nat :: Find(Profile(), name) == Some(c) && Registered()[c]
    {
      var found := FindComponent(name);
      answer := found.Some? && registry[found.value].registered;
    }

    /** `crData_ReadyCheck`: 0 exactly when the system was ready already or every entry is registered. */
    method ReadyCheck() returns (rc: int)
      modifies this`isSystemReady
      ensures rc == 0 <==> old(isSystemReady) || AllSet(Registered())
      ensures isSystemReady <==> rc == 0
    {
      rc := 0;
      if isSystemReady {
        return;
      }
      var i := 0;
      while i < |registry|
        invariant 0 <= i <= |registry|
        invariant rc == 0 <==> SetUpTo(Registered(), i)
      {
        if !registry[i].registered {
          rc := -1;
        }
        i := i + 1;
      }
      if rc == 0 {
        isSystemReady := true;
      }
    }

    /** The locked section of `crData_RegisterComponent` for entry `c`. */
    method RegisterLocked(c: nat) returns (rc: int)
      requires Valid() && c < |registry|
      modifies this`isSystemReady, registry[c]
      ensures Registered() == old(Registered())[c := true]
      ensures Ready() == if registry[c].dep.Some? then old(Ready()) else old(Ready())[c := true]
      ensures rc == 0 <==> old(isSystemReady) || AllSet(old(Registered())[c := true])
      ensures isSystemReady <==> rc == 0
    {
      if registry[c].dep.None? {
        registry[c].ready := true;
      }
      registry[c].registered := true;
      assert Registered() == old(Registered())[c := true];
      rc := ReadyCheck();
    }

    /** `eventGetHandler`: the `ready` flag of the first component whose event name the query is a prefix of. */
    method EventGet(query: string) returns (eventReady: bool)
      ensures var hit := FindEvent(Profile(), query, 0); eventReady <==> hit.Some? && Ready()[hit.value]
    {
      eventReady := false;
      var i := 0;
      while i < |registry|
        invariant 0 <= i <= |registry|
        invariant !eventReady && FindEvent(Profile(), query, 0) == FindEvent(Profile(), query, i)
      {
        if registry[i].dep.Some? && registry[i].dep.value.event.Some? && query <= registry[i].dep.value.event.value {
          assert EventMatches(Profile()[i], query);
          eventReady := registry[i].ready;
          break;
        }
        i := i + 1;
      }
    }
  }
}
