/** The registry loaded from the device profile, and the name searches made on it. Names and dependency data never
    change after loading; the flags that do change live in `RbusProtocol` and `RbusHandlers`. */
module RbusRegistry {
  import opened Wrappers
  import opened CStrings

  datatype Dependency = Dependency(event: Option<string>, needs: seq<string>)
  datatype Component = Component(name: string, dep: Option<Dependency>)
  type Registry = seq<Component>

  /** The first entry whose name is a substring of the query. */
  function Find(reg: Registry, query: string): (r: Option<nat>)
    ensures r.Some? ==>
              && r.value < |reg| && Contains(query, reg[r.value].name)
              && forall j :: 0 <= j < r.value ==> !Contains(query, reg[j].name)
    ensures r.None? ==> forall j :: 0 <= j < |reg| ==> !Contains(query, reg[j].name)
  {
    FindFrom(reg, query, 0)
  }

  function FindFrom(reg: Registry, query: string, from: nat): (r: Option<nat>)
    requires from <= |reg|
    ensures r.Some? ==>
              && from <= r.value < |reg| && Contains(query, reg[r.value].name)
              && forall j :: from <= j < r.value ==> !Contains(query, reg[j].name)
    ensures r.None? ==> forall j :: from <= j < |reg| ==> !Contains(query, reg[j].name)
    decreases |reg| - from
  {
    if from == |reg| then None
    else if StrStr(query, reg[from].name).Some? then Some(from)
    else FindFrom(reg, query, from + 1)
  }

  /** Entry `i` is shadowed when an earlier entry's name is a substring of its name. */
  ghost predicate Shadowed(reg: Registry, i: nat)
    requires i < |reg|
  {
    exists j :: 0 <= j < i && Contains(reg[i].name, reg[j].name)
  }

  ghost predicate NoneShadowed(reg: Registry) {
    forall i :: 0 <= i < |reg| ==> !Shadowed(reg, i)
  }

  /** An entry can be found by some name exactly when nothing before it shadows it; its own name then finds it. */
  lemma FoundByIffNotShadowed(reg: Registry, i: nat)
    requires i < |reg|
    ensures (exists q :: Find(reg, q) == Some(i)) <==> !Shadowed(reg, i)
    ensures !Shadowed(reg, i) ==> Find(reg, reg[i].name) == Some(i)
  {
    ContainsSelf(reg[i].name);
    if Shadowed(reg, i) {
      var j :| 0 <= j < i && Contains(reg[i].name, reg[j].name);
      forall q
        ensures Find(reg, q) != Some(i)
      {
        if Contains(q, reg[i].name) {
          ContainsTransitive(q, reg[i].name, reg[j].name);
        }
      }
    } else {
      assert Find(reg, reg[i].name) == Some(i);
    }
  }

  /** Two registries list the same names in the same order, whatever their dependency data. */
  predicate SameNames(reg: Registry, reg': Registry) {
    |reg| == |reg'| && forall i :: 0 <= i < |reg| ==> reg[i].name == reg'[i].name
  }

  lemma FindIgnoresDependencies(reg: Registry, reg': Registry, query: string)
    requires SameNames(reg, reg')
    ensures Find(reg, query) == Find(reg', query)
  {
    var a, b := Find(reg, query), Find(reg', query);
    assert a.Some? ==> reg[a.value].name == reg'[a.value].name;
    assert b.Some? ==> reg[b.value].name == reg'[b.value].name;
  }

  /** `strncmp(compEvent, query, strlen(query)) == 0`: the query is a prefix of the component's event name. */
  predicate EventMatches(comp: Component, query: string) {
    comp.dep.Some? && comp.dep.value.event.Some? && query <= comp.dep.value.event.value
  }

  function FindEvent(reg: Registry, query: string, from: nat): (r: Option<nat>)
    requires from <= |reg|
    ensures r.Some? ==>
              && from <= r.value < |reg| && EventMatches(reg[r.value], query)
              && forall j :: from <= j < r.value ==> !EventMatches(reg[j], query)
    ensures r.None? ==> forall j :: from <= j < |reg| ==> !EventMatches(reg[j], query)
    decreases |reg| - from
  {
    if from == |reg| then None
    else if EventMatches(reg[from], query) then Some(from)
    else FindEvent(reg, query, from + 1)
  }

  ghost predicate HasEvent(reg: Registry, i: nat) {
    i < |reg| && reg[i].dep.Some? && reg[i].dep.value.event.Some?
  }

  /** A get answers for entry `i` exactly when the query is a prefix of its event name and of no earlier one. */
  lemma FindEventIff(reg: Registry, query: string, i: nat)
    ensures FindEvent(reg, query, 0) == Some(i) <==>
            && HasEvent(reg, i) && query <= reg[i].dep.value.event.value
            && forall j :: 0 <= j < i && HasEvent(reg, j) ==> !(query <= reg[j].dep.value.event.value)
  {
    var r := FindEvent(reg, query, 0);
    if HasEvent(reg, i) && query <= reg[i].dep.value.event.value {
      assert EventMatches(reg[i], query);
    }
    if r.Some? {
      assert EventMatches(reg[r.value], query) && HasEvent(reg, r.value);
    }
  }

  /** A get on a component's event name reaches that component exactly when no earlier event name extends it. */
  lemma EventFindsOwnerIff(reg: Registry, i: nat)
    requires HasEvent(reg, i)
    ensures FindEvent(reg, reg[i].dep.value.event.value, 0) == Some(i) <==>
            forall j :: 0 <= j < i && HasEvent(reg, j)
                        ==> !(reg[i].dep.value.event.value <= reg[j].dep.value.event.value)
  {
    var e := reg[i].dep.value.event.value;
    var r := FindEvent(reg, e, 0);
    assert EventMatches(reg[i], e);
    assert r.Some?;
    if r != Some(i) {
      assert HasEvent(reg, r.value) && r.value < i;
    }
  }
}
