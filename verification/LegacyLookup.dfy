/** How the legacy registry finds a component by name: suffix matching by way of the leftmost occurrence, first match
    wins. */
module LegacyLookup {
  import opened Wrappers
  import opened CStrings

  /** `ccspStringEndswith`. */
  predicate EndsWith(s: string, e: string) {
    var k := StrStr(s, e);
    k.Some? && s[k.value..] == e
  }

  /** The test holds exactly when `e` is a suffix and occurs nowhere before. */
  lemma EndsWithIff(s: string, e: string)
    ensures EndsWith(s, e) <==> OccursAt(s, e, |s| - |e|) && forall k :: 0 <= k < |s| - |e| ==> !OccursAt(s, e, k)
  {
    var k := StrStr(s, e);
    if OccursAt(s, e, |s| - |e|) && forall j :: 0 <= j < |s| - |e| ==> !OccursAt(s, e, j) {
      assert Contains(s, e);
      assert k == Some(|s| - |e|);
    }
    if EndsWith(s, e) {
      assert |s| - k.value == |e|;
    }
  }

  /** A name behind a subsystem prefix matches exactly when it has no earlier occurrence in the whole. */
  lemma PrefixedNameMatches(prefix: string, name: string)
    ensures EndsWith(prefix + name, name) <==> forall k :: 0 <= k < |prefix| ==> !OccursAt(prefix + name, name, k)
  {
    EndsWithIff(prefix + name, name);
    assert OccursAt(prefix + name, name, |prefix|);
  }

  /** Without a prefix a name always matches itself. */
  lemma NameMatchesItself(name: string)
    ensures EndsWith(name, name)
  {
    PrefixedNameMatches("", name);
    assert "" + name == name;
  }

  /** A prefix that repeats the name hides it: the leftmost occurrence is not the suffix. */
  lemma RepeatedNameIsMissed(name: string, between: string)
    requires name != ""
    ensures !EndsWith(name + between + name, name)
  {
    var s := name + between + name;
    EndsWithIff(s, name);
    assert OccursAt(s, name, 0);
  }

  /** `CcspCrLookforComponent` on the names of the queue; a NULL query finds nothing. */
  function Lookup(names: seq<string>, query: Option<string>): (r: Option<nat>)
    ensures r.Some? ==>
              && query.Some? && r.value < |names| && EndsWith(query.value, names[r.value])
              && forall i :: 0 <= i < r.value ==> !EndsWith(query.value, names[i])
    ensures r.None? && query.Some? ==> forall i :: 0 <= i < |names| ==> !EndsWith(query.value, names[i])
  {
    LookupFrom(names, query, 0)
  }

  function LookupFrom(names: seq<string>, query: Option<string>, from: nat): (r: Option<nat>)
    requires from <= |names|
    ensures r.Some? ==>
              && query.Some? && from <= r.value < |names| && EndsWith(query.value, names[r.value])
              && forall i :: from <= i < r.value ==> !EndsWith(query.value, names[i])
    ensures r.None? && query.Some? ==> forall i :: from <= i < |names| ==> !EndsWith(query.value, names[i])
    decreases |names| - from
  {
    if from == |names| then None
    else if query.Some? && EndsWith(query.value, names[from]) then Some(from)
    else LookupFrom(names, query, from + 1)
  }

  /** The entry at `j` bears a name that an earlier entry bears too. */
  ghost predicate Doubled(names: seq<string>, j: nat)
    requires j < |names|
  {
    exists i :: 0 <= i < j && names[i] == names[j]
  }

  /** A query that finds the entry at `j`: its name behind everything of it but the first character and a separator. The
      leading part makes every shorter name that ends the query occur too early. */
  function Probe(name: string, separator: char): string {
    if name == "" then "" else name[1..] + [separator] + name
  }

  lemma ProbeFinds(name: string, separator: char)
    requires separator !in name
    ensures EndsWith(Probe(name, separator), name)
  {
    if name == "" {
      NameMatchesItself("");
    } else {
      var prefix := name[1..] + [separator];
      var s := prefix + name;
      assert Probe(name, separator) == s;
      forall k | 0 <= k < |prefix|
        ensures !OccursAt(s, name, k)
      {
        var at := |name| - 1 - k;
        assert s[k..k + |name|][at] == s[|name| - 1] == separator;
        assert name[at] != separator;
      }
      PrefixedNameMatches(prefix, name);
    }
  }

  /** A shorter suffix of the name occurs too early in the probe. */
  lemma ProbeHidesSuffix(name: string, k: nat, separator: char)
    requires 0 < k <= |name|
    ensures !EndsWith(Probe(name, separator), name[k..])
  {
    var s, other := Probe(name, separator), name[k..];
    EndsWithIff(s, other);
    assert s[k - 1..k - 1 + |other|] == name[1..][k - 1..] == other;
    assert OccursAt(s, other, k - 1);
  }

  predicate HasSuffix(s: string, e: string) {
    |e| <= |s| && s[|s| - |e|..] == e
  }

  lemma ProbeSuffix(name: string, other: string, separator: char)
    requires name != "" && |other| > |name| && HasSuffix(Probe(name, separator), other)
    ensures HasSuffix(other, [separator] + name)
  {
    var s := Probe(name, separator);
    var longer := [separator] + name;
    forall i | 0 <= i < |longer|
      ensures other[|other| - |longer| + i] == longer[i]
    {
      assert other[|other| - |longer| + i] == s[|s| - |longer| + i];
    }
  }

  lemma ProbeAvoids(name: string, other: string, separator: char)
    requires !HasSuffix(other, [separator] + name) && other != name
    ensures !EndsWith(Probe(name, separator), other)
  {
    var s := Probe(name, separator);
    EndsWithIff(s, other);
    if name != "" && HasSuffix(s, other) {
      if |other| > |name| {
        ProbeSuffix(name, other, separator);
      } else {
        var k := |name| - |other|;
        assert s[|s| - |other|..] == name[k..];
        ProbeHidesSuffix(name, k, separator);
      }
    }
  }

  /** An entry that repeats an earlier name is never found, whatever the query. */
  lemma DoubledIsNeverFound(names: seq<string>, j: nat, query: Option<string>)
    requires j < |names| && Doubled(names, j)
    ensures Lookup(names, query) != Some(j)
  {
    var i :| 0 <= i < j && names[i] == names[j];
  }

  /** Some query returns the entry at `j`. */
  ghost predicate Findable(names: seq<string>, j: nat) {
    exists query :: Lookup(names, query) == Some(j)
  }

  /** The character occurs neither in the name at `j` nor right before it at the end of an earlier name. */
  predicate Separates(names: seq<string>, j: nat, c: char)
    requires j < |names|
  {
    c !in names[j] && forall i :: 0 <= i < j ==> !HasSuffix(names[i], [c] + names[j])
  }

  lemma ProbeIsAnswered(names: seq<string>, j: nat, separator: char)
    requires j < |names| && !Doubled(names, j) && Separates(names, j, separator)
    ensures Lookup(names, Some(Probe(names[j], separator))) == Some(j)
  {
    var query := Probe(names[j], separator);
    ProbeFinds(names[j], separator);
    forall i | 0 <= i < j
      ensures !EndsWith(query, names[i])
    {
      ProbeAvoids(names[j], names[i], separator);
    }
  }

  /** An entry can be found by some query if and only if no earlier entry has the same name, as long as one character is
      left that separates it. */
  lemma FindableIff(names: seq<string>, j: nat)
    requires j < |names| && exists c :: Separates(names, j, c)
    ensures Findable(names, j) <==> !Doubled(names, j)
  {
    if Doubled(names, j) {
      forall query
        ensures Lookup(names, query) != Some(j)
      {
        DoubledIsNeverFound(names, j, query);
      }
    } else {
      var c :| Separates(names, j, c);
      ProbeIsAnswered(names, j, c);
    }
  }

  /** A query longer than a name it matches also matches the name with the character before it. */
  lemma LongerMatches(s: string, name: string)
    requires EndsWith(s, name) && |s| > |name|
    ensures EndsWith(s, [s[|s| - |name| - 1]] + name)
  {
    var from := |s| - |name| - 1;
    var longer := [s[from]] + name;
    EndsWithIff(s, name);
    EndsWithIff(s, longer);
    assert s[from..from + |longer|] == longer;
    forall k | 0 <= k < from
      ensures !OccursAt(s, longer, k)
    {
      if OccursAt(s, longer, k) { InnerOccurs(s, s[from], name, k); }
    }
  }

  lemma InnerOccurs(s: string, c: char, name: string, k: nat)
    requires OccursAt(s, [c] + name, k)
    ensures OccursAt(s, name, k + 1)
  {
    assert s[k..k + |name| + 1][1..] == s[k + 1..k + 1 + |name|];
    assert ([c] + name)[1..] == name;
  }

  /** Without such a character it can fail: if earlier names put every character before the entry's name, then the entry
      answers at most to its bare name. */
  lemma WithoutSeparator(names: seq<string>, j: nat)
    requires j < |names| && forall c: char :: [c] + names[j] in names[..j]
    ensures Findable(names, j) <==> Lookup(names, Some(names[j])) == Some(j)
  {
    var name := names[j];
    forall query | Lookup(names, query) == Some(j)
      ensures query == Some(name)
    {
      var s := query.value;
      EndsWithIff(s, name);
      if |s| > |name| {
        assert [s[|s| - |name| - 1]] + name in names[..j];
        LongerMatches(s, name);
      }
    }
  }

  lemma FirstEntryIsFound(names: seq<string>, s: string)
    requires names != [] && EndsWith(s, names[0])
    ensures Findable(names, 0)
  {
    assert Lookup(names, Some(s)) == Some(0);
  }

  lemma MatchFor(name: string) returns (s: string)
    ensures EndsWith(s, name)
  {
    NameMatchesItself(name);
    s := name;
  }

  lemma LoneEntryIsFound(names: seq<string>)
    requires |names| == 1
    ensures Findable(names, 0)
  {
    var s := MatchFor(names[0]);
    FirstEntryIsFound(names, s);
  }
}
