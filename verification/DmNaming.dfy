/** From the names the components registered to the paths of the exported tree. */
module DmNaming {
  import opened Wrappers
  import opened CStrings
  import opened DmNames
  import opened DmTree
  import opened DmBuild
  import opened DmXml

  /** A registered name; the exporter receives arrays of pointers to these, some of them possibly NULL. */
  datatype NameSpace = NameSpace(name: string, dataType: nat)

  /** `strstr(name, "Device") == name`. */
  predicate Accepted(entry: Option<NameSpace>) {
    entry.Some? && StrStr(entry.value.name, ROOT_NAME) == Some(0)
  }

  /** The test accepts the names that start with `Device`, whatever follows it. */
  lemma AcceptedIff(entry: Option<NameSpace>)
    ensures Accepted(entry) <==> entry.Some? && "Device" <= entry.value.name
  {
    if entry.Some? {
      var name := entry.value.name;
      if ROOT_NAME <= name {
        assert OccursAt(name, ROOT_NAME, 0);
      }
      if Accepted(entry) {
        assert OccursAt(name, ROOT_NAME, 0);
      }
    }
  }

  function PathOf(ns: NameSpace): seq<Entry> {
    Mark(Tokens(ns.name), ns.dataType)
  }

  /** The normalised paths of the accepted names, in order. */
  function PathsOf(names: seq<Option<NameSpace>>): seq<seq<Entry>> {
    if names == [] then []
    else
      var last := names[|names| - 1];
      PathsOf(names[..|names| - 1]) + if Accepted(last) then [PathOf(last.value)] else []
  }

  lemma PathsOfNext(names: seq<Option<NameSpace>>, j: nat)
    requires j < |names|
    ensures PathsOf(names[..j + 1]) == PathsOf(names[..j]) + if Accepted(names[j]) then [PathOf(names[j].value)] else []
  {
    assert names[..j + 1][..j] == names[..j];
  }

  lemma {:induction false} PathsOfConcat(a: seq<Option<NameSpace>>, b: seq<Option<NameSpace>>)
    ensures PathsOf(a + b) == PathsOf(a) + PathsOf(b)
    decreases |b|
  {
    if b == [] {
      assert a + b == a;
    } else {
      var init := b[..|b| - 1];
      PathsOfConcat(a, init);
      assert (a + b)[..|a + b| - 1] == a + init;
    }
  }

  lemma {:induction false} PathsOfMembers(names: seq<Option<NameSpace>>, w: seq<Entry>)
    ensures w in PathsOf(names) <==> exists i :: 0 <= i < |names| && Accepted(names[i]) && w == PathOf(names[i].value)
    decreases |names|
  {
    if names != [] {
      var n := |names| - 1;
      var init := names[..n];
      PathsOfMembers(init, w);
      var before := exists i :: 0 <= i < |init| && Accepted(init[i]) && w == PathOf(init[i].value);
      var here := Accepted(names[n]) && w == PathOf(names[n].value);
      assert w in PathsOf(names) <==> before || here;
      if i :| 0 <= i < |names| && Accepted(names[i]) && w == PathOf(names[i].value) {
        assert i < n ==> init[i] == names[i];
      }
      if i :| 0 <= i < |init| && Accepted(init[i]) && w == PathOf(init[i].value) {
        assert names[i] == init[i];
      }
    }
  }

  /** The tokens that are not placeholders. */
  function Segments(ts: seq<string>): seq<string> {
    if ts == [] then [] else (if Placeholder(ts[0]) then [] else [ts[0]]) + Segments(ts[1..])
  }

  lemma {:induction false} IntendedSpellsSegments(ts: seq<string>, ty: nat)
    ensures Strs(Intended(ts, ty)) == Segments(ts)
    decreases |ts|
  {
    if ts != [] {
      IntendedSpellsSegments(ts[1..], ty);
    }
  }

  /** A name rooted at `Device` in which no placeholder is the first token or follows another placeholder. */
  ghost predicate Regular(ns: NameSpace) {
    var ts := Tokens(ns.name);
    ts != [] && ts[0] == ROOT_NAME && Separated(ts)
  }

  /** A regular name with no two equal segments in a row. */
  ghost predicate WellNamed(ns: NameSpace) {
    var segments := Segments(Tokens(ns.name));
    Regular(ns) && forall k :: 1 <= k < |segments| ==> segments[k] != segments[k - 1]
  }

  /** The normalised path of a regular name spells its segments, is rooted and holds no brace. */
  lemma RegularIsRooted(ns: NameSpace)
    requires Regular(ns)
    ensures Rooted(Root(), PathOf(ns)) && Strs(PathOf(ns)) == Segments(Tokens(ns.name))
  {
    var ts := Tokens(ns.name);
    MarkIntendedIff(ts, ns.dataType);
    IntendedSpellsSegments(ts, ns.dataType);
    IntendedHasNoPlaceholder(ts, ns.dataType);
    var w := PathOf(ns);
    assert Segments(ts)[0] == ts[0];
    forall k | 0 <= k < |w|
      ensures w[k].str == Segments(ts)[k] && '{' !in w[k].str
    {
      assert w[k].str == Strs(w)[k] && w[k] in w;
    }
  }

  ghost predicate AllRegular(names: seq<Option<NameSpace>>) {
    forall i :: 0 <= i < |names| && Accepted(names[i]) ==> Regular(names[i].value)
  }

  ghost predicate AllWellNamed(names: seq<Option<NameSpace>>) {
    forall i :: 0 <= i < |names| && Accepted(names[i]) ==> WellNamed(names[i].value)
  }

  lemma AllPathsRooted(names: seq<Option<NameSpace>>)
    requires AllRegular(names)
    ensures AllRooted(PathsOf(names))
  {
    var ws := PathsOf(names);
    forall j | 0 <= j < |ws|
      ensures Rooted(Root(), ws[j])
    {
      assert ws[j] in ws;
      PathsOfMembers(names, ws[j]);
      var i :| 0 <= i < |names| && Accepted(names[i]) && ws[j] == PathOf(names[i].value);
      RegularIsRooted(names[i].value);
    }
  }

  lemma AllAcceptable(names: seq<Option<NameSpace>>)
    requires AllWellNamed(names)
    ensures forall w :: w in PathsOf(names) ==> Acceptable(w)
  {
    forall w: seq<Entry> | w in PathsOf(names)
      ensures Acceptable(w)
    {
      PathsOfMembers(names, w);
      var i :| 0 <= i < |names| && Accepted(names[i]) && w == PathOf(names[i].value);
      RegularIsRooted(names[i].value);
      assert forall k: nat :: k < |w| ==> w[k].str == Strs(w)[k];
    }
  }

  /** `p` is a non-empty prefix of the segments of an accepted name. */
  ghost predicate Named(names: seq<Option<NameSpace>>, p: seq<string>) {
    exists i :: 0 <= i < |names| && Accepted(names[i]) && IsPrefix(p, Segments(Tokens(names[i].value.name)))
  }

  /** The prefixes of the normalised paths are the root and the prefixes of the names' segments. */
  lemma {:induction false} AllPrefixesNamed(names: seq<Option<NameSpace>>, p: seq<string>)
    requires AllRegular(names)
    ensures p in AllPrefixes(PathsOf(names)) <==> p == [ROOT_NAME] || Named(names, p)
    decreases |names|
  {
    if names != [] {
      var n := |names| - 1;
      var init, last := names[..n], names[n];
      AllPrefixesNamed(init, p);
      if Accepted(last) {
        RegularIsRooted(last.value);
        var ws := PathsOf(names);
        assert ws[..|ws| - 1] == PathsOf(init) && ws[|ws| - 1] == PathOf(last.value);
      } else {
        assert PathsOf(names) == PathsOf(init);
      }
      NamedNext(names, p);
    }
  }

  lemma NamedNext(names: seq<Option<NameSpace>>, p: seq<string>)
    requires names != []
    ensures var n := |names| - 1;
            Named(names, p) <==> Named(names[..n], p)
                                 || (Accepted(names[n]) && IsPrefix(p, Segments(Tokens(names[n].value.name))))
  {
    var n := |names| - 1;
    var init := names[..n];
    if Named(names, p) {
      var i :| 0 <= i < |names| && Accepted(names[i]) && IsPrefix(p, Segments(Tokens(names[i].value.name)));
      assert i < n ==> init[i] == names[i];
    }
    if Named(init, p) {
      var i :| 0 <= i < |init| && Accepted(init[i]) && IsPrefix(p, Segments(Tokens(init[i].value.name)));
      assert names[i] == init[i];
    }
  }

  ghost predicate EntriesTyped(w: seq<Entry>) {
    forall i :: 0 <= i < |w| ==> w[i].ty < |TYPE_STR|
  }

  lemma {:induction false} MarkTyped(ts: seq<string>, ty: nat)
    requires ty < |TYPE_STR|
    ensures EntriesTyped(Mark(ts, ty))
    decreases |ts|
  {
    if |ts| > 1 {
      MarkTyped(ts[if Placeholder(ts[1]) then 2 else 1..], ty);
    }
  }

  lemma {:induction false} BranchTyped(w: seq<Entry>)
    requires w != [] && EntriesTyped(w)
    ensures Typed(Branch(w))
    decreases |w|
  {
    if |w| > 1 { BranchTyped(w[1..]); }
  }

  lemma {:induction false} AddNodeTyped(t: Tree, w: seq<Entry>)
    requires Typed(t) && EntriesTyped(w)
    ensures Typed(AddNode(t, w))
    decreases |w|
  {
    if w == [] {
    } else if '{' in w[0].str {
      AddNodeTyped(t, w[1..]);
    } else if w[0].str != t.name {
      BranchTyped(w);
    } else if |w| > 1 {
      var k := FindKid(t.kids, w[1].str);
      AddNodeTyped(if k.Some? then t.kids[k.value] else t, w[1..]);
    }
  }

  /** Every type a component passes is one of the thirteen the writer has a word for. */
  predicate KnownTypes(names: seq<Option<NameSpace>>) {
    forall i :: 0 <= i < |names| && names[i].Some? ==> names[i].value.dataType < |TYPE_STR|
  }

  /** With known types, every node of the tree has a word. */
  lemma {:induction false} BuildTyped(names: seq<Option<NameSpace>>)
    requires KnownTypes(names)
    ensures Typed(Build(Root(), PathsOf(names)))
    decreases |names|
  {
    if names != [] {
      var init, last := names[..|names| - 1], names[|names| - 1];
      BuildTyped(init);
      if Accepted(last) {
        BuildSnoc(Root(), PathsOf(init), PathOf(last.value));
        assert PathsOf(names) == PathsOf(init) + [PathOf(last.value)];
        MarkTyped(Tokens(last.value.name), last.value.dataType);
        AddNodeTyped(Build(Root(), PathsOf(init)), PathOf(last.value));
      } else {
        assert PathsOf(names) == PathsOf(init);
      }
    }
  }

  /** The type of a path: the one its first occurrence in the list gives it. */
  ghost function FirstType(ws: seq<seq<Entry>>, p: seq<string>): Option<nat> {
    if ws == [] then if p == [ROOT_NAME] then Some(CCSP_OBJECT) else None
    else
      var n := |ws| - 1;
      var earlier := FirstType(ws[..n], p);
      if earlier.Some? then earlier
      else if IsPrefix(p, Strs(ws[n])) then Some(ws[n][|p| - 1].ty)
      else None
  }

  /** In a build that is exact a node has the type of the first name that brought it in. */
  lemma {:induction false} BuildTypes(ws: seq<seq<Entry>>, p: seq<string>)
    requires AllRooted(ws) && NeverUnclean(ws)
    ensures TypeOf(Build(Root(), ws), p) == FirstType(ws, p)
    decreases |ws|
  {
    if ws == [] {
      assert TypeOf(Root(), p).Some? ==> p == [ROOT_NAME];
    } else {
      var init, w := ws[..|ws| - 1], ws[|ws| - 1];
      assert ws == init + [w] && Rooted(Root(), w);
      NeverUncleanNext(ws);
      BuildTypes(init, p);
      BuildSnoc(Root(), init, w);
      BuildProper(init);
      CleanBuildIsExact(init);
      CleanAtIsLeavesCleanly(Build(Root(), init), Strs(w));
      TypeStep(Build(Root(), init), w, p);
    }
  }

  lemma TypeStep(t: Tree, w: seq<Entry>, p: seq<string>)
    requires Proper(t) && Rooted(t, w) && LeavesCleanly(t, Strs(w))
    ensures TypeOf(AddNode(t, w), p) == if TypeOf(t, p).Some? then TypeOf(t, p)
                                        else if IsPrefix(p, Strs(w)) then Some(w[|p| - 1].ty) else None
  {
    AddNodeProper(t, w);
    TypeOfIff(t, p);
    TypeOfIff(AddNode(t, w), p);
    AddNodeAddsPrefixes(t, w, p);
    if HasPath(t, p) {
      AddNodeKeepsTypes(t, w, p);
    } else if IsPrefix(p, Strs(w)) {
      AddNodeTypes(t, w, p);
    }
  }

  /** Reversing siblings changes no type. */
  lemma {:induction false} FlipTypes(t: Tree, p: seq<string>)
    requires Proper(t)
    ensures TypeOf(Flip(t), p) == TypeOf(t, p)
    decreases |p|
  {
    if |p| > 1 && p[0] == t.name {
      var n := |t.kids|;
      var k, k' := FindKid(t.kids, p[1]), FindKid(FlipKids(t.kids), p[1]);
      if n > 0 { FlipKidsAt(t.kids, 0); }
      if k.Some? {
        FlipKidsAt(t.kids, k.value);
        FlipTypes(t.kids[k.value], p[1..]);
      }
      if k'.Some? { FlipKidsAt(t.kids, n - 1 - k'.value); }
    }
  }

  lemma WellNamedIsClean(names: seq<Option<NameSpace>>)
    requires AllWellNamed(names)
    ensures AllRegular(names) && NeverUnclean(PathsOf(names))
  {
    var ws := PathsOf(names);
    AllAcceptable(names);
    forall j | 0 <= j < |ws|
      ensures Acceptable(ws[j])
    {
      assert ws[j] in ws;
    }
  }

  /** The whole export as a function of the names: the stream is balanced, the tree read back from it has exactly the
      root and the prefixes of the names' segments as its paths, each with its first type, and one node per path. */
  lemma ExportedTree(names: seq<Option<NameSpace>>, p: seq<string>)
    requires AllRegular(names) && NeverUnclean(PathsOf(names)) && KnownTypes(names)
    ensures var t := Build(Root(), PathsOf(names));
            && Typed(t) && Parse(Print(t)) == Some(Flip(t))
            && (HasPath(Flip(t), p) <==> p == [ROOT_NAME] || Named(names, p))
            && TypeOf(Flip(t), p) == FirstType(PathsOf(names), p)
            && Proper(Flip(t)) && Size(t) == |AllPrefixes(PathsOf(names))|
  {
    var ws := PathsOf(names);
    var t := Build(Root(), ws);
    BuildTyped(names);
    ParseOfPrint(t);
    AllPathsRooted(names);
    CleanBuildIsExact(ws);
    BuildProper(ws);
    SizeIsPathCount(t);
    FlipProper(t);
    FlipPaths(t, p);
    PathSetIsPaths(t, p);
    AllPrefixesNamed(names, p);
    FlipTypes(t, p);
    BuildTypes(ws, p);
  }

  /** The stream of the export, as a function of the names. */
  ghost function Exported(names: seq<Option<NameSpace>>): seq<XmlToken>
    requires KnownTypes(names)
  {
    BuildTyped(names);
    Print(Build(Root(), PathsOf(names)))
  }

  /** Regular names that never repeat a segment just where they leave the earlier names. */
  ghost predicate Orderly(names: seq<Option<NameSpace>>) {
    AllRegular(names) && NeverUnclean(PathsOf(names))
  }

  /** The path `p` of a name ends with its token at `k`. */
  ghost predicate EndsAt(ns: NameSpace, p: seq<string>, k: nat) {
    var ts := Tokens(ns.name);
    k < |ts| && !Instance(ts[k]) && p == Segments(ts[..k + 1])
  }

  lemma {:induction false} IntendedAt(ts: seq<string>, ty: nat, k: nat)
    requires k < |ts| && !Placeholder(ts[k])
    ensures var n, w := |Segments(ts[..k + 1])|, Intended(ts, ty);
            1 <= n <= |w| && w[n - 1] == Entry(ts[k], TypeAt(ts, ty, k))
    decreases k
  {
    var up := ts[..k + 1];
    if k == 0 {
      assert up[1..] == [];
    } else {
      var rest := ts[1..];
      IntendedAt(rest, ty, k - 1);
      assert up[1..] == rest[..k] && up[0] == ts[0];
      assert TypeAt(rest, ty, k - 1) == TypeAt(ts, ty, k);
      var head := if Placeholder(ts[0]) then [] else [Entry(ts[0], TypeAt(ts, ty, 0))];
      assert Intended(ts, ty) == head + Intended(rest, ty);
      assert |Segments(up)| == |head| + |Segments(rest[..k])|;
    }
  }

  lemma {:induction false} SegmentsEnd(ts: seq<string>, n: nat) returns (k: nat)
    requires 1 <= n <= |Segments(ts)|
    ensures k < |ts| && !Placeholder(ts[k]) && Segments(ts)[..n] == Segments(ts[..k + 1])
    decreases |ts|
  {
    var here := if Placeholder(ts[0]) then 0 else 1;
    if n == here {
      k := 0;
      assert ts[..1][1..] == [];
    } else {
      var k' := SegmentsEnd(ts[1..], n - here);
      k := k' + 1;
      assert ts[..k + 1][1..] == ts[1..][..k' + 1];
    }
  }

  /** Every prefix of a name's segments ends with some token of it. */
  lemma EndsSomewhere(ns: NameSpace, p: seq<string>) returns (k: nat)
    requires IsPrefix(p, Segments(Tokens(ns.name)))
    ensures EndsAt(ns, p, k)
  {
    k := SegmentsEnd(Tokens(ns.name), |p|);
    PlaceholderIsInstance(Tokens(ns.name)[k]);
  }

  /** `p` is a prefix of the segments of the accepted name at `i`. */
  ghost predicate NamedAt(names: seq<Option<NameSpace>>, p: seq<string>, i: nat) {
    i < |names| && Accepted(names[i]) && IsPrefix(p, Segments(Tokens(names[i].value.name)))
  }

  lemma {:induction false} FirstTypeIs(names: seq<Option<NameSpace>>, p: seq<string>, i: nat)
    requires AllRegular(names) && p != [ROOT_NAME] && i <= |names|
    requires i < |names| ==> NamedAt(names, p, i)
    requires forall j :: 0 <= j < i ==> !NamedAt(names, p, j)
    ensures if i == |names| then FirstType(PathsOf(names), p) == None
            else |p| <= |PathOf(names[i].value)| && p != []
                 && FirstType(PathsOf(names), p) == Some(PathOf(names[i].value)[|p| - 1].ty)
    decreases |names|
  {
    if names != [] {
      var n := |names| - 1;
      var init, last := names[..n], names[n];
      forall j | 0 <= j < n
        ensures NamedAt(init, p, j) <==> NamedAt(names, p, j)
      {
      }
      FirstTypeIs(init, p, if i <= n then i else n);
      if Accepted(last) {
        RegularIsRooted(last.value);
        var ws := PathsOf(names);
        assert ws[..|ws| - 1] == PathsOf(init) && ws[|ws| - 1] == PathOf(last.value);
        assert NamedAt(names, p, n) <==> IsPrefix(p, Strs(PathOf(last.value)));
      } else {
        assert PathsOf(names) == PathsOf(init);
      }
    }
  }

  /** The types in the exported file, from the registered names alone: a path has the type it gets from the first
      accepted name it begins, which is the registered data type where the path ends with the name's last token, array (11) where
      the next token is an instance, and object (12) otherwise. */
  lemma ExportedTypes(names: seq<Option<NameSpace>>, p: seq<string>, i: nat, k: nat)
    requires Orderly(names) && KnownTypes(names) && p != [ROOT_NAME]
    requires NamedAt(names, p, i) && EndsAt(names[i].value, p, k)
    requires forall j :: 0 <= j < i ==> !NamedAt(names, p, j)
    ensures var u, ts := Parse(Exported(names)), Tokens(names[i].value.name);
            && u.Some? && k < |ts|
            && TypeOf(u.value, p) == Some(if k + 1 == |ts| then names[i].value.dataType
                                          else if Instance(ts[k + 1]) then 11 else 12)
  {
    ExportedTree(names, p);
    FirstTypeIs(names, p, i);
    PathTypeAt(names[i].value, p, k);
  }

  lemma PathTypeAt(ns: NameSpace, p: seq<string>, k: nat)
    requires Regular(ns) && EndsAt(ns, p, k)
    ensures var w, ts := PathOf(ns), Tokens(ns.name);
            && 1 <= |p| <= |w| && k < |ts|
            && w[|p| - 1].ty == if k + 1 == |ts| then ns.dataType else if Instance(ts[k + 1]) then 11 else 12
  {
    var ts := Tokens(ns.name);
    MarkIntendedIff(ts, ns.dataType);
    PlaceholderIsInstance(ts[k]);
    IntendedAt(ts, ns.dataType, k);
    if k + 1 < |ts| { PlaceholderIsInstance(ts[k + 1]); }
  }

  /** A path that is neither the root nor begins a name is not in the file. */
  lemma ExportedOthers(names: seq<Option<NameSpace>>, p: seq<string>)
    requires Orderly(names) && KnownTypes(names) && p != [ROOT_NAME]
    requires forall i :: 0 <= i < |names| ==> !NamedAt(names, p, i)
    ensures var u := Parse(Exported(names)); u.Some? && TypeOf(u.value, p) == None
  {
    ExportedTree(names, p);
    FirstTypeIs(names, p, |names|);
  }

  lemma {:induction false} RootType(ws: seq<seq<Entry>>)
    ensures FirstType(ws, [ROOT_NAME]) == Some(CCSP_OBJECT)
    decreases |ws|
  {
    if ws != [] { RootType(ws[..|ws| - 1]); }
  }

  /** The root is an object. */
  lemma ExportedRoot(names: seq<Option<NameSpace>>)
    requires Orderly(names) && KnownTypes(names)
    ensures var u := Parse(Exported(names)); u.Some? && TypeOf(u.value, ["Device"]) == Some(12)
  {
    ExportedTree(names, [ROOT_NAME]);
    RootType(PathsOf(names));
  }

  /** The exact condition for the exported file to list no parameter twice, for all accepted names: no insertion stops
      at a node that has the next token for a child already. */
  lemma ExportProperIff(names: seq<Option<NameSpace>>)
    requires KnownTypes(names)
    ensures var t := Build(Root(), PathsOf(names));
            Typed(t) && Parse(Print(t)).Some? && (Proper(Parse(Print(t)).value) <==> NoTwins(PathsOf(names)))
  {
    var t := Build(Root(), PathsOf(names));
    BuildTyped(names);
    ParseOfPrint(t);
    FlipProper(t);
    BuildProperIff(PathsOf(names));
  }

  /** The exact condition for the exported file to list the root and the prefixes of the names' segments, and nothing
      else: no name repeats a segment just where it leaves the paths of the names before it. */
  lemma ExportExactIff(names: seq<Option<NameSpace>>)
    requires AllRegular(names) && KnownTypes(names)
    ensures var t := Build(Root(), PathsOf(names));
            && Typed(t) && Parse(Print(t)).Some?
            && ((forall p :: HasPath(Parse(Print(t)).value, p) <==> p == [ROOT_NAME] || Named(names, p))
                <==> NeverUnclean(PathsOf(names)))
  {
    var ws := PathsOf(names);
    var t := Build(Root(), ws);
    BuildTyped(names);
    ParseOfPrint(t);
    AllPathsRooted(names);
    forall p
      ensures HasPath(Flip(t), p) <==> p in PathSet(t)
      ensures p == [ROOT_NAME] || Named(names, p) <==> p in AllPrefixes(ws)
    {
      FlipPaths(t, p);
      PathSetIsPaths(t, p);
      AllPrefixesNamed(names, p);
    }
    ExactPaths(names, Flip(t), PathSet(t), AllPrefixes(ws));
    BuildExactIff(ws);
  }

  lemma ExactPaths(names: seq<Option<NameSpace>>, u: Tree, have: set<seq<string>>, want: set<seq<string>>)
    requires forall p :: HasPath(u, p) <==> p in have
    requires forall p :: p == [ROOT_NAME] || Named(names, p) <==> p in want
    ensures (forall p :: HasPath(u, p) <==> p == [ROOT_NAME] || Named(names, p)) <==> have == want
  {
    if have == want {
      forall p
        ensures HasPath(u, p) <==> p == [ROOT_NAME] || Named(names, p)
      {
        assert p in have <==> p in want;
      }
    } else {
      var p :| p in have <==> p !in want;
      assert !(HasPath(u, p) <==> p == [ROOT_NAME] || Named(names, p));
    }
  }

  /** For regular names that never leave uncleanly: no array of children overflows if and only if no path has more than
      128 distinct successors among the names. */
  lemma ExportFitsIff(names: seq<Option<NameSpace>>)
    requires AllRegular(names) && NeverUnclean(PathsOf(names))
    ensures StagesFit(PathsOf(names)) <==> FewSuccessors(AllPrefixes(PathsOf(names)))
  {
    AllPathsRooted(names);
    StagesFitIff(PathsOf(names));
  }
}
