/** Sizes, types and fan-out of the data-model tree, and what a whole build does. */
module DmBuild {
  import opened Wrappers
  import opened DmNames
  import opened DmTree

  const MAX_CHILDREN := 128

  /** The type of the node a path leads to. */
  function TypeOf(t: Tree, p: seq<string>): Option<nat>
    decreases |p|
  {
    if p == [] || p[0] != t.name then None
    else if |p| == 1 then Some(t.ty)
    else
      var k := FindKid(t.kids, p[1]);
      if k.None? then None else TypeOf(t.kids[k.value], p[1..])
  }

  lemma {:induction false} TypeOfIff(t: Tree, p: seq<string>)
    requires Proper(t)
    ensures HasPath(t, p) <==> TypeOf(t, p).Some?
    decreases |p|
  {
    if |p| > 1 && p[0] == t.name {
      PathThroughKid(t, p);
      var k := FindKid(t.kids, p[1]);
      if k.Some? { TypeOfIff(t.kids[k.value], p[1..]); }
    }
  }

  lemma {:induction false} BranchTypes(w: seq<Entry>, k: nat)
    requires 1 <= k <= |w|
    ensures TypeOf(Branch(w), Strs(w)[..k]) == Some(w[k - 1].ty)
    decreases |w|
  {
    var p := Strs(w)[..k];
    if k > 1 {
      BranchTypes(w[1..], k - 1);
      assert Strs(w[1..]) == Strs(w)[1..];
      assert p[1..] == Strs(w[1..])[..k - 1];
      assert Branch(w).kids[0] == Branch(w[1..]);
    }
  }

  lemma ReplaceKidType(t: Tree, i: nat, kid: Tree, p: seq<string>)
    requires i < |t.kids| && kid.name == t.kids[i].name && FindKid(t.kids, kid.name) == Some(i)
    requires |p| > 1 && p[0] == t.name
    ensures TypeOf(t.(kids := t.kids[i := kid]), p) == if p[1] == kid.name then TypeOf(kid, p[1..]) else TypeOf(t, p)
  {
    var t' := t.(kids := t.kids[i := kid]);
    assert forall j :: 0 <= j < |t.kids| ==> t'.kids[j].name == t.kids[j].name;
    var a, b := FindKid(t.kids, p[1]), FindKid(t'.kids, p[1]);
    assert a == b;
  }

  lemma AppendKidType(t: Tree, kid: Tree, p: seq<string>)
    requires |p| > 1 && p[0] == t.name
    ensures var t' := t.(kids := t.kids + [kid]);
            TypeOf(t', p) == if FindKid(t.kids, p[1]).Some? then TypeOf(t, p)
                             else if p[1] == kid.name then TypeOf(kid, p[1..]) else None
  {
    var t' := t.(kids := t.kids + [kid]);
    var a, b := FindKid(t.kids, p[1]), FindKid(t'.kids, p[1]);
    assert forall j :: 0 <= j < |t.kids| ==> t'.kids[j] == t.kids[j];
    assert t'.kids[|t.kids|] == kid;
    if a.Some? { assert b == a; }
  }

  /** Whatever the list of tokens, insertion leaves existing nodes their types. */
  lemma {:induction false} AddNodeKeepsTypes(t: Tree, w: seq<Entry>, p: seq<string>)
    requires TypeOf(t, p).Some?
    ensures TypeOf(AddNode(t, w), p) == TypeOf(t, p)
    decreases |w|
  {
    AddNodeKeepsName(t, w);
    if |p| > 1 && w != [] {
      if '{' in w[0].str {
        AddNodeKeepsTypes(t, w[1..], p);
      } else if w[0].str != t.name {
        AppendKidType(t, Branch(w), p);
      } else if |w| > 1 {
        var k := FindKid(t.kids, w[1].str);
        if k.None? {
          AddNodeKeepsTypes(t, w[1..], p);
        } else {
          var kid := t.kids[k.value];
          AddNodeKeepsName(kid, w[1..]);
          ReplaceKidType(t, k.value, AddNode(kid, w[1..]), p);
          if p[1] == kid.name { AddNodeKeepsTypes(kid, w[1..], p[1..]); }
        }
      }
    }
  }

  /** A node that a clean insertion adds has the type of its own token. */
  lemma {:induction false} AddNodeTypes(t: Tree, w: seq<Entry>, p: seq<string>)
    requires Proper(t) && Rooted(t, w) && LeavesCleanly(t, Strs(w))
    requires !HasPath(t, p) && IsPrefix(p, Strs(w))
    ensures TypeOf(AddNode(t, w), p) == Some(w[|p| - 1].ty)
    decreases |w|
  {
    var names := Strs(w);
    assert p[0] == names[0] && |p| <= |names|;
    assert |p| > 1 && p[1] == names[1];
    AddNodeStep(t, w);
    LeavesCleanlyStep(t, names);
    assert Strs(w[1..]) == names[1..];
    PrefixStep(p, names);
    PathThroughKid(t, p);
    var k := FindKid(t.kids, w[1].str);
    if k.Some? {
      AddNodeKeepsName(t.kids[k.value], w[1..]);
      ReplaceKidType(t, k.value, AddNode(t.kids[k.value], w[1..]), p);
      AddNodeTypes(t.kids[k.value], w[1..], p[1..]);
    } else {
      AppendKidType(t, Branch(w[1..]), p);
      BranchTypes(w[1..], |p| - 1);
      assert p[1..] == Strs(w[1..])[..|p| - 1];
    }
  }

  function Size(t: Tree): (n: nat)
    decreases t
  {
    1 + KidsSize(t.kids)
  }

  function KidsSize(kids: seq<Tree>): nat
    decreases kids
  {
    if kids == [] then 0 else Size(kids[0]) + KidsSize(kids[1..])
  }

  ghost function PathSet(t: Tree): set<seq<string>>
    decreases t
  {
    {[t.name]} + Below(t.name, KidsPathSet(t.kids))
  }

  ghost function KidsPathSet(kids: seq<Tree>): set<seq<string>>
    decreases kids
  {
    if kids == [] then {} else PathSet(kids[0]) + KidsPathSet(kids[1..])
  }

  ghost function Below(name: string, paths: set<seq<string>>): (r: set<seq<string>>)
    ensures forall p :: p in r <==> p != [] && p[0] == name && p[1..] in paths
  {
    var r := set p | p in paths :: [name] + p;
    assert forall p :: p != [] && p[0] == name && p[1..] in paths ==> p in r by {
      forall p: seq<string> | p != [] && p[0] == name && p[1..] in paths
        ensures p in r
      {
        assert p == [name] + p[1..];
      }
    }
    r
  }

  lemma {:induction false} PathSetIsPaths(t: Tree, p: seq<string>)
    ensures p in PathSet(t) <==> HasPath(t, p)
    decreases t
  {
    if p != [] && p[0] == t.name {
      assert |p| == 1 ==> p == [t.name];
      KidsPathSetIsPaths(t.kids, p[1..]);
    }
  }

  lemma {:induction false} KidsPathSetIsPaths(kids: seq<Tree>, p: seq<string>)
    ensures p in KidsPathSet(kids) <==> exists i :: 0 <= i < |kids| && HasPath(kids[i], p)
    decreases kids
  {
    if kids != [] {
      PathSetIsPaths(kids[0], p);
      KidsPathSetIsPaths(kids[1..], p);
      if i :| 0 <= i < |kids| && HasPath(kids[i], p) {
        assert i > 0 ==> kids[1..][i - 1] == kids[i];
      }
      if i :| 0 <= i < |kids[1..]| && HasPath(kids[1..][i], p) {
        assert kids[1..][i] == kids[i + 1];
      }
    }
  }

  lemma {:induction false} BelowSize(name: string, paths: set<seq<string>>)
    ensures |Below(name, paths)| == |paths|
    decreases |paths|
  {
    if paths == {} {
      assert Below(name, paths) == {};
    } else {
      var p :| p in paths;
      BelowSize(name, paths - {p});
      assert ([name] + p)[1..] == p;
      assert Below(name, paths) == Below(name, paths - {p}) + {[name] + p} by {
        forall q
          ensures q in Below(name, paths) <==> q in Below(name, paths - {p}) + {[name] + p}
        {
          if q in Below(name, paths) && q[1..] == p { assert q == [name] + p; }
        }
      }
    }
  }

  /** A proper tree has one node for each path. */
  lemma {:induction false} SizeIsPathCount(t: Tree)
    requires Proper(t)
    ensures Size(t) == |PathSet(t)|
    decreases t
  {
    KidsSizeIsPathCount(t.kids);
    BelowSize(t.name, KidsPathSet(t.kids));
    KidsPathSetIsPaths(t.kids, []);
    assert [t.name][1..] == [];
    assert [t.name] !in Below(t.name, KidsPathSet(t.kids));
  }

  lemma {:induction false} KidsSizeIsPathCount(kids: seq<Tree>)
    requires forall i :: 0 <= i < |kids| ==> Proper(kids[i])
    requires forall i, j :: 0 <= i < j < |kids| ==> kids[i].name != kids[j].name
    ensures KidsSize(kids) == |KidsPathSet(kids)|
    decreases kids
  {
    if kids != [] {
      SizeIsPathCount(kids[0]);
      KidsSizeIsPathCount(kids[1..]);
      forall p | p in PathSet(kids[0])
        ensures p !in KidsPathSet(kids[1..])
      {
        PathSetIsPaths(kids[0], p);
        KidsPathSetIsPaths(kids[1..], p);
      }
    }
  }

  ghost function Prefixes(w: seq<string>): (r: set<seq<string>>)
    ensures forall p :: p in r <==> IsPrefix(p, w)
  {
    var r := set k | 1 <= k <= |w| :: w[..k];
    assert forall p :: IsPrefix(p, w) ==> p in r by {
      forall p | IsPrefix(p, w)
        ensures p in r
      {
        assert p == w[..|p|];
      }
    }
    r
  }

  /** A clean insertion allocates exactly as many nodes as the path had missing prefixes. */
  lemma AddNodeSize(t: Tree, w: seq<Entry>)
    requires Proper(t) && Rooted(t, w) && LeavesCleanly(t, Strs(w))
    ensures PathSet(AddNode(t, w)) == PathSet(t) + Prefixes(Strs(w))
    ensures Size(AddNode(t, w)) == Size(t) + |Prefixes(Strs(w)) - PathSet(t)|
  {
    var t' := AddNode(t, w);
    forall p
      ensures p in PathSet(t') <==> p in PathSet(t) + Prefixes(Strs(w))
    {
      PathSetIsPaths(t', p);
      PathSetIsPaths(t, p);
      AddNodeAddsPrefixes(t, w, p);
    }
    AddNodeProper(t, w);
    SizeIsPathCount(t);
    SizeIsPathCount(t');
    assert PathSet(t') == PathSet(t) + (Prefixes(Strs(w)) - PathSet(t));
  }

  /** A normalised name the exporter places correctly in any tree: rooted at `Device`, without braces, and with no two
      equal neighbours. */
  ghost predicate Acceptable(w: seq<Entry>) {
    && w != [] && w[0].str == ROOT_NAME && NoBraces(w)
    && forall k :: 1 <= k < |w| ==> w[k].str != w[k - 1].str
  }

  function Root(): Tree {
    Node(ROOT_NAME, CCSP_OBJECT, [])
  }

  function Build(t: Tree, ws: seq<seq<Entry>>): Tree
    decreases |ws|
  {
    if ws == [] then t else Build(AddNode(t, ws[0]), ws[1..])
  }

  lemma {:induction false} BuildSnoc(t: Tree, ws: seq<seq<Entry>>, w: seq<Entry>)
    ensures Build(t, ws + [w]) == AddNode(Build(t, ws), w)
    decreases |ws|
  {
    if ws == [] {
      assert Build(t, [w]) == Build(AddNode(t, w), [w][1..]);
    } else {
      assert (ws + [w])[1..] == ws[1..] + [w];
      BuildSnoc(AddNode(t, ws[0]), ws[1..], w);
    }
  }

  /** Every non-empty prefix of a name in the list, and the root. */
  ghost function AllPrefixes(ws: seq<seq<Entry>>): set<seq<string>> {
    if ws == [] then {[ROOT_NAME]} else AllPrefixes(ws[..|ws| - 1]) + Prefixes(Strs(ws[|ws| - 1]))
  }

  /** Every path in the list starts at `Device` and holds no brace. */
  ghost predicate AllRooted(ws: seq<seq<Entry>>) {
    forall i :: 0 <= i < |ws| ==> Rooted(Root(), ws[i])
  }

  /** No name of the list has, right after its longest prefix among the earlier names, a segment equal to the one
      before. */
  ghost predicate NeverUnclean(ws: seq<seq<Entry>>) {
    forall j, k :: 0 <= j < |ws| && 1 <= k < |ws[j]| ==> CleanAt(AllPrefixes(ws[..j]), Strs(ws[j]), k)
  }

  ghost predicate CleanAt(earlier: set<seq<string>>, w: seq<string>, k: nat)
    requires 1 <= k < |w|
  {
    w[..k] in earlier && w[..k + 1] !in earlier ==> w[k] != w[k - 1]
  }

  lemma NeverUncleanNext(ws: seq<seq<Entry>>)
    requires ws != []
    ensures var init, w := ws[..|ws| - 1], ws[|ws| - 1];
            NeverUnclean(ws) <==> NeverUnclean(init)
                                  && forall k :: 1 <= k < |w| ==> CleanAt(AllPrefixes(init), Strs(w), k)
  {
    var init, w := ws[..|ws| - 1], ws[|ws| - 1];
    forall j | 0 <= j < |init|
      ensures init[..j] == ws[..j] && init[j] == ws[j]
    {
    }
    if NeverUnclean(ws) {
      forall j, k | 0 <= j < |init| && 1 <= k < |init[j]|
        ensures CleanAt(AllPrefixes(init[..j]), Strs(init[j]), k)
      {
        assert CleanAt(AllPrefixes(ws[..j]), Strs(ws[j]), k);
      }
      assert ws[..|init|] == init;
    } else {
      var j, k :| 0 <= j < |ws| && 1 <= k < |ws[j]| && !CleanAt(AllPrefixes(ws[..j]), Strs(ws[j]), k);
      if j < |init| {
        assert !CleanAt(AllPrefixes(init[..j]), Strs(init[j]), k);
      } else {
        assert ws[..j] == init && ws[j] == w && !CleanAt(AllPrefixes(init), Strs(w), k);
      }
    }
  }

  lemma CleanAtIsLeavesCleanly(t: Tree, w: seq<string>)
    ensures LeavesCleanly(t, w) <==> forall k :: 1 <= k < |w| ==> CleanAt(PathSet(t), w, k)
  {
    forall k | 0 <= k <= |w|
      ensures w[..k] in PathSet(t) <==> HasPath(t, w[..k])
    {
      PathSetIsPaths(t, w[..k]);
    }
    if !LeavesCleanly(t, w) {
      var k :| 1 <= k < |w| && HasPath(t, w[..k]) && !HasPath(t, w[..k + 1]) && w[k] == w[k - 1];
      assert !CleanAt(PathSet(t), w, k);
    } else if k :| 1 <= k < |w| && !CleanAt(PathSet(t), w, k) {
      assert false;
    }
  }

  /** Any build keeps the tree proper and rooted. */
  lemma {:induction false} BuildProper(ws: seq<seq<Entry>>)
    requires AllRooted(ws)
    ensures Proper(Build(Root(), ws)) && Build(Root(), ws).name == ROOT_NAME
    decreases |ws|
  {
    if ws != [] {
      var init, w := ws[..|ws| - 1], ws[|ws| - 1];
      assert ws == init + [w] && Rooted(Root(), w);
      BuildProper(init);
      BuildSnoc(Root(), init, w);
      AddNodeProper(Build(Root(), init), w);
      AddNodeKeepsName(Build(Root(), init), w);
    }
  }

  /** At no stage does an insertion stop at a node that has the next token for a child already. */
  ghost predicate NoTwins(ws: seq<seq<Entry>>) {
    forall j :: 0 <= j < |ws| ==> !Twin(Build(Root(), ws[..j]), ws[j])
  }

  lemma NoTwinsNext(ws: seq<seq<Entry>>)
    requires ws != []
    ensures var n := |ws| - 1; NoTwins(ws) <==> NoTwins(ws[..n]) && !Twin(Build(Root(), ws[..n]), ws[n])
  {
    var n := |ws| - 1;
    forall j | 0 <= j < n
      ensures ws[..n][..j] == ws[..j] && ws[..n][j] == ws[j]
    {
    }
  }

  /** For any list of token lists, rooted or not: siblings are distinct in the end if and only if no insertion had a
      twin. */
  lemma {:induction false} BuildProperIff(ws: seq<seq<Entry>>)
    ensures Proper(Build(Root(), ws)) <==> NoTwins(ws)
    decreases |ws|
  {
    if ws != [] {
      var init, w := ws[..|ws| - 1], ws[|ws| - 1];
      assert ws == init + [w];
      var t := Build(Root(), init);
      BuildProperIff(init);
      BuildSnoc(Root(), init, w);
      NoTwinsNext(ws);
      if Proper(t) {
        AddNodeProperIff(t, w);
      } else {
        ImproperStays(t, w);
      }
    }
  }

  /** For any list: a node keeps the type it had at the first stage that had it. */
  lemma {:induction false} BuildKeepsTypes(ws: seq<seq<Entry>>, j: nat, p: seq<string>)
    requires j <= |ws| && TypeOf(Build(Root(), ws[..j]), p).Some?
    ensures TypeOf(Build(Root(), ws), p) == TypeOf(Build(Root(), ws[..j]), p)
    decreases |ws|
  {
    if j == |ws| {
      assert ws[..j] == ws;
    } else {
      var init, w := ws[..|ws| - 1], ws[|ws| - 1];
      assert ws == init + [w] && init[..j] == ws[..j];
      BuildKeepsTypes(init, j, p);
      BuildSnoc(Root(), init, w);
      AddNodeKeepsTypes(Build(Root(), init), w, p);
    }
  }

  /** One more name: the build stays exact if and only if it was exact and the name leaves the tree cleanly. */
  lemma CleanBuildStep(init: seq<seq<Entry>>, w: seq<Entry>)
    requires AllRooted(init) && Rooted(Root(), w) && PathSet(Build(Root(), init)) == AllPrefixes(init)
    requires forall k :: 1 <= k < |w| ==> CleanAt(AllPrefixes(init), Strs(w), k)
    ensures PathSet(Build(Root(), init + [w])) == AllPrefixes(init + [w])
  {
    var t := Build(Root(), init);
    BuildProper(init);
    BuildSnoc(Root(), init, w);
    CleanAtIsLeavesCleanly(t, Strs(w));
    AddNodeSize(t, w);
    assert (init + [w])[..|init|] == init;
  }

  lemma {:induction false} CleanBuildIsExact(ws: seq<seq<Entry>>)
    requires AllRooted(ws) && NeverUnclean(ws)
    ensures PathSet(Build(Root(), ws)) == AllPrefixes(ws)
    decreases |ws|
  {
    if ws == [] {
      assert KidsPathSet([]) == {};
      assert Below(ROOT_NAME, {}) == {};
    } else {
      var init, w := ws[..|ws| - 1], ws[|ws| - 1];
      assert ws == init + [w];
      NeverUncleanNext(ws);
      CleanBuildIsExact(init);
      CleanBuildStep(init, w);
    }
  }

  /** After one unclean insertion a prefix is missing for good. */
  lemma {:induction false} UncleanBuildLoses(ws: seq<seq<Entry>>) returns (p: seq<string>)
    requires AllRooted(ws) && !NeverUnclean(ws)
    ensures p in AllPrefixes(ws) && LacksRepeat(Build(Root(), ws), p)
    decreases |ws|
  {
    var init, w := ws[..|ws| - 1], ws[|ws| - 1];
    assert ws == init + [w] && Rooted(Root(), w);
    var t := Build(Root(), init);
    NeverUncleanNext(ws);
    BuildProper(init);
    BuildSnoc(Root(), init, w);
    if NeverUnclean(init) {
      CleanBuildIsExact(init);
      CleanAtIsLeavesCleanly(t, Strs(w));
      p := UncleanLosesPrefix(t, w);
      AddNodeKeepsPaths(t, w, p[..|p| - 1]);
    } else {
      p := UncleanBuildLoses(init);
      RepeatStaysLost(t, w, p);
    }
  }

  /** The exact condition for a build to hold all prefixes of its names and nothing else. */
  lemma BuildExactIff(ws: seq<seq<Entry>>)
    requires AllRooted(ws)
    ensures PathSet(Build(Root(), ws)) == AllPrefixes(ws) <==> NeverUnclean(ws)
  {
    if NeverUnclean(ws) {
      CleanBuildIsExact(ws);
    } else {
      var p := UncleanBuildLoses(ws);
      PathSetIsPaths(Build(Root(), ws), p);
    }
  }

  /** After any sequence of insertions of acceptable names the tree is proper, rooted at `Device`, and holds exactly the
      prefixes of the names inserted, each once. */
  lemma BuildIsAllPrefixes(ws: seq<seq<Entry>>)
    requires forall w :: w in ws ==> Acceptable(w)
    ensures var t := Build(Root(), ws);
            Proper(t) && t.name == ROOT_NAME && PathSet(t) == AllPrefixes(ws) && Size(t) == |AllPrefixes(ws)|
  {
    forall i | 0 <= i < |ws|
      ensures Acceptable(ws[i])
    {
      assert ws[i] in ws;
    }
    CleanBuildIsExact(ws);
    BuildProper(ws);
    SizeIsPathCount(Build(Root(), ws));
  }

  /** The paths in a set that go on from `p` by one segment. */
  ghost function Successors(paths: set<seq<string>>, p: seq<string>): set<seq<string>> {
    set q | q in paths && |q| == |p| + 1 && q[..|p|] == p
  }

  /** The number of children of the node at the end of a path. */
  function FanOut(t: Tree, p: seq<string>): nat
    decreases |p|
  {
    if p == [] || p[0] != t.name then 0
    else if |p| == 1 then |t.kids|
    else
      var k := FindKid(t.kids, p[1]);
      if k.None? then 0 else FanOut(t.kids[k.value], p[1..])
  }

  lemma SuccessorsOfRoot(t: Tree)
    requires Proper(t)
    ensures |Successors(PathSet(t), [t.name])| == |t.kids|
  {
    var p := [t.name];
    KidNames(t, |t.kids|);
    var names := set i | 0 <= i < |t.kids| :: [t.name, t.kids[i].name];
    forall q
      ensures q in Successors(PathSet(t), p) <==> q in names
    {
      PathSetIsPaths(t, q);
      if q in names {
        var i :| 0 <= i < |t.kids| && q == [t.name, t.kids[i].name];
        assert HasPath(t.kids[i], q[1..]);
        assert q[..1] == p;
      }
      if q in Successors(PathSet(t), p) {
        assert q[0] == q[..1][0];
        var i :| 0 <= i < |t.kids| && HasPath(t.kids[i], q[1..]);
        assert q == [t.name, t.kids[i].name];
      }
    }
    assert Successors(PathSet(t), p) == names;
  }

  /** The successors of a path are those of its tail below the right child. */
  lemma SuccessorsOfKid(t: Tree, p: seq<string>, kid: Tree, q: seq<string>)
    requires Proper(t) && |p| > 1 && p[0] == t.name && FindKid(t.kids, p[1]).Some?
    requires kid == t.kids[FindKid(t.kids, p[1]).value]
    ensures q in Successors(PathSet(t), p) <==> q in Below(t.name, Successors(PathSet(kid), p[1..]))
  {
    PathSetIsPaths(t, q);
    if |q| == |p| + 1 {
      PathSetIsPaths(kid, q[1..]);
      assert q[..|p|][1..] == q[1..][..|p| - 1];
      if q[..|p|] == p {
        assert q[0] == q[..|p|][0] && q[1] == q[..|p|][1];
        PathThroughKid(t, q);
      }
      if q[0] == t.name && q[1..][..|p| - 1] == p[1..] {
        assert q[..|p|] == [q[0]] + q[1..][..|p| - 1];
        assert p == [p[0]] + p[1..];
        assert q[1] == q[1..][..|p| - 1][0];
        PathThroughKid(t, q);
      }
    }
  }

  /** A node's `count` is the number of distinct segments that follow its path. */
  lemma {:induction false} FanOutIsSuccessorCount(t: Tree, p: seq<string>)
    requires Proper(t) && HasPath(t, p)
    ensures FanOut(t, p) == |Successors(PathSet(t), p)|
    decreases |p|
  {
    if |p| == 1 {
      SuccessorsOfRoot(t);
      assert p == [t.name];
    } else {
      PathThroughKid(t, p);
      var kid := t.kids[FindKid(t.kids, p[1]).value];
      FanOutIsSuccessorCount(kid, p[1..]);
      BelowSize(t.name, Successors(PathSet(kid), p[1..]));
      forall q
        ensures q in Successors(PathSet(t), p) <==> q in Below(t.name, Successors(PathSet(kid), p[1..]))
      {
        SuccessorsOfKid(t, p, kid, q);
      }
      assert Successors(PathSet(t), p) == Below(t.name, Successors(PathSet(kid), p[1..]));
    }
  }

  lemma {:induction false} KidNames(t: Tree, n: nat)
    requires Proper(t) && n <= |t.kids|
    ensures |set i | 0 <= i < n :: [t.name, t.kids[i].name]| == n
    decreases n
  {
    if n > 0 {
      KidNames(t, n - 1);
      var last := [t.name, t.kids[n - 1].name];
      var names := set i | 0 <= i < n - 1 :: [t.name, t.kids[i].name];
      forall i | 0 <= i < n - 1
        ensures [t.name, t.kids[i].name] != last
      {
        assert [t.name, t.kids[i].name][1] != last[1];
      }
      assert (set i | 0 <= i < n :: [t.name, t.kids[i].name]) == names + {last};
    }
  }

  /** Every node has at most as many children as its array can hold. */
  ghost predicate Fits(t: Tree) {
    |t.kids| <= MAX_CHILDREN && forall i :: 0 <= i < |t.kids| ==> Fits(t.kids[i])
  }

  ghost predicate FewSuccessors(paths: set<seq<string>>) {
    forall p :: p in paths ==> |Successors(paths, p)| <= MAX_CHILDREN
  }

  lemma {:induction false} FitsIfFanOut(t: Tree)
    requires Proper(t) && forall p :: HasPath(t, p) ==> FanOut(t, p) <= MAX_CHILDREN
    ensures Fits(t)
    decreases t
  {
    assert HasPath(t, [t.name]) && FanOut(t, [t.name]) == |t.kids|;
    forall i | 0 <= i < |t.kids|
      ensures Fits(t.kids[i])
    {
      var kid := t.kids[i];
      forall p | HasPath(kid, p)
        ensures FanOut(kid, p) <= MAX_CHILDREN
      {
        var q := [t.name] + p;
        assert q[1..] == p;
        PathThrough(t, i, q);
        assert FindKid(t.kids, kid.name) == Some(i);
        assert FanOut(t, q) == FanOut(kid, p);
      }
      FitsIfFanOut(kid);
    }
  }

  lemma {:induction false} FanOutIfFits(t: Tree, p: seq<string>)
    requires Proper(t) && Fits(t) && HasPath(t, p)
    ensures FanOut(t, p) <= MAX_CHILDREN
    decreases |p|
  {
    if |p| > 1 {
      PathThroughKid(t, p);
      FanOutIfFits(t.kids[FindKid(t.kids, p[1]).value], p[1..]);
    }
  }

  /** The arrays are large enough if and only if no path has more distinct successors than an array holds. */
  lemma FitsIffFewSuccessors(t: Tree)
    requires Proper(t)
    ensures Fits(t) <==> FewSuccessors(PathSet(t))
  {
    if Fits(t) {
      forall p | p in PathSet(t)
        ensures |Successors(PathSet(t), p)| <= MAX_CHILDREN
      {
        PathSetIsPaths(t, p);
        FanOutIsSuccessorCount(t, p);
        FanOutIfFits(t, p);
      }
    }
    if FewSuccessors(PathSet(t)) {
      forall p | HasPath(t, p)
        ensures FanOut(t, p) <= MAX_CHILDREN
      {
        PathSetIsPaths(t, p);
        FanOutIsSuccessorCount(t, p);
      }
      FitsIfFanOut(t);
    }
  }

  /** Insertion never takes children away. */
  lemma {:induction false} FitsBefore(t: Tree, w: seq<Entry>)
    requires Fits(AddNode(t, w))
    ensures Fits(t)
    decreases |w|
  {
    var t' := AddNode(t, w);
    if w == [] || ('{' !in w[0].str && w[0].str == t.name && |w| == 1) {
    } else if '{' in w[0].str {
      FitsBefore(t, w[1..]);
    } else if w[0].str != t.name {
      assert forall i :: 0 <= i < |t.kids| ==> t'.kids[i] == t.kids[i];
    } else {
      var k := FindKid(t.kids, w[1].str);
      if k.None? {
        FitsBefore(t, w[1..]);
      } else {
        forall i | 0 <= i < |t.kids|
          ensures Fits(t.kids[i])
        {
          assert t'.kids[i] == if i == k.value then AddNode(t.kids[i], w[1..]) else t.kids[i];
          if i == k.value { FitsBefore(t.kids[i], w[1..]); }
        }
      }
    }
  }

  /** Every stage of the build fits the arrays of children. */
  ghost predicate StagesFit(ws: seq<seq<Entry>>) {
    forall j :: 0 <= j <= |ws| ==> Fits(Build(Root(), ws[..j]))
  }

  /** For any list of paths the whole build stays in range if and only if its result does. */
  lemma {:induction false} StagesFitIffLast(ws: seq<seq<Entry>>)
    ensures StagesFit(ws) <==> Fits(Build(Root(), ws))
    decreases |ws|
  {
    assert ws[..|ws|] == ws;
    if ws != [] {
      var init, w := ws[..|ws| - 1], ws[|ws| - 1];
      assert ws == init + [w];
      StagesFitIffLast(init);
      BuildSnoc(Root(), init, w);
      if Fits(Build(Root(), ws)) {
        FitsBefore(Build(Root(), init), w);
        forall j | 0 <= j <= |ws|
          ensures Fits(Build(Root(), ws[..j]))
        {
          if j < |ws| { assert ws[..j] == init[..j]; }
        }
      }
    }
  }

  /** No insertion of a list that never leaves uncleanly overflows an array of children if and only if no path has more
      distinct successors among all names than an array holds. */
  lemma StagesFitIff(ws: seq<seq<Entry>>)
    requires AllRooted(ws) && NeverUnclean(ws)
    ensures StagesFit(ws) <==> FewSuccessors(AllPrefixes(ws))
  {
    StagesFitIffLast(ws);
    CleanBuildIsExact(ws);
    BuildProper(ws);
    FitsIffFewSuccessors(Build(Root(), ws));
  }
}
