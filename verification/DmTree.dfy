/** The data-model tree as a value: what `AddNodeToDMTree` does to it, and what that means for the set of paths. */
module DmTree {
  import opened Wrappers
  import opened DmNames

  const ROOT_NAME := "Device"

  datatype Tree = Node(name: string, ty: nat, kids: seq<Tree>)

  function FindKid(kids: seq<Tree>, name: string): (r: Option<nat>)
    ensures r.Some? ==>
              && r.value < |kids| && kids[r.value].name == name
              && forall j :: 0 <= j < r.value ==> kids[j].name != name
    ensures r.None? ==> forall j :: 0 <= j < |kids| ==> kids[j].name != name
  {
    FindKidFrom(kids, name, 0)
  }

  function FindKidFrom(kids: seq<Tree>, name: string, from: nat): (r: Option<nat>)
    requires from <= |kids|
    ensures r.Some? ==>
              && from <= r.value < |kids| && kids[r.value].name == name
              && forall j :: from <= j < r.value ==> kids[j].name != name
    ensures r.None? ==> forall j :: from <= j < |kids| ==> kids[j].name != name
    decreases |kids| - from
  {
    if from == |kids| then None
    else if kids[from].name == name then Some(from)
    else FindKidFrom(kids, name, from + 1)
  }

  /** `AddChildNode` below a node: the rest of the path as a chain of new nodes. */
  function Branch(w: seq<Entry>): Tree
    requires w != []
  {
    Node(w[0].str, w[0].ty, if |w| == 1 then [] else [Branch(w[1..])])
  }

  /** `AddNodeToDMTree` with `t` the current node and `w` what is left of the list. A token is taken to be already
      placed when it equals the current node's own name. */
  function AddNode(t: Tree, w: seq<Entry>): Tree
    decreases |w|
  {
    if w == [] then t
    else if '{' in w[0].str then AddNode(t, w[1..])
    else if w[0].str != t.name then t.(kids := t.kids + [Branch(w)])
    else if |w| == 1 then t
    else
      match FindKid(t.kids, w[1].str)
      case Some(i) => t.(kids := t.kids[i := AddNode(t.kids[i], w[1..])])
      case None => AddNode(t, w[1..])
  }

  function Strs(w: seq<Entry>): (r: seq<string>)
    ensures |r| == |w| && forall i :: 0 <= i < |w| ==> r[i] == w[i].str
  {
    seq(|w|, i requires 0 <= i < |w| => w[i].str)
  }

  /** `p` is the sequence of names on the way from the root to some node. */
  ghost predicate HasPath(t: Tree, p: seq<string>)
    decreases |p|
  {
    p != [] && p[0] == t.name && (|p| == 1 || exists i :: 0 <= i < |t.kids| && HasPath(t.kids[i], p[1..]))
  }

  ghost predicate IsPrefix(p: seq<string>, w: seq<string>) {
    p != [] && p <= w
  }

  /** No node has two children of the same name. */
  ghost predicate Proper(t: Tree) {
    && (forall i, j :: 0 <= i < j < |t.kids| ==> t.kids[i].name != t.kids[j].name)
    && (forall i :: 0 <= i < |t.kids| ==> Proper(t.kids[i]))
  }

  ghost predicate NoBraces(w: seq<Entry>) {
    forall i :: 0 <= i < |w| ==> '{' !in w[i].str
  }

  /** A path that starts at the root and holds no brace. */
  ghost predicate Rooted(t: Tree, w: seq<Entry>) {
    w != [] && w[0].str == t.name && NoBraces(w)
  }

  /** Where the path leaves the tree, the first missing segment differs from the segment before it. */
  ghost predicate LeavesCleanly(t: Tree, w: seq<string>) {
    forall k :: 1 <= k < |w| && HasPath(t, w[..k]) && !HasPath(t, w[..k + 1]) ==> w[k] != w[k - 1]
  }

  lemma PathStep(t: Tree, p: seq<string>)
    requires |p| > 1
    ensures HasPath(t, p) <==> p[0] == t.name && exists i :: 0 <= i < |t.kids| && HasPath(t.kids[i], p[1..])
  {
  }

  lemma PathStarts(t: Tree, p: seq<string>)
    requires HasPath(t, p)
    ensures p != [] && p[0] == t.name
  {
  }

  /** A path goes on through the one child with the right name. */
  lemma PathThrough(t: Tree, k: nat, p: seq<string>)
    requires k < |t.kids| && |p| > 1 && p[0] == t.name && t.kids[k].name == p[1]
    requires forall i, j :: 0 <= i < j < |t.kids| ==> t.kids[i].name != t.kids[j].name
    ensures HasPath(t, p) <==> HasPath(t.kids[k], p[1..])
  {
    PathStep(t, p);
    var tail := p[1..];
    if HasPath(t, p) {
      var i :| 0 <= i < |t.kids| && HasPath(t.kids[i], tail);
      PathStarts(t.kids[i], tail);
      assert i == k;
    }
  }

  /** In a proper tree the lookup among the children decides where a path goes on. */
  lemma PathThroughKid(t: Tree, p: seq<string>)
    requires Proper(t) && |p| > 1 && p[0] == t.name
    ensures var k := FindKid(t.kids, p[1]); HasPath(t, p) <==> k.Some? && HasPath(t.kids[k.value], p[1..])
  {
    var k := FindKid(t.kids, p[1]);
    if k.Some? {
      PathThrough(t, k.value, p);
    } else {
      forall i | 0 <= i < |t.kids|
        ensures !HasPath(t.kids[i], p[1..])
      {
        assert p[1..][0] != t.kids[i].name;
      }
    }
  }

  lemma {:induction false} PathsArePrefixClosed(t: Tree, p: seq<string>, k: nat)
    requires HasPath(t, p) && 1 <= k <= |p|
    ensures HasPath(t, p[..k])
    decreases |p|
  {
    if k > 1 {
      var i :| 0 <= i < |t.kids| && HasPath(t.kids[i], p[1..]);
      PathsArePrefixClosed(t.kids[i], p[1..], k - 1);
      assert p[..k][1..] == p[1..][..k - 1];
    }
  }

  lemma {:induction false} BranchPaths(w: seq<Entry>, p: seq<string>)
    requires w != []
    ensures HasPath(Branch(w), p) <==> IsPrefix(p, Strs(w))
    decreases |w|
  {
    var t := Branch(w);
    assert IsPrefix(p, Strs(w)) ==> p[0] == Strs(w)[0];
    if |p| == 1 && p[0] == w[0].str {
      assert p == Strs(w)[..1];
    } else if |p| > 1 && p[0] == w[0].str && |w| > 1 {
      BranchPaths(w[1..], p[1..]);
      assert t.kids[0] == Branch(w[1..]);
      assert Strs(w[1..]) == Strs(w)[1..];
      PrefixStep(p, Strs(w));
    }
  }

  lemma PrefixStep(p: seq<string>, w: seq<string>)
    requires |p| > 1 && |w| > 1 && p[0] == w[0]
    ensures IsPrefix(p, w) <==> IsPrefix(p[1..], w[1..])
  {
    assert p == [p[0]] + p[1..] && w == [w[0]] + w[1..];
  }

  lemma {:induction false} BranchProper(w: seq<Entry>)
    requires w != []
    ensures Proper(Branch(w))
    decreases |w|
  {
    if |w| > 1 { BranchProper(w[1..]); }
  }

  lemma {:induction false} AddNodeKeepsName(t: Tree, w: seq<Entry>)
    ensures AddNode(t, w).name == t.name && AddNode(t, w).ty == t.ty
    decreases |w|
  {
    if w != [] && ('{' in w[0].str || (w[0].str == t.name && |w| > 1 && FindKid(t.kids, w[1].str).None?)) {
      AddNodeKeepsName(t, w[1..]);
    }
  }

  /** One unfolding of `AddNode` on a rooted path. */
  lemma AddNodeStep(t: Tree, w: seq<Entry>)
    requires Rooted(t, w) && |w| > 1
    ensures var k := FindKid(t.kids, w[1].str);
            AddNode(t, w) == if k.Some? then t.(kids := t.kids[k.value := AddNode(t.kids[k.value], w[1..])])
                             else if w[1].str == t.name then AddNode(t, w[1..])
                             else t.(kids := t.kids + [Branch(w[1..])])
  {
  }

  /** The descent of `AddNodeToDMTree` stops at a node that already has a child named like the next token: the branch
      that calls `AddChildNode` does not look. */
  ghost predicate Twin(t: Tree, w: seq<Entry>)
    decreases |w|
  {
    if w == [] then false
    else if '{' in w[0].str then Twin(t, w[1..])
    else if w[0].str != t.name then FindKid(t.kids, w[0].str).Some?
    else if |w| == 1 then false
    else
      var k := FindKid(t.kids, w[1].str);
      if k.Some? then Twin(t.kids[k.value], w[1..]) else Twin(t, w[1..])
  }

  lemma ReplaceKidProper(t: Tree, i: nat, kid: Tree)
    requires Proper(t) && i < |t.kids| && kid.name == t.kids[i].name
    ensures Proper(t.(kids := t.kids[i := kid])) <==> Proper(kid)
  {
    var t' := t.(kids := t.kids[i := kid]);
    assert t'.kids[i] == kid;
    forall j | 0 <= j < |t.kids| && j != i
      ensures Proper(t'.kids[j])
    {
      assert t'.kids[j] == t.kids[j];
    }
  }

  ghost predicate NamesDiffer(kids: seq<Tree>) {
    forall i, j :: 0 <= i < j < |kids| ==> kids[i].name != kids[j].name
  }

  lemma AppendName(kids: seq<Tree>, kid: Tree)
    requires NamesDiffer(kids)
    ensures NamesDiffer(kids + [kid]) <==> FindKid(kids, kid.name).None?
  {
    var k, kids' := FindKid(kids, kid.name), kids + [kid];
    assert kids'[|kids|] == kid;
    if k.Some? {
      assert kids'[k.value].name == kids'[|kids|].name;
    }
  }

  lemma ProperIff(t: Tree)
    ensures Proper(t) <==> NamesDiffer(t.kids) && AllProper(t.kids)
  {
  }

  ghost predicate AllProper(kids: seq<Tree>) {
    forall i :: 0 <= i < |kids| ==> Proper(kids[i])
  }

  lemma AppendAllProper(kids: seq<Tree>, kid: Tree)
    requires AllProper(kids) && Proper(kid)
    ensures AllProper(kids + [kid])
  {
    forall i | 0 <= i < |kids + [kid]|
      ensures Proper((kids + [kid])[i])
    {
      assert (kids + [kid])[i] == if i < |kids| then kids[i] else kid;
    }
  }

  lemma AppendKidProper(t: Tree, kid: Tree, t': Tree)
    requires Proper(t) && Proper(kid) && t' == t.(kids := t.kids + [kid])
    ensures Proper(t') <==> FindKid(t.kids, kid.name).None?
  {
    ProperIff(t);
    ProperIff(t');
    AppendName(t.kids, kid);
    AppendAllProper(t.kids, kid);
  }

  /** Whatever the list of tokens, insertion keeps siblings distinct if and only if it does not stop at a node that has
      the next token for a child already. */
  lemma {:induction false} AddNodeProperIff(t: Tree, w: seq<Entry>)
    requires Proper(t)
    ensures Proper(AddNode(t, w)) <==> !Twin(t, w)
    decreases |w|
  {
    if w == [] {
    } else if '{' in w[0].str {
      AddNodeProperIff(t, w[1..]);
    } else if w[0].str != t.name {
      BranchProper(w);
      AppendKidProper(t, Branch(w), AddNode(t, w));
    } else if |w| > 1 {
      var k := FindKid(t.kids, w[1].str);
      if k.Some? {
        var kid := t.kids[k.value];
        AddNodeProperIff(kid, w[1..]);
        AddNodeKeepsName(kid, w[1..]);
        ReplaceKidProper(t, k.value, AddNode(kid, w[1..]));
      } else {
        AddNodeProperIff(t, w[1..]);
      }
    }
  }

  /** Equal siblings, once there, stay: no insertion removes them. */
  lemma {:induction false} ImproperStays(t: Tree, w: seq<Entry>)
    requires !Proper(t)
    ensures !Proper(AddNode(t, w))
    decreases |w|
  {
    var t' := AddNode(t, w);
    if w == [] || ('{' !in w[0].str && w[0].str == t.name && |w| == 1) {
    } else if '{' in w[0].str {
      ImproperStays(t, w[1..]);
    } else if w[0].str != t.name {
      assert forall j :: 0 <= j < |t.kids| ==> t'.kids[j] == t.kids[j];
    } else {
      var k := FindKid(t.kids, w[1].str);
      if k.None? {
        ImproperStays(t, w[1..]);
      } else {
        var kid := t.kids[k.value];
        AddNodeKeepsName(kid, w[1..]);
        if !Proper(kid) { ImproperStays(kid, w[1..]); }
        ImproperKidStays(t, k.value, AddNode(kid, w[1..]));
      }
    }
  }

  lemma ImproperKidStays(t: Tree, i: nat, kid: Tree)
    requires !Proper(t) && i < |t.kids| && kid.name == t.kids[i].name && (!Proper(t.kids[i]) ==> !Proper(kid))
    ensures !Proper(t.(kids := t.kids[i := kid]))
  {
    var t' := t.(kids := t.kids[i := kid]);
    if Proper(t') {
      forall j | 0 <= j < |t.kids|
        ensures Proper(t.kids[j]) && t.kids[j].name == t'.kids[j].name
      {
        assert t'.kids[j] == if j == i then kid else t.kids[j];
      }
    }
  }

  /** A rooted path without braces never has a twin. */
  lemma {:induction false} RootedHasNoTwin(t: Tree, w: seq<Entry>)
    requires Rooted(t, w)
    ensures !Twin(t, w)
    decreases |w|
  {
    if |w| > 1 {
      var k := FindKid(t.kids, w[1].str);
      if k.Some? {
        RootedHasNoTwin(t.kids[k.value], w[1..]);
      } else if w[1].str == t.name {
        RootedHasNoTwin(t, w[1..]);
      }
    }
  }

  lemma AddNodeProper(t: Tree, w: seq<Entry>)
    requires Proper(t) && Rooted(t, w)
    ensures Proper(AddNode(t, w))
  {
    RootedHasNoTwin(t, w);
    AddNodeProperIff(t, w);
  }

  /** The paths of a tree after its `i`-th child has been replaced by one of the same name. */
  lemma ReplaceKidPaths(t: Tree, i: nat, kid: Tree, p: seq<string>)
    requires Proper(t) && i < |t.kids| && kid.name == t.kids[i].name && |p| > 1 && p[0] == t.name
    ensures HasPath(t.(kids := t.kids[i := kid]), p)
            <==> if p[1] == kid.name then HasPath(kid, p[1..]) else HasPath(t, p)
  {
    var t' := t.(kids := t.kids[i := kid]);
    if p[1] == kid.name {
      if HasPath(t', p) {
        var j :| 0 <= j < |t'.kids| && HasPath(t'.kids[j], p[1..]);
        assert j == i by { assert t'.kids[j].name == p[1]; }
      }
      if HasPath(kid, p[1..]) { assert t'.kids[i] == kid; }
    } else {
      if HasPath(t', p) {
        var j :| 0 <= j < |t'.kids| && HasPath(t'.kids[j], p[1..]);
        assert j != i && t'.kids[j] == t.kids[j];
      }
      if HasPath(t, p) {
        var j :| 0 <= j < |t.kids| && HasPath(t.kids[j], p[1..]);
        assert j != i && t'.kids[j] == t.kids[j];
      }
    }
  }

  lemma AppendKidPaths(t: Tree, kid: Tree, p: seq<string>)
    requires |p| > 1 && p[0] == t.name
    ensures HasPath(t.(kids := t.kids + [kid]), p) <==> HasPath(t, p) || HasPath(kid, p[1..])
  {
    var t' := t.(kids := t.kids + [kid]);
    if HasPath(t, p) {
      var j :| 0 <= j < |t.kids| && HasPath(t.kids[j], p[1..]);
      assert t'.kids[j] == t.kids[j];
    }
    if HasPath(kid, p[1..]) { assert t'.kids[|t.kids|] == kid; }
  }

  /** Insertion never loses a path. */
  lemma {:induction false} AddNodeKeepsPaths(t: Tree, w: seq<Entry>, p: seq<string>)
    requires HasPath(t, p)
    ensures HasPath(AddNode(t, w), p)
    decreases |w|
  {
    AddNodeKeepsName(t, w);
    if w != [] && |p| > 1 {
      var j :| 0 <= j < |t.kids| && HasPath(t.kids[j], p[1..]);
      var t' := AddNode(t, w);
      if '{' in w[0].str {
        AddNodeKeepsPaths(t, w[1..], p);
      } else if w[0].str != t.name {
        assert t'.kids[j] == t.kids[j];
      } else if |w| > 1 {
        var k := FindKid(t.kids, w[1].str);
        if k.None? {
          AddNodeKeepsPaths(t, w[1..], p);
        } else {
          if k.value == j { AddNodeKeepsPaths(t.kids[j], w[1..], p[1..]); }
          assert t'.kids[j] == if j == k.value then AddNode(t.kids[j], w[1..]) else t.kids[j];
        }
      }
    }
  }

  /** How `LeavesCleanly` looks one level down. */
  lemma LeavesCleanlyStep(t: Tree, w: seq<string>)
    requires Proper(t) && |w| > 1 && w[0] == t.name
    ensures var k := FindKid(t.kids, w[1]);
            LeavesCleanly(t, w) <==> if k.Some? then LeavesCleanly(t.kids[k.value], w[1..]) else w[1] != w[0]
  {
    var kid := FindKid(t.kids, w[1]);
    forall k | 2 <= k <= |w|
      ensures HasPath(t, w[..k]) <==> kid.Some? && HasPath(t.kids[kid.value], w[1..][..k - 1])
    {
      PathThroughKid(t, w[..k]);
      assert w[..k][1..] == w[1..][..k - 1];
    }
    assert HasPath(t, w[..1]);
    if kid.Some? {
      var u := t.kids[kid.value];
      assert HasPath(u, w[1..][..1]);
      if LeavesCleanly(t, w) {
        forall k | 1 <= k < |w[1..]| && HasPath(u, w[1..][..k]) && !HasPath(u, w[1..][..k + 1])
          ensures w[1..][k] != w[1..][k - 1]
        {
          assert HasPath(t, w[..k + 1]) && !HasPath(t, w[..k + 2]);
        }
      }
      if LeavesCleanly(u, w[1..]) {
        forall k | 1 <= k < |w| && HasPath(t, w[..k]) && !HasPath(t, w[..k + 1])
          ensures w[k] != w[k - 1]
        {
          assert k > 1;
          assert HasPath(u, w[1..][..k - 1]) && !HasPath(u, w[1..][..k]);
          assert w[1..][k - 1] != w[1..][k - 2];
        }
      }
    } else {
      assert !HasPath(t, w[..2]);
    }
  }

  /** A path that leaves cleanly is inserted exactly: the tree gains its prefixes and nothing else. */
  lemma {:induction false} AddNodeAddsPrefixes(t: Tree, w: seq<Entry>, p: seq<string>)
    requires Proper(t) && Rooted(t, w) && LeavesCleanly(t, Strs(w))
    ensures HasPath(AddNode(t, w), p) <==> HasPath(t, p) || IsPrefix(p, Strs(w))
    decreases |w|
  {
    var names := Strs(w);
    AddNodeKeepsName(t, w);
    assert IsPrefix(p, names) ==> p[0] == names[0];
    if |p| == 1 && p[0] == t.name {
      assert p == names[..1];
    } else if |p| > 1 && p[0] == t.name && |w| > 1 {
      AddNodeStep(t, w);
      LeavesCleanlyStep(t, names);
      assert Strs(w[1..]) == names[1..];
      PrefixStep(p, names);
      assert IsPrefix(p[1..], names[1..]) ==> p[1] == names[1];
      var k := FindKid(t.kids, w[1].str);
      if k.Some? {
        var kid' := AddNode(t.kids[k.value], w[1..]);
        AddNodeKeepsName(t.kids[k.value], w[1..]);
        ReplaceKidPaths(t, k.value, kid', p);
        PathThroughKid(t, p);
        AddNodeAddsPrefixes(t.kids[k.value], w[1..], p[1..]);
      } else {
        AppendKidPaths(t, Branch(w[1..]), p);
        BranchPaths(w[1..], p[1..]);
      }
    }
  }

  /** If a segment is taken for its equal predecessor, no child of that name appears. */
  lemma {:induction false} RepeatedSegmentIsLost(t: Tree, w: seq<Entry>)
    requires Rooted(t, w) && FindKid(t.kids, t.name).None?
    ensures !HasPath(AddNode(t, w), [t.name, t.name])
    decreases |w|
  {
    var p := [t.name, t.name];
    var t' := AddNode(t, w);
    assert p[1..] == [t.name];
    if |w| == 1 {
      assert t' == t;
    } else {
      AddNodeStep(t, w);
      var k := FindKid(t.kids, w[1].str);
      if k.Some? {
        AddNodeKeepsName(t.kids[k.value], w[1..]);
        assert forall j :: 0 <= j < |t'.kids| ==> t'.kids[j].name == t.kids[j].name;
      } else if w[1].str == t.name {
        RepeatedSegmentIsLost(t, w[1..]);
      } else {
        assert forall j :: 0 <= j < |t.kids| ==> t'.kids[j].name == t.kids[j].name;
      }
    }
  }

  /** `p` ends in a repeated segment that the tree lacks although it has the rest of `p`. */
  ghost predicate LacksRepeat(t: Tree, p: seq<string>) {
    |p| >= 2 && p[|p| - 1] == p[|p| - 2] && HasPath(t, p[..|p| - 1]) && !HasPath(t, p)
  }

  lemma ConsTake(x: string, q: seq<string>)
    requires q != []
    ensures ([x] + q)[1..] == q && ([x] + q[..|q| - 1])[1..] == q[..|q| - 1]
    ensures ([x] + q)[..|[x] + q| - 1] == [x] + q[..|q| - 1]
  {
  }

  /** A missing repeat below a child is one below its parent. */
  lemma LacksRepeatBelow(t: Tree, k: nat, q: seq<string>)
    requires Proper(t) && k < |t.kids| && LacksRepeat(t.kids[k], q)
    ensures LacksRepeat(t, [t.name] + q) && q[0] == t.kids[k].name
  {
    var p, up := [t.name] + q, [t.name] + q[..|q| - 1];
    PathStarts(t.kids[k], q[..|q| - 1]);
    ConsTake(t.name, q);
    PathThrough(t, k, p);
    PathThrough(t, k, up);
  }

  /** The prefix that an unclean insertion fails to add: it ends in a repeated segment. */
  lemma {:induction false} UncleanLosesPrefix(t: Tree, w: seq<Entry>) returns (p: seq<string>)
    requires Proper(t) && Rooted(t, w) && !LeavesCleanly(t, Strs(w))
    ensures IsPrefix(p, Strs(w)) && LacksRepeat(t, p) && !HasPath(AddNode(t, w), p)
    decreases |w|
  {
    var names := Strs(w);
    AddNodeStep(t, w);
    LeavesCleanlyStep(t, names);
    var k := FindKid(t.kids, w[1].str);
    if k.Some? {
      var kid := t.kids[k.value];
      assert Strs(w[1..]) == names[1..];
      var q := UncleanLosesPrefix(kid, w[1..]);
      LacksRepeatBelow(t, k.value, q);
      p := [t.name] + q;
      assert p[1..] == q;
      PrefixStep(p, names);
      AddNodeKeepsName(kid, w[1..]);
      ReplaceKidPaths(t, k.value, AddNode(kid, w[1..]), p);
    } else {
      p := [t.name, t.name];
      PathThroughKid(t, p);
      assert p == names[..2];
      RepeatedSegmentIsLost(t, w[1..]);
    }
  }

  /** Insertion is union with the path's prefixes exactly when the path leaves the tree cleanly. */
  lemma AddNodeIsUnionIff(t: Tree, w: seq<Entry>)
    requires Proper(t) && Rooted(t, w)
    ensures (forall p :: HasPath(AddNode(t, w), p) <==> HasPath(t, p) || IsPrefix(p, Strs(w)))
            <==> LeavesCleanly(t, Strs(w))
  {
    if LeavesCleanly(t, Strs(w)) {
      forall p
        ensures HasPath(AddNode(t, w), p) <==> HasPath(t, p) || IsPrefix(p, Strs(w))
      {
        AddNodeAddsPrefixes(t, w, p);
      }
    } else {
      var p := UncleanLosesPrefix(t, w);
    }
  }

  /** A repeated segment that is missing once can never be added: no later insertion brings it in. */
  lemma {:induction false} RepeatStaysLost(t: Tree, w: seq<Entry>, p: seq<string>)
    requires Proper(t) && Rooted(t, w) && LacksRepeat(t, p)
    ensures LacksRepeat(AddNode(t, w), p)
    decreases |w|
  {
    AddNodeKeepsPaths(t, w, p[..|p| - 1]);
    var up := p[..|p| - 1];
    assert p[0] == up[0] && (|p| > 2 ==> up[1] == p[1]);
    if |w| > 1 {
      AddNodeStep(t, w);
      PathThroughKid(t, p);
      if |p| > 2 { PathThroughKid(t, up); }
      assert |p| > 2 ==> up[1..] == p[1..][..|p[1..]| - 1];
      var k := FindKid(t.kids, w[1].str);
      if k.Some? {
        var kid := t.kids[k.value];
        AddNodeKeepsName(kid, w[1..]);
        ReplaceKidPaths(t, k.value, AddNode(kid, w[1..]), p);
        if p[1] == kid.name {
          assert FindKid(t.kids, p[1]) == k;
          if |p| > 2 {
            RepeatStaysLost(kid, w[1..], p[1..]);
          } else {
            assert false;
          }
        }
      } else if w[1].str == t.name {
        RepeatStaysLost(t, w[1..], p);
      } else {
        AppendKidPaths(t, Branch(w[1..]), p);
      }
    }
  }
}
