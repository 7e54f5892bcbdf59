/** The exporter's tree on the heap: nodes with a fixed array of children, a count and a parent pointer. A `Shape`
    records which objects make up a tree; `Holds` says that the heap at those objects is a given `Tree`. */
module DmHeap {
  import opened DmNames
  import opened DmTree
  import opened DmBuild

  class TreeNode {
    const children: array<TreeNode?>
    var parent: TreeNode?
    var count: nat
    var ty: nat
    var flag: bool
    var str: string

    /** A zeroed allocation, followed by the writes every caller makes. */
    constructor (str: string, ty: nat, parent: TreeNode?)
      ensures this.str == str && this.ty == ty && this.parent == parent && count == 0 && !flag
      ensures children.Length == MAX_CHILDREN && fresh(children)
    {
      this.children := new TreeNode?[MAX_CHILDREN](i => null);
      this.str, this.ty, this.parent, count, flag := str, ty, parent, 0, false;
    }
  }

  /** `foot` covers every object of the subtree: its nodes and their arrays of children. */
  datatype Shape = Shape(node: TreeNode, kids: seq<Shape>, foot: set<object>)

  /** Distinct parts of the tree share no object. */
  ghost predicate Separate(sh: Shape)
    decreases sh
  {
    && {sh.node, sh.node.children} <= sh.foot
    && (forall i :: 0 <= i < |sh.kids| ==>
          Separate(sh.kids[i]) && sh.kids[i].foot <= sh.foot - {sh.node, sh.node.children})
    && (forall i, j :: 0 <= i < j < |sh.kids| ==> sh.kids[i].foot !! sh.kids[j].foot)
  }

  ghost predicate NodeHolds(sh: Shape, t: Tree)
    reads sh.node, sh.node.children
  {
    && sh.node.str == t.name && sh.node.ty == t.ty && !sh.node.flag
    && sh.node.children.Length == MAX_CHILDREN
    && sh.node.count == |sh.kids| == |t.kids| <= MAX_CHILDREN
    && forall i :: 0 <= i < |sh.kids| ==> sh.node.children[i] == sh.kids[i].node
  }

  /** The heap at the objects of `sh` is the tree `t`. */
  ghost predicate Holds(sh: Shape, t: Tree)
    requires Separate(sh)
    reads sh.foot
    decreases sh
  {
    && NodeHolds(sh, t)
    && forall i :: 0 <= i < |sh.kids| ==> Holds(sh.kids[i], t.kids[i]) && sh.kids[i].node.parent == sh.node
  }

  ghost predicate KidHolds(sh: Shape, t: Tree, i: nat)
    requires i < |sh.kids| && i < |t.kids| && Separate(sh.kids[i])
    reads sh.kids[i].foot
  {
    Holds(sh.kids[i], t.kids[i]) && sh.kids[i].node.parent == sh.node
  }

  lemma HoldsByKids(sh: Shape, t: Tree)
    requires Separate(sh) && NodeHolds(sh, t) && forall i :: 0 <= i < |sh.kids| ==> KidHolds(sh, t, i)
    ensures Holds(sh, t)
  {
    forall i | 0 <= i < |sh.kids|
      ensures Holds(sh.kids[i], t.kids[i]) && sh.kids[i].node.parent == sh.node
    {
      assert KidHolds(sh, t, i);
    }
  }

  lemma KidsApart(sub: Shape, u: Tree)
    requires Separate(sub) && Holds(sub, u)
    ensures |sub.kids| == |u.kids|
    ensures forall i :: 0 <= i < |sub.kids| ==> KidHolds(sub, u, i) && sub.kids[i].foot !! {sub.node, sub.node.children}
  {
  }

  /** Child indices from a node down to one of its descendants. */
  ghost predicate ValidPath(sh: Shape, ip: seq<nat>)
    decreases |ip|
  {
    ip == [] || (ip[0] < |sh.kids| && ValidPath(sh.kids[ip[0]], ip[1..]))
  }

  ghost function SubShape(sh: Shape, ip: seq<nat>): Shape
    requires ValidPath(sh, ip)
    decreases |ip|
  {
    if ip == [] then sh else SubShape(sh.kids[ip[0]], ip[1..])
  }

  ghost predicate ValidTreePath(t: Tree, ip: seq<nat>)
    decreases |ip|
  {
    ip == [] || (ip[0] < |t.kids| && ValidTreePath(t.kids[ip[0]], ip[1..]))
  }

  ghost function SubTree(t: Tree, ip: seq<nat>): Tree
    requires ValidTreePath(t, ip)
    decreases |ip|
  {
    if ip == [] then t else SubTree(t.kids[ip[0]], ip[1..])
  }

  ghost function PlugShape(sh: Shape, ip: seq<nat>, sub: Shape): Shape
    requires ValidPath(sh, ip)
    decreases |ip|
  {
    if ip == [] then sub
    else Shape(sh.node, sh.kids[ip[0] := PlugShape(sh.kids[ip[0]], ip[1..], sub)], sh.foot + sub.foot)
  }

  ghost function Plug(t: Tree, ip: seq<nat>, sub: Tree): Tree
    requires ValidTreePath(t, ip)
    decreases |ip|
  {
    if ip == [] then sub else t.(kids := t.kids[ip[0] := Plug(t.kids[ip[0]], ip[1..], sub)])
  }

  lemma {:induction false} SubInside(sh: Shape, ip: seq<nat>)
    requires ValidPath(sh, ip) && Separate(sh)
    ensures Separate(SubShape(sh, ip)) && SubShape(sh, ip).foot <= sh.foot
    ensures ip != [] ==> SubShape(sh, ip).foot !! {sh.node, sh.node.children}
    decreases |ip|
  {
    if ip != [] {
      SubInside(sh.kids[ip[0]], ip[1..]);
    }
  }

  /** Everything about the tree except the subtree at `ip`, and the parent pointer of that subtree's root, holds. */
  ghost predicate HoldsAround(sh: Shape, t: Tree, ip: seq<nat>)
    requires ValidPath(sh, ip) && Separate(sh)
    reads sh.foot - SubShape(sh, ip).foot
    decreases |ip|
  {
    ip == [] ||
    (SubInside(sh, ip); SubInside(sh.kids[ip[0]], ip[1..]);
     var k := ip[0];
     && NodeHolds(sh, t)
     && (forall i :: 0 <= i < |sh.kids| && i != k ==> KidHolds(sh, t, i))
     && (|ip| > 1 ==> sh.kids[k].node.parent == sh.node)
     && HoldsAround(sh.kids[k], t.kids[k], ip[1..]))
  }

  /** The node above the subtree at `ip`. */
  ghost function HoleParent(sh: Shape, ip: seq<nat>): TreeNode
    requires ValidPath(sh, ip) && ip != []
    decreases |ip|
  {
    if |ip| == 1 then sh.node else HoleParent(sh.kids[ip[0]], ip[1..])
  }

  lemma {:induction false} SplitAt(sh: Shape, t: Tree, ip: seq<nat>)
    requires Separate(sh) && Holds(sh, t) && ValidPath(sh, ip)
    ensures HoldsAround(sh, t, ip) && ValidTreePath(t, ip)
    ensures Separate(SubShape(sh, ip)) && Holds(SubShape(sh, ip), SubTree(t, ip))
    ensures ip != [] ==> SubShape(sh, ip).node.parent == HoleParent(sh, ip)
    decreases |ip|
  {
    if ip != [] {
      SplitAt(sh.kids[ip[0]], t.kids[ip[0]], ip[1..]);
    }
  }

  /** The subtree at `ip` may be replaced by any held tree with the same root that shares nothing with the rest. */
  lemma {:induction false} Rejoin(sh: Shape, t: Tree, ip: seq<nat>, sub: Shape, subTree: Tree)
    requires ValidPath(sh, ip) && ValidTreePath(t, ip) && Separate(sh) && HoldsAround(sh, t, ip)
    requires Separate(sub) && Holds(sub, subTree) && sub.node == SubShape(sh, ip).node
    requires ip != [] ==> sub.node.parent == HoleParent(sh, ip)
    requires sub.foot !! sh.foot - SubShape(sh, ip).foot
    ensures var sh' := PlugShape(sh, ip, sub);
            && Separate(sh') && Holds(sh', Plug(t, ip, subTree)) && sh'.node == sh.node
            && sh'.foot <= sh.foot + sub.foot
    decreases |ip|
  {
    if ip != [] {
      var k := ip[0];
      var kid := sh.kids[k];
      SubInside(kid, ip[1..]);
      SubInside(sh, ip);
      Rejoin(kid, t.kids[k], ip[1..], sub, subTree);
      var kid' := PlugShape(kid, ip[1..], sub);
      PlugKid(sh, k, kid', sub.foot);
      RejoinHere(sh, t, k, kid', Plug(t.kids[k], ip[1..], subTree), sub.foot);
    }
  }

  /** Replacing one child shape by one that only adds objects from elsewhere. */
  lemma PlugKid(sh: Shape, k: nat, kid: Shape, extra: set<object>)
    requires k < |sh.kids| && Separate(sh) && Separate(kid)
    requires kid.foot <= sh.kids[k].foot + extra && extra !! sh.foot - sh.kids[k].foot
    ensures Separate(Shape(sh.node, sh.kids[k := kid], sh.foot + extra))
  {
    var sh' := Shape(sh.node, sh.kids[k := kid], sh.foot + extra);
    forall i | 0 <= i < |sh.kids| && i != k
      ensures sh.kids[i].foot !! kid.foot
    {
      assert sh.kids[i].foot !! sh.kids[k].foot && sh.kids[i].foot <= sh.foot;
    }
  }

  lemma RejoinHere(sh: Shape, t: Tree, k: nat, kid: Shape, kidTree: Tree, extra: set<object>)
    requires k < |sh.kids| && NodeHolds(sh, t) && Separate(sh) && kid.node == sh.kids[k].node
    requires forall i :: 0 <= i < |sh.kids| && i != k ==> KidHolds(sh, t, i)
    requires Separate(kid) && Holds(kid, kidTree) && kid.node.parent == sh.node
    requires Separate(Shape(sh.node, sh.kids[k := kid], sh.foot + extra))
    ensures Holds(Shape(sh.node, sh.kids[k := kid], sh.foot + extra), t.(kids := t.kids[k := kidTree]))
  {
    var sh', t' := Shape(sh.node, sh.kids[k := kid], sh.foot + extra), t.(kids := t.kids[k := kidTree]);
    forall i | 0 <= i < |sh'.kids|
      ensures KidHolds(sh', t', i)
    {
      if i != k { assert KidHolds(sh, t, i); }
    }
    HoldsByKids(sh', t');
  }

  /** Going one level further down. */
  lemma {:induction false} ShapeDown(sh: Shape, ip: seq<nat>, i: nat)
    requires ValidPath(sh, ip) && i < |SubShape(sh, ip).kids|
    ensures ValidPath(sh, ip + [i]) && SubShape(sh, ip + [i]) == SubShape(sh, ip).kids[i]
    decreases |ip|
  {
    if ip == [] {
      assert [i][1..] == [];
    } else {
      assert (ip + [i])[1..] == ip[1..] + [i];
      ShapeDown(sh.kids[ip[0]], ip[1..], i);
    }
  }

  lemma {:induction false} TreeDown(t: Tree, ip: seq<nat>, i: nat, sub: Tree)
    requires ValidTreePath(t, ip) && i < |SubTree(t, ip).kids|
    ensures ValidTreePath(t, ip + [i]) && SubTree(t, ip + [i]) == SubTree(t, ip).kids[i]
    ensures Plug(t, ip + [i], sub) == Plug(t, ip, SubTree(t, ip).(kids := SubTree(t, ip).kids[i := sub]))
    decreases |ip|
  {
    if ip == [] {
      assert [i][1..] == [];
    } else {
      assert (ip + [i])[1..] == ip[1..] + [i];
      TreeDown(t.kids[ip[0]], ip[1..], i, sub);
    }
  }

  lemma {:induction false} PlugSelf(t: Tree, ip: seq<nat>)
    requires ValidTreePath(t, ip)
    ensures Plug(t, ip, SubTree(t, ip)) == t
    decreases |ip|
  {
    if ip != [] {
      PlugSelf(t.kids[ip[0]], ip[1..]);
    }
  }

  lemma {:induction false} KidsSizeSnoc(kids: seq<Tree>, kid: Tree)
    ensures KidsSize(kids + [kid]) == KidsSize(kids) + Size(kid)
    decreases |kids|
  {
    if kids == [] {
      assert [kid][1..] == [];
    } else {
      assert (kids + [kid])[1..] == kids[1..] + [kid];
      KidsSizeSnoc(kids[1..], kid);
    }
  }

  lemma {:induction false} KidsSizeUpdate(kids: seq<Tree>, i: nat, kid: Tree)
    requires i < |kids|
    ensures KidsSize(kids[i := kid]) == KidsSize(kids) - Size(kids[i]) + Size(kid)
    decreases |kids|
  {
    if i == 0 {
      assert kids[0 := kid][1..] == kids[1..];
    } else {
      assert kids[i := kid][1..] == kids[1..][i - 1 := kid];
      KidsSizeUpdate(kids[1..], i - 1, kid);
    }
  }

  lemma {:induction false} PlugSize(t: Tree, ip: seq<nat>, sub: Tree)
    requires ValidTreePath(t, ip)
    ensures Size(Plug(t, ip, sub)) == Size(t) - Size(SubTree(t, ip)) + Size(sub)
    decreases |ip|
  {
    if ip != [] {
      PlugSize(t.kids[ip[0]], ip[1..], sub);
      KidsSizeUpdate(t.kids, ip[0], Plug(t.kids[ip[0]], ip[1..], sub));
    }
  }

  lemma {:induction false} BranchSize(w: seq<Entry>)
    requires w != []
    ensures Size(Branch(w)) == |w|
    decreases |w|
  {
    if |w| > 1 {
      BranchSize(w[1..]);
      KidsSizeSnoc([], Branch(w[1..]));
      assert [] + [Branch(w[1..])] == [Branch(w[1..])];
    }
  }


  lemma {:induction false} SubOfPlugShape(sh: Shape, ip: seq<nat>, sub: Shape)
    requires ValidPath(sh, ip)
    ensures ValidPath(PlugShape(sh, ip, sub), ip) && SubShape(PlugShape(sh, ip, sub), ip) == sub
    decreases |ip|
  {
    if ip != [] { SubOfPlugShape(sh.kids[ip[0]], ip[1..], sub); }
  }

  lemma {:induction false} SubOfPlug(t: Tree, ip: seq<nat>, sub: Tree, other: Tree)
    requires ValidTreePath(t, ip)
    ensures var t' := Plug(t, ip, sub);
            ValidTreePath(t', ip) && SubTree(t', ip) == sub && Plug(t', ip, other) == Plug(t, ip, other)
    decreases |ip|
  {
    if ip != [] { SubOfPlug(t.kids[ip[0]], ip[1..], sub, other); }
  }

  /** Appending a child at `ip` and then changing it is the same as appending the changed child. */
  lemma AppendThenPlug(t: Tree, ip: seq<nat>, leaf: Tree, other: Tree)
    requires ValidTreePath(t, ip)
    ensures var u := SubTree(t, ip);
            var t', jp := Plug(t, ip, u.(kids := u.kids + [leaf])), ip + [|u.kids|];
            && ValidTreePath(t', jp) && SubTree(t', jp) == leaf
            && Plug(t', jp, other) == Plug(t, ip, u.(kids := u.kids + [other]))
  {
    var u := SubTree(t, ip);
    var u' := u.(kids := u.kids + [leaf]);
    SubOfPlug(t, ip, u', u.(kids := u.kids + [other]));
    TreeDown(Plug(t, ip, u'), ip, |u.kids|, other);
    assert u'.kids[|u.kids| := other] == u.kids + [other];
  }
}
