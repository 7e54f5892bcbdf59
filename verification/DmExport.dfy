/** Building the exporter's tree on the heap, one registered name at a time. */
module DmExport {
  import opened Wrappers
  import opened DmNames
  import opened DmNameList
  import opened DmTree
  import opened DmBuild
  import opened DmHeap

  /** What `AddChildNode` makes of the tree below its parent node. */
  function Grown(t: Tree, w: seq<Entry>): Tree {
    if w == [] then t else t.(kids := t.kids + [Branch(w)])
  }

  function LeafOf(e: Entry): Tree {
    Node(e.str, e.ty, [])
  }

  lemma GrownStep(t: Tree, w: seq<Entry>)
    requires w != []
    ensures Grown(t, w) == t.(kids := t.kids + [Grown(LeafOf(w[0]), w[1..])])
  {
    assert Grown(LeafOf(w[0]), w[1..]) == Branch(w);
  }

  ghost function NewLeaf(node: TreeNode): Shape {
    Shape(node, [], {node, node.children})
  }

  /** The shape of a subtree after a new leaf has become the last child of its root. */
  ghost function WithLeaf(sub: Shape, node: TreeNode): Shape {
    Shape(sub.node, sub.kids + [NewLeaf(node)], sub.foot + {node, node.children})
  }

  lemma LeafSeparate(sub: Shape, node: TreeNode)
    requires Separate(sub) && {node, node.children} !! sub.foot
    ensures Separate(NewLeaf(node)) && Separate(WithLeaf(sub, node))
  {
    var leaf, sub' := NewLeaf(node), WithLeaf(sub, node);
    forall i | 0 <= i < |sub.kids|
      ensures sub'.kids[i] == sub.kids[i] && sub.kids[i].foot !! leaf.foot
    {
      assert sub.kids[i].foot <= sub.foot;
    }
    assert sub'.kids[|sub.kids|] == leaf;
  }

  lemma LeafHolds(sub: Shape, u: Tree, node: TreeNode, e: Entry)
    requires Separate(sub) && Separate(NewLeaf(node)) && Separate(WithLeaf(sub, node))
    requires |sub.kids| == |u.kids| && forall i :: 0 <= i < |sub.kids| ==> KidHolds(sub, u, i)
    requires NodeHolds(WithLeaf(sub, node), u.(kids := u.kids + [LeafOf(e)]))
    requires NodeHolds(NewLeaf(node), LeafOf(e)) && node.parent == sub.node
    ensures Holds(WithLeaf(sub, node), u.(kids := u.kids + [LeafOf(e)]))
  {
    var sub', u' := WithLeaf(sub, node), u.(kids := u.kids + [LeafOf(e)]);
    forall i | 0 <= i < |sub'.kids|
      ensures KidHolds(sub', u', i)
    {
      if i < |sub.kids| {
        assert KidHolds(sub, u, i) && sub'.kids[i] == sub.kids[i] && u'.kids[i] == u.kids[i];
      } else {
        assert sub'.kids[i] == NewLeaf(node) && u'.kids[i] == LeafOf(e);
      }
    }
    HoldsByKids(sub', u');
  }

  /** The heap after a new leaf has been linked below the node at `ip`. */
  lemma AttachHolds(sh: Shape, t: Tree, ip: seq<nat>, sub: Shape, u: Tree, node: TreeNode, e: Entry)
    requires ValidPath(sh, ip) && ValidTreePath(t, ip) && sub == SubShape(sh, ip) && u == SubTree(t, ip)
    requires Separate(sh) && HoldsAround(sh, t, ip) && Separate(WithLeaf(sub, node)) && sub.foot <= sh.foot
    requires ip != [] ==> sub.node.parent == HoleParent(sh, ip)
    requires Holds(WithLeaf(sub, node), u.(kids := u.kids + [LeafOf(e)])) && {node, node.children} !! sh.foot
    requires |u.kids| == |sub.kids|
    ensures var sh', jp := PlugShape(sh, ip, WithLeaf(sub, node)), ip + [|u.kids|];
            && Separate(sh') && Holds(sh', Plug(t, ip, u.(kids := u.kids + [LeafOf(e)]))) && sh'.node == sh.node
            && ValidPath(sh', jp) && SubShape(sh', jp).node == node
            && sh'.foot <= sh.foot + {node, node.children}
  {
    Rejoin(sh, t, ip, WithLeaf(sub, node), u.(kids := u.kids + [LeafOf(e)]));
    SubOfPlugShape(sh, ip, WithLeaf(sub, node));
    ShapeDown(PlugShape(sh, ip, WithLeaf(sub, node)), ip, |u.kids|);
  }

  /** What remains to be grown after one more node of the chain. */
  lemma GrowStep(t: Tree, ip: seq<nat>, w: seq<Entry>, i: nat)
    requires ValidTreePath(t, ip) && i < |w|
    ensures var u := SubTree(t, ip);
            var t', jp := Plug(t, ip, u.(kids := u.kids + [LeafOf(w[i])])), ip + [|u.kids|];
            && ValidTreePath(t', jp) && SubTree(t', jp).kids == []
            && Plug(t', jp, Grown(SubTree(t', jp), w[i + 1..])) == Plug(t, ip, Grown(u, w[i..]))
  {
    var leaf := LeafOf(w[i]);
    GrownStep(SubTree(t, ip), w[i..]);
    assert w[i..][1..] == w[i + 1..];
    AppendThenPlug(t, ip, leaf, Grown(leaf, w[i + 1..]));
  }

  /** One turn of the descent in `AddNodeToDMTree`, on the tree. */
  lemma DescentStep(t: Tree, ip: seq<nat>, rest: seq<Entry>)
    requires ValidTreePath(t, ip) && rest != []
    ensures var u := SubTree(t, ip);
            if '{' in rest[0].str then AddNode(u, rest) == AddNode(u, rest[1..])
            else if rest[0].str != u.name then AddNode(u, rest) == Grown(u, rest)
            else if |rest| == 1 || FindKid(u.kids, rest[1].str).None? then AddNode(u, rest) == AddNode(u, rest[1..])
            else var k := FindKid(u.kids, rest[1].str).value;
                 && ValidTreePath(t, ip + [k]) && SubTree(t, ip + [k]) == u.kids[k]
                 && Plug(t, ip, AddNode(u, rest)) == Plug(t, ip + [k], AddNode(u.kids[k], rest[1..]))
  {
    var u := SubTree(t, ip);
    if |rest| > 1 {
      var k := FindKid(u.kids, rest[1].str);
      if k.Some? { TreeDown(t, ip, k.value, AddNode(u.kids[k.value], rest[1..])); }
    }
  }

  /** The part of the tree the insertion grows has room, because the result fits. */
  lemma RoomToGrow(t: Tree, ip: seq<nat>, rest: seq<Entry>)
    requires ValidTreePath(t, ip) && rest != [] && Fits(Plug(t, ip, Grown(SubTree(t, ip), rest)))
    ensures |SubTree(t, ip).kids| < MAX_CHILDREN
  {
    FitsSub(t, ip, Grown(SubTree(t, ip), rest));
  }

  /** In a tree within its arrays the next write to `children` is in range exactly when the result is within them. */
  lemma RoomIff(t: Tree, ip: seq<nat>, rest: seq<Entry>)
    requires ValidTreePath(t, ip) && rest != [] && Fits(t)
    ensures Fits(Plug(t, ip, Grown(SubTree(t, ip), rest))) <==> |SubTree(t, ip).kids| < MAX_CHILDREN
  {
    PlugSelf(t, ip);
    FitsSub(t, ip, SubTree(t, ip));
    var u, grown := SubTree(t, ip), Grown(SubTree(t, ip), rest);
    if |u.kids| < MAX_CHILDREN {
      BranchFits(rest);
      FitsPlug(t, ip, grown);
    } else if Fits(Plug(t, ip, grown)) {
      RoomToGrow(t, ip, rest);
    }
  }

  lemma {:induction false} BranchFits(w: seq<Entry>)
    requires w != []
    ensures Fits(Branch(w))
    decreases |w|
  {
    if |w| > 1 { BranchFits(w[1..]); }
  }

  lemma {:induction false} FitsPlug(t: Tree, ip: seq<nat>, sub: Tree)
    requires ValidTreePath(t, ip) && Fits(t) && Fits(sub)
    ensures Fits(Plug(t, ip, sub))
    decreases |ip|
  {
    if ip != [] { FitsPlug(t.kids[ip[0]], ip[1..], sub); }
  }

  lemma {:induction false} FitsSub(t: Tree, ip: seq<nat>, sub: Tree)
    requires ValidTreePath(t, ip) && Fits(Plug(t, ip, sub))
    ensures Fits(sub)
    decreases |ip|
  {
    if ip != [] {
      assert Plug(t, ip, sub).kids[ip[0]] == Plug(t.kids[ip[0]], ip[1..], sub);
      FitsSub(t.kids[ip[0]], ip[1..], sub);
    }
  }

  lemma GrownSize(t: Tree, ip: seq<nat>, rest: seq<Entry>)
    requires ValidTreePath(t, ip)
    ensures Size(Plug(t, ip, Grown(SubTree(t, ip), rest))) == Size(t) + |rest|
  {
    var u := SubTree(t, ip);
    PlugSize(t, ip, Grown(u, rest));
    if rest != [] {
      KidsSizeSnoc(u.kids, Branch(rest));
      BranchSize(rest);
    }
  }

  /** The tree is held, there is room below the node `cur` at `ip`, and growing `rest` there gives `target`. */
  ghost predicate Growing(cur: TreeNode, sh: Shape, t: Tree, ip: seq<nat>, rest: seq<Entry>, target: Tree)
    reads sh.foot
  {
    && Separate(sh) && Holds(sh, t) && ValidPath(sh, ip) && ValidTreePath(t, ip) && SubShape(sh, ip).node == cur
    && |SubTree(t, ip).kids| < MAX_CHILDREN && target == Plug(t, ip, Grown(SubTree(t, ip), rest))
  }

  /** What the insertion may rely on, and what it comes to, when something is missing below the node at `ip`. */
  lemma PlaceReady(sh: Shape, t: Tree, ip: seq<nat>, rest: seq<Entry>, target: Tree)
    requires Separate(sh) && Holds(sh, t) && ValidPath(sh, ip) && ValidTreePath(t, ip)
    requires target == Plug(t, ip, Grown(SubTree(t, ip), rest)) && Fits(target)
    ensures rest != [] ==> Growing(SubShape(sh, ip).node, sh, t, ip, rest, target)
    ensures {SubShape(sh, ip).node, SubShape(sh, ip).node.children} <= sh.foot
    ensures Size(target) == Size(t) + |rest|
    ensures rest == [] ==> target == t
  {
    if rest != [] {
      RoomToGrow(t, ip, rest);
    } else {
      PlugSelf(t, ip);
    }
    SubInside(sh, ip);
    GrownSize(t, ip, rest);
  }

  class Exporter {
    var nodeCount: nat

    constructor ()
      ensures nodeCount == 0
    {
      nodeCount := 0;
    }

    /** One turn of the loop in `AddChildNode`: a new node becomes the last child of `cur`. */
    method NewChild(cur: TreeNode, str: string, ty: nat) returns (node: TreeNode)
      requires cur.count < cur.children.Length
      modifies this`nodeCount, cur`count, cur.children
      ensures nodeCount == old(nodeCount) + 1 && cur.count == old(cur.count) + 1
      ensures cur.children[old(cur.count)] == node
      ensures forall i :: 0 <= i < old(cur.count) ==> cur.children[i] == old(cur.children[i])
      ensures fresh(node) && fresh(node.children) && node.children.Length == MAX_CHILDREN
      ensures node.str == str && node.ty == ty && node.parent == cur && node.count == 0 && !node.flag
    {
      cur.count := cur.count + 1;
      node := new TreeNode(str, ty, cur);
      nodeCount := nodeCount + 1;
      cur.children[cur.count - 1] := node;
    }

    /** The same, as a step on the tree that the heap holds. */
    method Attach(cur: TreeNode, e: Entry, ghost sh: Shape, ghost t: Tree, ghost ip: seq<nat>)
      returns (node: TreeNode, ghost sh': Shape)
      requires Separate(sh) && Holds(sh, t) && ValidPath(sh, ip) && ValidTreePath(t, ip)
      requires SubShape(sh, ip).node == cur && |SubTree(t, ip).kids| < MAX_CHILDREN && this !in sh.foot
      modifies this`nodeCount, cur`count, cur.children
      ensures nodeCount == old(nodeCount) + 1
      ensures var u := SubTree(t, ip);
              Separate(sh') && Holds(sh', Plug(t, ip, u.(kids := u.kids + [LeafOf(e)]))) && sh'.node == sh.node
      ensures var jp := ip + [|SubTree(t, ip).kids|]; ValidPath(sh', jp) && SubShape(sh', jp).node == node
      ensures fresh(node) && fresh(node.children) && sh'.foot <= sh.foot + {node, node.children}
    {
      ghost var sub, u := SubShape(sh, ip), SubTree(t, ip);
      SplitAt(sh, t, ip);
      SubInside(sh, ip);
      KidsApart(sub, u);
      node := NewChild(cur, e.str, e.ty);
      LeafSeparate(sub, node);
      LeafHolds(sub, u, node, e);
      AttachHolds(sh, t, ip, sub, u, node, e);
      sh' := PlugShape(sh, ip, WithLeaf(sub, node));
    }

    /** One turn of the loop in `AddChildNode`, with what is then left to grow. */
    method GrowOne(cur: TreeNode, e: Entry, ghost sh: Shape, ghost t: Tree, ghost ip: seq<nat>, ghost rest: seq<Entry>,
                   ghost target: Tree)
      returns (node: TreeNode, ghost sh': Shape, ghost t': Tree, ghost jp: seq<nat>)
      requires Growing(cur, sh, t, ip, rest, target) && this !in sh.foot && rest != [] && rest[0] == e
      modifies this`nodeCount, cur`count, cur.children
      ensures nodeCount == old(nodeCount) + 1 && Growing(node, sh', t', jp, rest[1..], target) && sh'.node == sh.node
      ensures fresh(node) && fresh(node.children) && fresh(sh'.foot - sh.foot)
    {
      node, sh' := Attach(cur, e, sh, t, ip);
      GrowStep(t, ip, rest, 0);
      assert rest[0..] == rest;
      t' := Plug(t, ip, SubTree(t, ip).(kids := SubTree(t, ip).kids + [LeafOf(e)]));
      jp := ip + [|SubTree(t, ip).kids|];
    }

    /** `AddChildNode`: the rest of the list becomes a chain of new nodes below `parentNode`. */
    method AddChildNode(parentNode: TreeNode, list: StrNode?, ghost nodes: seq<StrNode>, ghost w: seq<Entry>,
                        ghost sh: Shape, ghost t: Tree, ghost ip: seq<nat>, ghost target: Tree)
      returns (ghost sh': Shape)
      requires IsList(list, nodes) && Carries(nodes, w)
      requires Growing(parentNode, sh, t, ip, w, target) && this !in sh.foot
      modifies this`nodeCount, parentNode`count, parentNode.children
      ensures Separate(sh') && Holds(sh', target) && sh'.node == sh.node
      ensures nodeCount == old(nodeCount) + |w|
      ensures fresh(sh'.foot - sh.foot)
    {
      var cur := parentNode;
      var p := list;
      ghost var i, t1, rest := 0, t, w;
      ghost var jp: seq<nat> := ip;
      sh' := sh;
      while p != null
        invariant 0 <= i <= |nodes| && p == Link(nodes, i, null) && rest == w[i..] && nodeCount == old(nodeCount) + i
        invariant Growing(cur, sh', t1, jp, rest, target) && sh'.node == sh.node && fresh(sh'.foot - sh.foot)
        invariant if i == 0 then cur == parentNode else fresh(cur) && fresh(cur.children)
        decreases |nodes| - i
      {
        cur, sh', t1, jp := GrowOne(cur, Entry(p.str, p.ty), sh', t1, jp, rest, target);
        i, rest := i + 1, rest[1..];
        p := p.next;
      }
      PlugSelf(t1, jp);
    }

    /** The search among the children of `cur` for the next segment: the child to continue from, or `cur` itself. */
    method FindChild(cur: TreeNode, name: string, ghost sub: Shape, ghost u: Tree) returns (child: TreeNode)
      requires Separate(sub) && Holds(sub, u) && sub.node == cur
      ensures var k := FindKid(u.kids, name);
              child == if k.Some? && k.value < |sub.kids| then sub.kids[k.value].node else cur
    {
      KidsApart(sub, u);
      var index := 0;
      while index < cur.count
        invariant index <= cur.count == |u.kids|
        invariant FindKid(u.kids, name) == FindKidFrom(u.kids, name, index)
      {
        assert KidHolds(sub, u, index);
        if cur.children[index].str == name {
          return cur.children[index];
        }
        index := index + 1;
      }
      return cur;
    }

    /** One turn of the loop in `AddNodeToDMTree`: `stop` when the token is not the current node's name. */
    method Descend(cur: TreeNode, p: StrNode, ghost nodes: seq<StrNode>, ghost sh: Shape, ghost t: Tree,
                   ghost ip: seq<nat>, ghost rest: seq<Entry>)
      returns (stop: bool, cur': TreeNode, ghost jp: seq<nat>)
      requires IsList(p, nodes) && Carries(nodes, rest) && rest != []
      requires Separate(sh) && Holds(sh, t) && ValidPath(sh, ip) && ValidTreePath(t, ip) && SubShape(sh, ip).node == cur
      ensures stop ==> AddNode(SubTree(t, ip), rest) == Grown(SubTree(t, ip), rest)
      ensures !stop ==>
                && ValidPath(sh, jp) && ValidTreePath(t, jp) && SubShape(sh, jp).node == cur'
                && Plug(t, ip, AddNode(SubTree(t, ip), rest)) == Plug(t, jp, AddNode(SubTree(t, jp), rest[1..]))
    {
      stop, cur', jp := false, cur, ip;
      SplitAt(sh, t, ip);
      DescentStep(t, ip, rest);
      assert p.str == rest[0].str && cur.str == SubTree(t, ip).name;
      if '{' in p.str {
      } else if p.str != cur.str {
        stop := true;
      } else if p.next != null {
        assert |rest| > 1 && p.next.str == rest[1].str;
        KidsApart(SubShape(sh, ip), SubTree(t, ip));
        cur' := FindChild(cur, p.next.str, SubShape(sh, ip), SubTree(t, ip));
        ghost var k := FindKid(SubTree(t, ip).kids, p.next.str);
        if k.Some? {
          ShapeDown(sh, ip, k.value);
          jp := ip + [k.value];
        }
      }
    }

    /** The loop of `AddNodeToDMTree`: the node to grow and the part `p` of the list to grow below it; `p` is null if
        nothing is missing. */
    method FindPlace(multiTree: TreeNode, list: StrNode?, ghost nodes: seq<StrNode>, ghost w: seq<Entry>,
                     ghost sh: Shape, ghost t: Tree)
      returns (cur: TreeNode, p: StrNode?, ghost i: nat, ghost ip: seq<nat>)
      requires IsList(list, nodes) && Carries(nodes, w) && Separate(sh) && Holds(sh, t) && sh.node == multiTree
      ensures i <= |nodes| && p == Link(nodes, i, null)
      ensures ValidPath(sh, ip) && ValidTreePath(t, ip) && SubShape(sh, ip).node == cur
      ensures AddNode(t, w) == Plug(t, ip, Grown(SubTree(t, ip), w[i..]))
    {
      cur, p := multiTree, list;
      i, ip := 0, [];
      ghost var rest := w;
      while p != null
        invariant 0 <= i <= |nodes| && p == Link(nodes, i, null) && rest == w[i..]
        invariant ValidPath(sh, ip) && ValidTreePath(t, ip) && SubShape(sh, ip).node == cur
        invariant AddNode(t, w) == Plug(t, ip, AddNode(SubTree(t, ip), rest))
        decreases |nodes| - i
      {
        ListSuffix(list, nodes, w, i);
        var stop, next;
        ghost var jp;
        stop, next, jp := Descend(cur, p, nodes[i..], sh, t, ip, rest);
        if stop {
          return;
        }
        cur, ip := next, jp;
        i, rest := i + 1, rest[1..];
        p := p.next;
      }
    }

    /** `AddNodeToDMTree`: the heap tree becomes what `AddNode` says, and `nodeCount` rises by the nodes gained. The
        children arrays must be able to hold the result. */
    method AddNodeToDMTree(multiTree: TreeNode, list: StrNode?, ghost nodes: seq<StrNode>, ghost w: seq<Entry>,
                           ghost sh: Shape, ghost t: Tree)
      returns (ghost sh': Shape)
      requires IsList(list, nodes) && Carries(nodes, w)
      requires Separate(sh) && Holds(sh, t) && sh.node == multiTree && this !in sh.foot && Fits(AddNode(t, w))
      modifies this`nodeCount, sh.foot
      ensures Separate(sh') && Holds(sh', AddNode(t, w)) && sh'.node == multiTree
      ensures nodeCount == old(nodeCount) + Size(AddNode(t, w)) - Size(t)
      ensures fresh(sh'.foot - sh.foot) && multiTree.parent == old(multiTree.parent)
    {
      var cur, p;
      ghost var i, ip;
      cur, p, i, ip := FindPlace(multiTree, list, nodes, w, sh, t);
      ListSuffix(list, nodes, w, i);
      PlaceReady(sh, t, ip, w[i..], AddNode(t, w));
      sh' := sh;
      if p != null {
        sh' := AddChildNode(cur, p, nodes[i..], w[i..], sh, t, ip, AddNode(t, w));
      }
    }
  }
}
