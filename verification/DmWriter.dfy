/** The destructive writer: it prints a tree and frees every node on the way out, while each call shrinks the `count`
    that its caller's loop goes by. */
module DmWriter {
  import opened DmTree
  import opened DmBuild
  import opened DmHeap
  import opened DmXml

  /** The order in which nodes are freed: the children from last to first, then the node. */
  ghost function FreeOrder(sh: Shape): seq<TreeNode>
    decreases sh
  {
    FreeKids(sh.kids) + [sh.node]
  }

  ghost function FreeKids(kids: seq<Shape>): seq<TreeNode>
    decreases kids
  {
    if kids == [] then [] else FreeOrder(kids[|kids| - 1]) + FreeKids(kids[..|kids| - 1])
  }

  ghost predicate NoDuplicates(s: seq<TreeNode>) {
    forall i, j :: 0 <= i < j < |s| ==> s[i] != s[j]
  }

  lemma {:induction false} FreedInside(sh: Shape)
    requires Separate(sh)
    ensures forall n :: n in FreeOrder(sh) ==> n in sh.foot
    ensures sh.node !in FreeKids(sh.kids)
    decreases sh
  {
    FreedKidsInside(sh.kids, sh.foot, {sh.node});
  }

  lemma {:induction false} FreedKidsInside(kids: seq<Shape>, within: set<object>, avoid: set<object>)
    requires forall i :: 0 <= i < |kids| ==> Separate(kids[i]) && kids[i].foot <= within && kids[i].foot !! avoid
    ensures forall n :: n in FreeKids(kids) ==> n in within && n !in avoid
    decreases kids
  {
    if kids != [] {
      FreedInside(kids[|kids| - 1]);
      FreedKidsInside(kids[..|kids| - 1], within, avoid);
    }
  }

  lemma NoDuplicatesAppend(a: seq<TreeNode>, b: seq<TreeNode>)
    requires NoDuplicates(a) && NoDuplicates(b) && forall n :: n in b ==> n !in a
    ensures NoDuplicates(a + b)
  {
    forall i, j | 0 <= i < |a| && 0 <= j < |b|
      ensures a[i] != b[j]
    {
      assert b[j] in b && a[i] in a;
    }
  }

  /** Every node of the tree is freed, and none twice. */
  lemma {:induction false} FreedOnce(sh: Shape, t: Tree)
    requires Separate(sh) && Holds(sh, t)
    ensures NoDuplicates(FreeOrder(sh)) && |FreeOrder(sh)| == Size(t)
    decreases sh
  {
    FreedInside(sh);
    FreedKidsOnce(sh.kids, t.kids, sh.foot);
    NoDuplicatesAppend(FreeKids(sh.kids), [sh.node]);
  }

  lemma {:induction false} FreedKidsOnce(kids: seq<Shape>, ts: seq<Tree>, within: set<object>)
    requires |kids| == |ts|
    requires forall i :: 0 <= i < |kids| ==> Separate(kids[i]) && Holds(kids[i], ts[i]) && kids[i].foot <= within
    requires forall i, j :: 0 <= i < j < |kids| ==> kids[i].foot !! kids[j].foot
    ensures NoDuplicates(FreeKids(kids)) && |FreeKids(kids)| == KidsSize(ts)
    decreases kids
  {
    if kids != [] {
      var n := |kids| - 1;
      var last, init := kids[n], kids[..n];
      FreedOnce(last, ts[n]);
      FreedInside(last);
      FreedKidsOnce(init, ts[..n], within);
      FreedKidsInside(init, within, last.foot);
      NoDuplicatesAppend(FreeOrder(last), FreeKids(init));
      KidsSizeSnoc(ts[..n], ts[n]);
      assert ts == ts[..n] + [ts[n]];
    }
  }

  /** Printing, counting and freeing the last of `k` children and then the others. */
  lemma LastStep(sh: Shape, t: Tree, k: nat, file: seq<XmlToken>, freed: seq<TreeNode>)
    requires 0 < k <= |sh.kids| == |t.kids| && Typed(t)
    ensures file + PrintKids(t.kids[..k]) == file + Print(t.kids[k - 1]) + PrintKids(t.kids[..k - 1])
    ensures KidsSize(t.kids[..k]) == KidsSize(t.kids[..k - 1]) + Size(t.kids[k - 1])
    ensures freed + FreeKids(sh.kids[..k]) == freed + FreeOrder(sh.kids[k - 1]) + FreeKids(sh.kids[..k - 1])
  {
    assert t.kids[..k] == t.kids[..k - 1] + [t.kids[k - 1]] && sh.kids[..k] == sh.kids[..k - 1] + [sh.kids[k - 1]];
    KidsSizeSnoc(t.kids[..k - 1], t.kids[k - 1]);
    assert PrintKids(t.kids[..k]) == Print(t.kids[k - 1]) + PrintKids(t.kids[..k - 1]);
    assert FreeKids(sh.kids[..k]) == FreeOrder(sh.kids[k - 1]) + FreeKids(sh.kids[..k - 1]);
  }

  /** Mid-way through the writer's loop at the root of `sh`: the first `k` children are still there, none of their
      objects freed, and the node's own count says `k`. */
  ghost predicate Half(sh: Shape, t: Tree, k: nat, freed: seq<TreeNode>)
    requires Separate(sh)
    reads sh.foot
  {
    && k <= |sh.kids| == |t.kids| && sh.node.count == k && sh.node.children.Length == MAX_CHILDREN && k <= MAX_CHILDREN
    && sh.node !in freed
    && forall i :: 0 <= i < k ==> KidReady(sh, t, i, freed)
  }

  ghost predicate KidReady(sh: Shape, t: Tree, i: nat, freed: seq<TreeNode>)
    requires i < |sh.kids| && i < |t.kids| && Separate(sh.kids[i]) && i < sh.node.children.Length
    reads sh.node.children, sh.kids[i].foot
  {
    && sh.node.children[i] == sh.kids[i].node && KidHolds(sh, t, i)
    && forall n :: n in freed ==> n !in sh.kids[i].foot
  }

  class Writer {
    var file: seq<XmlToken>
    var writeNodeCount: nat
    ghost var freed: seq<TreeNode>

    constructor ()
      ensures file == [] && writeNodeCount == 0 && freed == []
    {
      file, writeNodeCount, freed := [], 0, [];
    }

    /** `WriteNodeToXml`. */
    method WriteNodeToXml(node: TreeNode)
      requires node.ty < |TYPE_STR| && node !in freed
      modifies this`file, node`flag
      ensures node.flag
      ensures file == old(file) + [if node.count != 0 then Open(node.str, TYPE_STR[node.ty])
                                   else Leaf(node.str, TYPE_STR[node.ty])]
    {
      if node.count != 0 {
        file := file + [Open(node.str, TYPE_STR[node.ty])];
      } else {
        file := file + [Leaf(node.str, TYPE_STR[node.ty])];
      }
      node.flag := true;
    }

    /** The same at the root of a held subtree, which is then ready for the writer's loop. */
    method WriteStart(node: TreeNode, ghost sh: Shape, ghost t: Tree)
      requires Separate(sh) && Holds(sh, t) && sh.node == node && t.ty < |TYPE_STR| && this !in sh.foot
      requires forall n :: n in freed ==> n !in sh.foot
      modifies this`file, node`flag
      ensures Half(sh, t, |sh.kids|, freed) && node.count == |t.kids|
      ensures file == old(file) + [if t.kids != [] then Open(t.name, TYPE_STR[t.ty]) else Leaf(t.name, TYPE_STR[t.ty])]
    {
      KidsApart(sh, t);
      WriteNodeToXml(node);
    }

    /** `freeNode`: a node may be freed only once, and its parent must still be there. */
    method FreeNode(node: TreeNode)
      requires node !in freed
      requires node.parent != null ==> node.parent != node && node.parent !in freed && node.parent.count > 0
      modifies this`writeNodeCount, this`freed, (if node.parent == null then {} else {node.parent})`count
      ensures writeNodeCount == old(writeNodeCount) + 1 && freed == old(freed) + [node]
      ensures node.parent != null ==> node.parent.count == old(node.parent.count) - 1
    {
      if node.parent != null {
        node.parent.count := node.parent.count - 1;
      }
      writeNodeCount := writeNodeCount + 1;
      freed := freed + [node];
    }

    /** One turn of the writer's loop: the child that `count` now points at is printed and freed. */
    method WriteLastChild(node: TreeNode, ghost sh: Shape, ghost t: Tree, ghost k: nat)
      requires Separate(sh) && sh.node == node && Typed(t) && this !in sh.foot && 0 < k && Half(sh, t, k, freed)
      modifies this, sh.foot
      ensures Half(sh, t, k - 1, freed) && node.parent == old(node.parent)
      ensures file + PrintKids(t.kids[..k - 1]) == old(file) + PrintKids(t.kids[..k])
      ensures writeNodeCount + KidsSize(t.kids[..k - 1]) == old(writeNodeCount) + KidsSize(t.kids[..k])
      ensures freed + FreeKids(sh.kids[..k - 1]) == old(freed) + FreeKids(sh.kids[..k])
      decreases t, 0
    {
      LastStep(sh, t, k, file, freed);
      ghost var kid, u := sh.kids[k - 1], t.kids[k - 1];
      assert KidReady(sh, t, k - 1, freed);
      WriteMultiTreeToXML(node.children[node.count - 1], kid, u);
      FreedInside(kid);
      forall i | 0 <= i < k - 1
        ensures KidReady(sh, t, i, freed)
      {
        assert old(KidReady(sh, t, i, freed)) && sh.kids[i].foot !! kid.foot;
      }
    }

    /** The writer's loop over the children of `node`, which counts down from the initial `count`. */
    method WriteKids(node: TreeNode, ghost sh: Shape, ghost t: Tree)
      requires Separate(sh) && sh.node == node && Typed(t) && this !in sh.foot && Half(sh, t, |sh.kids|, freed)
      modifies this, sh.foot
      ensures file == old(file) + PrintKids(t.kids) && writeNodeCount == old(writeNodeCount) + KidsSize(t.kids)
      ensures freed == old(freed) + FreeKids(sh.kids) && node.parent == old(node.parent)
      decreases t, 1
    {
      var index := node.count;
      ghost var printed, counted := file + PrintKids(t.kids), writeNodeCount + KidsSize(t.kids);
      ghost var gone := freed + FreeKids(sh.kids);
      assert t.kids[..index] == t.kids && sh.kids[..index] == sh.kids;
      while index > 0
        invariant 0 <= index <= |t.kids| && Half(sh, t, index, freed) && node.parent == old(node.parent)
        invariant file + PrintKids(t.kids[..index]) == printed
        invariant writeNodeCount + KidsSize(t.kids[..index]) == counted
        invariant freed + FreeKids(sh.kids[..index]) == gone
      {
        WriteLastChild(node, sh, t, index);
        index := index - 1;
      }
    }

    /** Everything the writer does at a node before freeing it. */
    method WriteBody(node: TreeNode, ghost sh: Shape, ghost t: Tree)
      requires Separate(sh) && Holds(sh, t) && sh.node == node && Typed(t) && this !in sh.foot
      requires forall n :: n in freed ==> n !in sh.foot
      modifies this, sh.foot
      ensures file == old(file) + Print(t) && writeNodeCount == old(writeNodeCount) + KidsSize(t.kids)
      ensures freed == old(freed) + FreeKids(sh.kids) && node.parent == old(node.parent)
      decreases t, 2
    {
      WriteStart(node, sh, t);
      if node.count != 0 {
        WriteKids(node, sh, t);
        file := file + [Close];
      }
    }

    /** `WriteMultiTreeToXML` on a subtree: prints it, frees each of its nodes, leaves the parent one child short. */
    method WriteMultiTreeToXML(node: TreeNode, ghost sh: Shape, ghost t: Tree)
      requires Separate(sh) && Holds(sh, t) && sh.node == node && Typed(t) && this !in sh.foot
      requires node.parent != null ==> node.parent !in sh.foot && node.parent !in freed && node.parent.count > 0
      requires forall n :: n in freed ==> n !in sh.foot
      modifies this, sh.foot, (if node.parent == null then {} else {node.parent})`count
      ensures file == old(file) + Print(t)
      ensures writeNodeCount == old(writeNodeCount) + Size(t) && freed == old(freed) + FreeOrder(sh)
      ensures node.parent == old(node.parent)
      ensures node.parent != null ==> node.parent.count == old(node.parent.count) - 1
      decreases t, 3
    {
      if !node.flag {
        WriteBody(node, sh, t);
        FreedInside(sh);
        FreeNode(node);
      }
    }
  }
}
