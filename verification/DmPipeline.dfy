/** The export from end to end: a root node, one insertion per registered name, then the destructive print. */
module DmPipeline {
  import opened Wrappers
  import opened DmNames
  import opened DmNameList
  import opened DmTree
  import opened DmBuild
  import opened DmXml
  import opened DmHeap
  import opened DmExport
  import opened DmWriter
  import opened DmNaming

  /** Every token of an accepted name fits a list node. */
  ghost predicate ShortTokens(names: seq<Option<NameSpace>>) {
    forall i :: 0 <= i < |names| && Accepted(names[i]) ==>
      forall s :: s in Tokens(names[i].value.name) ==> |s| < TOKEN_SIZE
  }

  /** `sh` is the tree of the paths inserted so far, and its root has no parent. */
  ghost predicate Built(sh: Shape, done: seq<seq<Entry>>)
    reads sh.foot, sh.node
  {
    Separate(sh) && Holds(sh, Build(Root(), done)) && sh.node.parent == null
  }

  /** The token list of a name after splitting and normalising. */
  method Normalise(ns: NameSpace) returns (head: StrNode?, ghost kept: seq<StrNode>)
    requires forall s :: s in Tokens(ns.name) ==> |s| < TOKEN_SIZE
    ensures IsList(head, kept) && Carries(kept, PathOf(ns))
  {
    ghost var nodes;
    head, nodes := SplitString(ns.name);
    kept := SetTypeField(head, nodes, Tokens(ns.name), ns.dataType);
  }

  /** One accepted name: split, normalised in place, inserted. */
  method InsertName(exporter: Exporter, multiTree: TreeNode, ns: NameSpace, ghost sh: Shape,
                    ghost done: seq<seq<Entry>>)
    returns (ghost sh': Shape)
    requires Built(sh, done) && sh.node == multiTree && exporter !in sh.foot
    requires Fits(Build(Root(), done + [PathOf(ns)])) && forall s :: s in Tokens(ns.name) ==> |s| < TOKEN_SIZE
    modifies exporter, sh.foot
    ensures Built(sh', done + [PathOf(ns)]) && sh'.node == multiTree && fresh(sh'.foot - sh.foot)
    ensures exporter.nodeCount ==
              old(exporter.nodeCount) + Size(Build(Root(), done + [PathOf(ns)])) - Size(Build(Root(), done))
  {
    BuildSnoc(Root(), done, PathOf(ns));
    var head;
    ghost var kept;
    head, kept := Normalise(ns);
    sh' := exporter.AddNodeToDMTree(multiTree, head, kept, PathOf(ns), sh, Build(Root(), done));
  }

  lemma StageAt(done: seq<seq<Entry>>, names: seq<Option<NameSpace>>, j: nat)
    requires j <= |names| && StagesFit(done + PathsOf(names))
    ensures Fits(Build(Root(), done + PathsOf(names[..j])))
  {
    PathsOfConcat(names[..j], names[j..]);
    assert names[..j] + names[j..] == names;
    var total, k := done + PathsOf(names), |done| + |PathsOf(names[..j])|;
    assert total[..k] == done + PathsOf(names[..j]);
  }

  /** `BuildDataModelTree`: NULL entries and names that do not start with `Device` are passed over. */
  method BuildDataModelTree(exporter: Exporter, multiTree: TreeNode, names: seq<Option<NameSpace>>,
                            ghost sh: Shape, ghost done: seq<seq<Entry>>)
    returns (ghost sh': Shape)
    requires Built(sh, done) && sh.node == multiTree && exporter !in sh.foot
    requires StagesFit(done + PathsOf(names)) && ShortTokens(names)
    modifies exporter, sh.foot
    ensures Built(sh', done + PathsOf(names)) && sh'.node == multiTree && fresh(sh'.foot - sh.foot)
    ensures exporter.nodeCount ==
              old(exporter.nodeCount) + Size(Build(Root(), done + PathsOf(names))) - Size(Build(Root(), done))
  {
    sh' := sh;
    ghost var now := done;
    assert names[..0] == [] && done + [] == done;
    for j := 0 to |names|
      invariant now == done + PathsOf(names[..j])
      invariant Built(sh', now) && sh'.node == multiTree && fresh(sh'.foot - sh.foot) && exporter !in sh'.foot
      invariant exporter.nodeCount == old(exporter.nodeCount) + Size(Build(Root(), now)) - Size(Build(Root(), done))
    {
      PathsOfNext(names, j);
      StageAt(done, names, j + 1);
      if Accepted(names[j]) {
        assert now + [PathOf(names[j].value)] == done + PathsOf(names[..j + 1]);
        sh' := InsertName(exporter, multiTree, names[j].value, sh', now);
        now := now + [PathOf(names[j].value)];
      }
      assert now == done + PathsOf(names[..j + 1]);
    }
    assert names[..|names|] == names;
  }

  /** `InitDMTreeRoot`. */
  method InitDMTreeRoot(exporter: Exporter) returns (multiTree: TreeNode, ghost sh: Shape)
    modifies exporter
    ensures Built(sh, []) && sh.node == multiTree && fresh(sh.foot) && fresh(multiTree)
    ensures exporter.nodeCount == old(exporter.nodeCount) + 1
  {
    multiTree := new TreeNode(ROOT_NAME, CCSP_OBJECT, null);
    exporter.nodeCount := exporter.nodeCount + 1;
    sh := NewLeaf(multiTree);
  }

  /** The names of all components, one component after the other. */
  function AllNames(components: seq<seq<Option<NameSpace>>>): seq<Option<NameSpace>> {
    if components == [] then [] else AllNames(components[..|components| - 1]) + components[|components| - 1]
  }

  lemma AllNamesNext(components: seq<seq<Option<NameSpace>>>, i: nat)
    requires i < |components|
    ensures AllNames(components[..i + 1]) == AllNames(components[..i]) + components[i]
  {
    assert components[..i + 1][..i] == components[..i];
  }

  lemma {:induction false} AllNamesSplit(components: seq<seq<Option<NameSpace>>>, i: nat)
    requires i <= |components|
    ensures AllNames(components[..i]) <= AllNames(components)
    decreases |components|
  {
    if i == |components| {
      assert components[..i] == components;
    } else {
      var init := components[..|components| - 1];
      AllNamesSplit(init, i);
      assert init[..i] == components[..i];
    }
  }

  lemma StagesOfPrefix(part: seq<seq<Entry>>, whole: seq<seq<Entry>>)
    requires part <= whole && StagesFit(whole)
    ensures StagesFit(part)
  {
    forall j | 0 <= j <= |part|
      ensures Fits(Build(Root(), part[..j]))
    {
      assert part[..j] == whole[..j];
    }
  }

  /** What the next part of a list of names needs in order to be built. */
  lemma ComponentInside(all: seq<Option<NameSpace>>, a: seq<Option<NameSpace>>, b: seq<Option<NameSpace>>)
    requires a + b <= all && ShortTokens(all) && StagesFit(PathsOf(all))
    ensures ShortTokens(b) && StagesFit(PathsOf(a) + PathsOf(b)) && PathsOf(a + b) == PathsOf(a) + PathsOf(b)
  {
    PathsOfConcat(a, b);
    PathsOfConcat(a + b, all[|a + b|..]);
    assert all == a + b + all[|a + b|..];
    StagesOfPrefix(PathsOf(a + b), PathsOf(all));
    forall j | 0 <= j < |b| && Accepted(b[j])
      ensures forall s :: s in Tokens(b[j].value.name) ==> |s| < TOKEN_SIZE
    {
      assert all[|a| + j] == b[j];
    }
  }

  /** The build over all components. */
  method BuildAll(exporter: Exporter, components: seq<seq<Option<NameSpace>>>)
    returns (multiTree: TreeNode, ghost sh: Shape)
    requires ShortTokens(AllNames(components)) && StagesFit(PathsOf(AllNames(components)))
    modifies exporter
    ensures Built(sh, PathsOf(AllNames(components))) && sh.node == multiTree && fresh(sh.foot)
    ensures exporter.nodeCount == old(exporter.nodeCount) + Size(Build(Root(), PathsOf(AllNames(components))))
  {
    multiTree, sh := InitDMTreeRoot(exporter);
    ghost var done := [];
    for i := 0 to |components|
      invariant done == PathsOf(AllNames(components[..i]))
      invariant Built(sh, done) && sh.node == multiTree && fresh(sh.foot)
      invariant exporter.nodeCount == old(exporter.nodeCount) + Size(Build(Root(), done))
    {
      AllNamesNext(components, i);
      AllNamesSplit(components, i + 1);
      ComponentInside(AllNames(components), AllNames(components[..i]), components[i]);
      if |components[i]| != 0 {
        sh := BuildDataModelTree(exporter, multiTree, components[i], sh, done);
      } else {
        assert done + PathsOf(components[i]) == done;
      }
      done := done + PathsOf(components[i]);
    }
    assert components[..|components|] == components;
  }

  /** `GenerateDataModelXml`: the file gains the print of the tree of all names, both counters rise by the number of its
      nodes, and each of these is freed once. */
  method GenerateDataModelXml(exporter: Exporter, writer: Writer, components: seq<seq<Option<NameSpace>>>)
    requires ShortTokens(AllNames(components)) && KnownTypes(AllNames(components))
    requires StagesFit(PathsOf(AllNames(components)))
    modifies exporter, writer
    ensures var t := Build(Root(), PathsOf(AllNames(components)));
            && writer.file == old(writer.file) + Exported(AllNames(components))
            && Typed(t) && writer.file == old(writer.file) + Print(t)
            && exporter.nodeCount == old(exporter.nodeCount) + Size(t)
            && writer.writeNodeCount == old(writer.writeNodeCount) + Size(t)
            && old(writer.freed) <= writer.freed
            && NoDuplicates(writer.freed[|old(writer.freed)|..]) && |writer.freed| == |old(writer.freed)| + Size(t)
    ensures forall k :: |old(writer.freed)| <= k < |writer.freed| ==> fresh(writer.freed[k])
  {
    BuildTyped(AllNames(components));
    var multiTree;
    ghost var sh;
    multiTree, sh := BuildAll(exporter, components);
    FreedOnce(sh, Build(Root(), PathsOf(AllNames(components))));
    FreedInside(sh);
    writer.WriteMultiTreeToXML(multiTree, sh, Build(Root(), PathsOf(AllNames(components))));
    assert writer.freed[|old(writer.freed)|..] == FreeOrder(sh);
    forall k | |old(writer.freed)| <= k < |writer.freed|
      ensures fresh(writer.freed[k])
    {
      assert writer.freed[k] == FreeOrder(sh)[k - |old(writer.freed)|] && writer.freed[k] in FreeOrder(sh);
    }
  }
}
