/** Concrete names on which the export departs from what its main theorems promise for well-named parameters. */
module DmQuirks {
  import opened Wrappers
  import opened DmNames
  import opened DmTree
  import opened DmBuild
  import opened DmNaming

  function Plain(names: seq<string>): (r: seq<Entry>)
    ensures Strs(r) == names
  {
    seq(|names|, i requires 0 <= i < |names| => Entry(names[i], CCSP_OBJECT))
  }

  lemma BuildTwo(a: seq<Entry>, b: seq<Entry>)
    ensures Build(Root(), [a, b]) == AddNode(AddNode(Root(), a), b)
  {
    BuildSnoc(Root(), [], a);
    BuildSnoc(Root(), [a], b);
    assert [] + [a] == [a] && [a] + [b] == [a, b];
  }

  /** `Device.X.X.Z` after `Device.X.Y`: the second `X` is taken for the first, so `Z` lands one level too high. */
  lemma RepeatedSegmentExample()
    ensures var t := Build(Root(), [Plain([ROOT_NAME, "X", "Y"]), Plain([ROOT_NAME, "X", "X", "Z"])]);
            !HasPath(t, [ROOT_NAME, "X", "X"]) && HasPath(t, [ROOT_NAME, "X", "Z"])
  {
    var a, b := Plain([ROOT_NAME, "X", "Y"]), Plain([ROOT_NAME, "X", "X", "Z"]);
    var y := Node("Y", CCSP_OBJECT, []);
    var x := Node("X", CCSP_OBJECT, [y]);
    var t := Root().(kids := [x]);
    assert Branch(a[1..][1..]) == y;
    assert AddNode(Root(), a) == t;
    AddNodeStep(t, b);
    AddNodeStep(x, b[1..]);
    AddNodeStep(x, b[1..][1..]);
    var z := Node("Z", CCSP_OBJECT, []);
    assert Branch(b[1..][1..][1..]) == z;
    var x' := x.(kids := [y, z]);
    var t' := Root().(kids := [x']);
    assert AddNode(x, b[1..][1..]) == x';
    assert AddNode(x, b[1..]) == x';
    assert t.kids[0 := x'] == [x'];
    assert AddNode(t, b) == t';
    BuildTwo(a, b);
    var p := [ROOT_NAME, "X", "X"];
    assert p[1..] == ["X", "X"] && p[1..][1..] == ["X"];
    assert !HasPath(x', p[1..]) by { assert x'.kids[0].name == "Y" && x'.kids[1].name == "Z"; }
    var q := [ROOT_NAME, "X", "Z"];
    assert q[1..] == ["X", "Z"] && q[1..][1..] == ["Z"];
    assert HasPath(x'.kids[1], q[1..][1..]);
    assert HasPath(t'.kids[0], q[1..]);
  }

  /** Of two adjacent placeholders the second survives as a segment. */
  lemma AdjacentPlaceholdersSurvive(ty: nat)
    ensures Strs(Mark([ROOT_NAME, "A", "{i}", "{j}", "B"], ty)) == [ROOT_NAME, "A", "{j}", "B"]
  {
    var ts := [ROOT_NAME, "A", "{i}", "{j}", "B"];
    assert Placeholder("{i}") by { assert "{i}"[0] == '{'; }
    assert ts[1..] == ["A", "{i}", "{j}", "B"] && ts[1..][2..] == ["{j}", "B"] && ts[1..][2..][1..] == ["B"];
    assert !Placeholder("A") && !Placeholder("B");
    assert Mark(ts[1..][2..], ty) == [Entry("{j}", CCSP_OBJECT), Entry("B", ty)];
    assert Mark(ts[1..], ty) == [Entry("A", CCSP_ARRAY), Entry("{j}", CCSP_OBJECT), Entry("B", ty)];
    assert Mark(ts, ty) ==
      [Entry(ROOT_NAME, CCSP_OBJECT), Entry("A", CCSP_ARRAY), Entry("{j}", CCSP_OBJECT), Entry("B", ty)];
  }

  /** Inserted twice, such a path is placed twice: its last segment appears as two siblings. */
  lemma AdjacentPlaceholdersDuplicate()
    ensures var w := Plain([ROOT_NAME, "A", "{j}", "B"]); !Proper(Build(Root(), [w, w]))
  {
    var w := Plain([ROOT_NAME, "A", "{j}", "B"]);
    var leaf := Node("B", CCSP_OBJECT, []);
    var j := Node("{j}", CCSP_OBJECT, [leaf]);
    var a := Node("A", CCSP_OBJECT, [j]);
    var t := Root().(kids := [a]);
    assert "{j}"[0] == '{';
    assert Branch(w[1..][1..][1..]) == leaf;
    assert Branch(w[1..][1..]) == j;
    assert Branch(w[1..]) == a;
    assert AddNode(Root(), w) == t;
    var j' := j.(kids := [leaf, leaf]);
    var rest := w[1..][1..];
    assert AddNode(j, rest[1..]) == j';
    assert AddNode(j, rest) == j';
    assert AddNode(a, w[1..]) == a.(kids := [j']);
    assert AddNode(t, w) == t.(kids := [a.(kids := [j'])]);
    BuildTwo(w, w);
    assert !Proper(j') by { assert j'.kids[0].name == j'.kids[1].name; }
    var a' := a.(kids := [j']);
    assert !Proper(a') by { assert a'.kids[0] == j'; }
    assert !Proper(t.(kids := [a'])) by { assert t.(kids := [a']).kids[0] == a'; }
  }

  /** After another child of `A` the same path is placed without its placeholder: what the export shows depends on the
      order of the names. */
  lemma SurvivorDependsOnOrder()
    ensures var t := Build(Root(), [Plain([ROOT_NAME, "A", "Q"]), Plain([ROOT_NAME, "A", "{j}", "B"])]);
            HasPath(t, [ROOT_NAME, "A", "B"]) && !HasPath(t, [ROOT_NAME, "A", "{j}"]) && Proper(t)
  {
    var u, w := Plain([ROOT_NAME, "A", "Q"]), Plain([ROOT_NAME, "A", "{j}", "B"]);
    var q, b := Node("Q", CCSP_OBJECT, []), Node("B", CCSP_OBJECT, []);
    var a := Node("A", CCSP_OBJECT, [q]);
    var t := Root().(kids := [a]);
    assert Branch(u[1..][1..]) == q;
    assert AddNode(Root(), u) == t;
    assert "{j}"[0] == '{';
    assert Branch(w[1..][1..][1..]) == b;
    var a' := a.(kids := [q, b]);
    var t' := t.(kids := [a']);
    assert AddNode(a, w[1..][1..][1..]) == a';
    assert AddNode(a, w[1..][1..]) == a';
    assert AddNode(a, w[1..]) == a';
    assert AddNode(t, w) == t';
    BuildTwo(u, w);
    var p, absent := [ROOT_NAME, "A", "B"], [ROOT_NAME, "A", "{j}"];
    assert p[1..] == ["A", "B"] && p[1..][1..] == ["B"];
    assert HasPath(a'.kids[1], p[1..][1..]);
    assert HasPath(t'.kids[0], p[1..]);
    assert absent[1..] == ["A", "{j}"] && absent[1..][1..] == ["{j}"];
    assert !HasPath(a', absent[1..]) by { assert a'.kids[0].name == "Q" && a'.kids[1].name == "B"; }
    assert Proper(a');
  }

  /** A first token that only begins with `Device` passes the test and becomes a child of the root, beside an equal
      one if the root has one already; with a brace it is dropped. */
  lemma LookalikeRoot(t: Tree, ns: NameSpace)
    requires Proper(t) && t.name == ROOT_NAME
    requires ROOT_NAME <= ns.name && Tokens(ns.name) != [] && Tokens(ns.name)[0] != ROOT_NAME
    ensures Accepted(Some(ns))
    ensures var w, first := PathOf(ns), Tokens(ns.name)[0];
            if '{' in first then AddNode(t, w) == AddNode(t, w[1..])
            else && AddNode(t, w) == t.(kids := t.kids + [Branch(w)]) && HasPath(AddNode(t, w), [ROOT_NAME, first])
                 && (Proper(AddNode(t, w)) <==> FindKid(t.kids, first).None?)
  {
    AcceptedIff(Some(ns));
    var w := PathOf(ns);
    assert w != [] && w[0].str == Tokens(ns.name)[0];
    if '{' !in w[0].str {
      var t', p := AddNode(t, w), [ROOT_NAME, w[0].str];
      assert p[1..] == [w[0].str] && t'.kids[|t.kids|] == Branch(w);
      assert HasPath(t'.kids[|t.kids|], p[1..]);
      AddNodeProperIff(t, w);
    }
  }

  /** A segment of `n` letters. */
  function Letters(n: nat): (r: string)
    ensures |r| == n && forall i :: 0 <= i < n ==> r[i] == 'a'
  {
    seq(n, i => 'a')
  }

  /** `n` names with different second segments. */
  function Crowd(n: nat): (r: seq<Option<NameSpace>>)
    ensures |r| == n
  {
    if n == 0 then [] else Crowd(n - 1) + [Some(NameSpace(ROOT_NAME + "." + Letters(n), 0))]
  }

  function CrowdKids(n: nat): (r: seq<Tree>)
    ensures |r| == n && forall i :: 0 <= i < n ==> r[i] == Node(Letters(i + 1), 0, [])
  {
    seq(n, i requires 0 <= i < n => Node(Letters(i + 1), 0, []))
  }

  lemma CrowdPath(n: nat)
    requires n > 0
    ensures var ns := NameSpace(ROOT_NAME + "." + Letters(n), 0);
            Accepted(Some(ns)) && PathOf(ns) == [Entry(ROOT_NAME, CCSP_OBJECT), Entry(Letters(n), 0)]
  {
    var ns, ts := NameSpace(ROOT_NAME + "." + Letters(n), 0), [ROOT_NAME, Letters(n)];
    AcceptedIff(Some(ns));
    assert ts[1..] == [Letters(n)];
    TokensOfJoin(ts, "");
    assert Join(ts) + "" == ns.name;
    assert Letters(n)[0] == 'a';
    assert Mark(ts, 0) == [Entry(ROOT_NAME, CCSP_OBJECT)] + Mark(ts[1..], 0);
  }

  lemma CrowdStep(n: nat)
    requires n > 0
    ensures var w := [Entry(ROOT_NAME, CCSP_OBJECT), Entry(Letters(n), 0)];
            AddNode(Root().(kids := CrowdKids(n - 1)), w) == Root().(kids := CrowdKids(n))
  {
    var t, w := Root().(kids := CrowdKids(n - 1)), [Entry(ROOT_NAME, CCSP_OBJECT), Entry(Letters(n), 0)];
    assert FindKid(t.kids, Letters(n)).None?;
    assert w[1..] == [Entry(Letters(n), 0)] && Letters(n)[0] == 'a';
    assert AddNode(t, w[1..]) == t.(kids := t.kids + [Node(Letters(n), 0, [])]);
    assert CrowdKids(n) == CrowdKids(n - 1) + [Node(Letters(n), 0, [])];
  }

  lemma {:induction false} CrowdTree(n: nat)
    ensures Build(Root(), PathsOf(Crowd(n))) == Root().(kids := CrowdKids(n))
    decreases n
  {
    if n > 0 {
      var names, w := Crowd(n), [Entry(ROOT_NAME, CCSP_OBJECT), Entry(Letters(n), 0)];
      CrowdTree(n - 1);
      CrowdPath(n);
      assert names[..n - 1] == Crowd(n - 1);
      BuildSnoc(Root(), PathsOf(Crowd(n - 1)), w);
      CrowdStep(n);
    }
  }

  /** `Device.a`, `Device.aa`, and so on: the build stays in range if and only if there are at most 128 of them. */
  lemma CrowdFitsIff(n: nat)
    ensures StagesFit(PathsOf(Crowd(n))) <==> n <= 128
  {
    CrowdTree(n);
    StagesFitIffLast(PathsOf(Crowd(n)));
  }
}
