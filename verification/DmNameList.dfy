/** The linked token list of the exporter: built by `split_string`, then edited in place by `setTypeField`. */
module DmNameList {
  import opened DmNames

  const TOKEN_SIZE := 128

  class StrNode {
    var str: string
    var ty: nat
    var next: StrNode?

    constructor (str: string)
      ensures this.str == str && ty == 0 && next == null
    {
      this.str, ty, next := str, 0, null;
    }
  }

  /** The `i`-th of `nodes`, or what comes after them. */
  ghost function Link(nodes: seq<StrNode>, i: nat, end: StrNode?): StrNode? {
    if i < |nodes| then nodes[i] else end
  }

  /** Following `next` through `nodes` ends at `end`. */
  ghost predicate Chain(nodes: seq<StrNode>, end: StrNode?)
    reads nodes
  {
    && (forall i, j :: 0 <= i < j < |nodes| && j == i + 1 ==> nodes[i].next == nodes[j])
    && (nodes != [] ==> nodes[|nodes| - 1].next == end)
  }

  ghost predicate Distinct(nodes: seq<StrNode>) {
    forall i, j :: 0 <= i < j < |nodes| ==> nodes[i] != nodes[j]
  }

  /** `nodes` are the nodes met by following `next` from `head`. */
  ghost predicate IsList(head: StrNode?, nodes: seq<StrNode>)
    reads nodes
  {
    head == Link(nodes, 0, null) && Chain(nodes, null) && Distinct(nodes)
  }

  /** The nodes carry the tokens `names`, in order. */
  ghost predicate Spells(nodes: seq<StrNode>, names: seq<string>)
    reads nodes
  {
    |nodes| == |names| && forall i :: 0 <= i < |nodes| ==> nodes[i].str == names[i]
  }

  /** The nodes carry the typed tokens `entries`, in order. */
  ghost predicate Carries(nodes: seq<StrNode>, entries: seq<Entry>)
    reads nodes
  {
    |nodes| == |entries| && forall i :: 0 <= i < |nodes| ==> Entry(nodes[i].str, nodes[i].ty) == entries[i]
  }

  lemma ChainAppend(nodes: seq<StrNode>, node: StrNode)
    requires Chain(nodes, node)
    ensures Chain(nodes + [node], node.next)
  {
  }

  ghost predicate IsTail(tail: StrNode?, nodes: seq<StrNode>) {
    tail == if nodes == [] then null else nodes[|nodes| - 1]
  }

  /** Links a new node behind the tail. */
  method PushBack(head: StrNode?, tail: StrNode?, str: string, ghost nodes: seq<StrNode>, ghost names: seq<string>)
    returns (head': StrNode, node: StrNode)
    requires IsList(head, nodes) && IsTail(tail, nodes) && Spells(nodes, names)
    modifies if tail == null then {} else {tail}
    ensures fresh(node) && IsList(head', nodes + [node]) && Spells(nodes + [node], names + [str])
  {
    node := new StrNode(str);
    if head == null {
      head' := node;
    } else {
      tail.next := node;
      head' := head;
    }
  }

  lemma SplitStep(all: seq<string>, names: seq<string>, rest: string)
    requires rest != "" && all == names + Tokens(rest)
    ensures var n := TokenEnd(rest);
            if rest[0] == '.' then all == names + Tokens(rest[1..])
            else n > 0 && all == names + [rest[..n]] + Tokens(rest[n..])
  {
    assert names + ([rest[..TokenEnd(rest)]] + Tokens(rest[TokenEnd(rest)..]))
        == names + [rest[..TokenEnd(rest)]] + Tokens(rest[TokenEnd(rest)..]);
  }

  /** `split_string`. Each token must fit the 128 characters of a list node. */
  method SplitString(dataModel: string) returns (head: StrNode?, ghost nodes: seq<StrNode>)
    requires forall t :: t in Tokens(dataModel) ==> |t| < TOKEN_SIZE
    ensures IsList(head, nodes) && Spells(nodes, Tokens(dataModel))
    ensures forall i :: 0 <= i < |nodes| ==> fresh(nodes[i])
  {
    head, nodes := null, [];
    var tail: StrNode? := null;
    var rest := dataModel;
    ghost var all, names := Tokens(dataModel), [];
    while rest != ""
      invariant IsList(head, nodes) && IsTail(tail, nodes) && Spells(nodes, names)
      invariant all == names + Tokens(rest)
      invariant (tail != null ==> fresh(tail)) && forall i :: 0 <= i < |nodes| ==> fresh(nodes[i])
      decreases |rest|
    {
      SplitStep(all, names, rest);
      if rest[0] == '.' {
        rest := rest[1..];
      } else {
        var n := TokenEnd(rest);
        head, tail := PushBack(head, tail, rest[..n], nodes, names);
        nodes, names := nodes + [tail], names + [rest[..n]];
        rest := rest[n..];
      }
    }
  }

  /** What `setTypeField` does at one node: types it by its successor, and unlinks the successor if it is a
      placeholder. */
  method MarkNode(cur: StrNode, ty: nat)
    requires cur.next != cur
    modifies cur`ty, cur`next
    ensures cur.ty == if old(cur.next) == null then ty
                      else if Placeholder(old(cur.next.str)) then CCSP_ARRAY else CCSP_OBJECT
    ensures cur.next == if old(cur.next) != null && Placeholder(old(cur.next.str)) then old(cur.next.next)
                        else old(cur.next)
  {
    if cur.next == null {
      cur.ty := ty;
    } else if '{' in cur.next.str || (cur.next.str != "" && '0' < cur.next.str[0] < '9') {
      cur.ty := CCSP_ARRAY;
      cur.next := cur.next.next;
    } else {
      cur.ty := CCSP_OBJECT;
    }
  }

  /** Half-way through `setTypeField`: `kept` is done and carries `entries`, `todo` starts at `cur` and is untouched. */
  ghost predicate Walk(head: StrNode?, cur: StrNode?, kept: seq<StrNode>, entries: seq<Entry>, todo: seq<StrNode>,
                       names: seq<string>)
    reads kept, todo
  {
    && head == Link(kept, 0, cur) && Chain(kept, cur) && Carries(kept, entries)
    && cur == Link(todo, 0, null) && Chain(todo, null) && Spells(todo, names)
    && Distinct(kept) && Distinct(todo) && Apart(kept, todo)
  }

  ghost predicate Apart(a: seq<StrNode>, b: seq<StrNode>) {
    forall i, j :: 0 <= i < |a| && 0 <= j < |b| ==> a[i] != b[j]
  }

  /** How many list nodes the visit of the first one consumes. */
  function Consumed(names: seq<string>): (k: nat)
    requires names != []
    ensures 1 <= k <= |names|
  {
    if |names| > 1 && Placeholder(names[1]) then 2 else 1
  }

  method Visit(head: StrNode?, cur: StrNode, ghost kept: seq<StrNode>, ghost entries: seq<Entry>,
               ghost todo: seq<StrNode>, ghost names: seq<string>, ty: nat)
    requires todo != [] && Walk(head, cur, kept, entries, todo, names)
    modifies cur`ty, cur`next
    ensures Walk(head, cur.next, kept + [cur], entries + Mark(names, ty)[..1],
                 todo[Consumed(names)..], names[Consumed(names)..])
  {
    ghost var k := Consumed(names);
    assert |todo| > 1 ==> cur.next == todo[1];
    assert |todo| > 2 ==> todo[1].next == todo[2];
    MarkNode(cur, ty);
    assert Chain(kept, cur) && Carries(kept, entries);
    ChainAppend(kept, cur);
    assert Entry(cur.str, cur.ty) == Mark(names, ty)[0];
    assert Carries(kept + [cur], entries + Mark(names, ty)[..1]);
  }

  lemma MarkAdvances(names: seq<string>, entries: seq<Entry>, rest: seq<string>, ty: nat)
    requires rest != [] && Mark(names, ty) == entries + Mark(rest, ty)
    ensures Mark(names, ty) == entries + Mark(rest, ty)[..1] + Mark(rest[Consumed(rest)..], ty)
  {
    assert Mark(rest, ty) == Mark(rest, ty)[..1] + Mark(rest[Consumed(rest)..], ty);
  }

  /** `setTypeField`: types every node and unlinks placeholders, leaving the list `kept`. */
  method SetTypeField(head: StrNode?, ghost nodes: seq<StrNode>, ghost names: seq<string>, ty: nat)
    returns (ghost kept: seq<StrNode>)
    requires IsList(head, nodes) && Spells(nodes, names)
    modifies nodes
    ensures IsList(head, kept) && Carries(kept, Mark(names, ty))
  {
    var cur := head;
    kept := [];
    ghost var i, entries, todo, rest := 0, [], nodes, names;
    WalkStarts(head, nodes, names);
    while cur != null
      invariant Walk(head, cur, kept, entries, todo, rest)
      invariant 0 <= i <= |nodes| && todo == nodes[i..]
      invariant Mark(names, ty) == entries + Mark(rest, ty)
      decreases |todo|
    {
      WalkGoesOn(head, cur, kept, entries, todo, rest);
      ghost var k := Consumed(rest);
      ghost var first := Mark(rest, ty)[..1];
      Visit(head, cur, kept, entries, todo, rest, ty);
      MarkAdvances(names, entries, rest, ty);
      kept, entries, todo, rest := kept + [cur], entries + first, todo[k..], rest[k..];
      i := i + k;
      cur := cur.next;
    }
    WalkEnds(head, kept, entries, todo, rest);
  }

  lemma WalkStarts(head: StrNode?, nodes: seq<StrNode>, names: seq<string>)
    requires IsList(head, nodes) && Spells(nodes, names)
    ensures Walk(head, head, [], [], nodes, names)
  {
  }

  lemma WalkGoesOn(head: StrNode?, cur: StrNode, kept: seq<StrNode>, entries: seq<Entry>, todo: seq<StrNode>,
                   rest: seq<string>)
    requires Walk(head, cur, kept, entries, todo, rest)
    ensures todo != [] && cur == todo[0] && |rest| == |todo|
  {
  }

  lemma WalkEnds(head: StrNode?, kept: seq<StrNode>, entries: seq<Entry>, todo: seq<StrNode>, rest: seq<string>)
    requires Walk(head, null, kept, entries, todo, rest)
    ensures IsList(head, kept) && Carries(kept, entries) && rest == []
  {
  }

  /** A list seen from its `i`-th node on. */
  lemma ListSuffix(head: StrNode?, nodes: seq<StrNode>, w: seq<Entry>, i: nat)
    requires IsList(head, nodes) && Carries(nodes, w) && i <= |nodes|
    ensures IsList(Link(nodes, i, null), nodes[i..]) && Carries(nodes[i..], w[i..])
    ensures i < |nodes| ==> nodes[i].str == w[i].str && nodes[i].next == Link(nodes, i + 1, null)
  {
  }
}
