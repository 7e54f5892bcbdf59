/** The parameter part of the exported file, as a stream of tokens, and a reader for it. */
module DmXml {
  import opened Wrappers
  import opened DmTree

  /** The words the writer prints for the node types. */
  const TYPE_STR := ["string", "int", "unsignedInt", "boolean", "dateTime", "base64", "long", "unsignedLong", "float",
                     "double", "byte", "true", "false"]

  /** One object start (name and `array` word), one simple parameter (name and type word), or one object end. */
  datatype XmlToken = Open(name: string, word: string) | Leaf(name: string, word: string) | Close

  ghost predicate Typed(t: Tree) {
    t.ty < |TYPE_STR| && forall i :: 0 <= i < |t.kids| ==> Typed(t.kids[i])
  }

  /** What `WriteMultiTreeToXML` prints for a subtree: children from last to first. */
  ghost function Print(t: Tree): seq<XmlToken>
    requires Typed(t)
    decreases t
  {
    if t.kids == [] then [Leaf(t.name, TYPE_STR[t.ty])]
    else [Open(t.name, TYPE_STR[t.ty])] + PrintKids(t.kids) + [Close]
  }

  ghost function PrintKids(kids: seq<Tree>): seq<XmlToken>
    requires forall i :: 0 <= i < |kids| ==> Typed(kids[i])
    decreases kids
  {
    if kids == [] then [] else Print(kids[|kids| - 1]) + PrintKids(kids[..|kids| - 1])
  }

  function TypeIndex(word: string, from: nat): (r: Option<nat>)
    requires from <= |TYPE_STR|
    ensures r.Some? ==> r.value < |TYPE_STR| && TYPE_STR[r.value] == word
    decreases |TYPE_STR| - from
  {
    if from == |TYPE_STR| then None
    else if TYPE_STR[from] == word then Some(from)
    else TypeIndex(word, from + 1)
  }

  /** No two types print the same word. */
  lemma TypeIndexInverts(ty: nat)
    requires ty < |TYPE_STR|
    ensures TypeIndex(TYPE_STR[ty], 0) == Some(ty)
  {
    TypeIndexFrom(ty, 0);
  }

  lemma {:induction false} TypeIndexFrom(ty: nat, from: nat)
    requires from <= ty < |TYPE_STR|
    ensures TypeIndex(TYPE_STR[ty], from) == Some(ty)
    decreases ty - from
  {
    if from < ty {
      WordsDiffer(from, ty);
      TypeIndexFrom(ty, from + 1);
    }
  }

  lemma WordsDiffer(i: nat, j: nat)
    requires i < j < |TYPE_STR|
    ensures TYPE_STR[i] != TYPE_STR[j]
  {
    var a, b := TYPE_STR[i], TYPE_STR[j];
    if |a| == |b| {
      assert a[0] != b[0] || a[1] != b[1] || a[2] != b[2];
    }
  }

  /** Reads one element; the rest of the stream comes back with it. */
  function ParseElem(ts: seq<XmlToken>): (r: Option<(Tree, seq<XmlToken>)>)
    ensures r.Some? ==> |r.value.1| < |ts|
    decreases |ts|, 0
  {
    if ts == [] then None
    else match ts[0]
      case Close => None
      case Leaf(name, word) =>
        var ty := TypeIndex(word, 0);
        if ty.None? then None else Some((Node(name, ty.value, []), ts[1..]))
      case Open(name, word) =>
        var ty := TypeIndex(word, 0);
        var kids := ParseKids(ts[1..]);
        if ty.None? || kids.None? then None else Some((Node(name, ty.value, kids.value.0), kids.value.1))
  }

  /** Reads elements up to the end of the enclosing object. */
  function ParseKids(ts: seq<XmlToken>): (r: Option<(seq<Tree>, seq<XmlToken>)>)
    ensures r.Some? ==> |r.value.1| < |ts|
    decreases |ts|, 1
  {
    if ts == [] then None
    else if ts[0].Close? then Some(([], ts[1..]))
    else
      var first := ParseElem(ts);
      if first.None? then None
      else
        var others := ParseKids(first.value.1);
        if others.None? then None else Some(([first.value.0] + others.value.0, others.value.1))
  }

  /** Reads a whole stream: exactly one balanced element. */
  function Parse(ts: seq<XmlToken>): Option<Tree> {
    var r := ParseElem(ts);
    if r.Some? && r.value.1 == [] then Some(r.value.0) else None
  }

  /** The same tree with the children of every node in reverse order. */
  ghost function Flip(t: Tree): Tree
    decreases t
  {
    Node(t.name, t.ty, FlipKids(t.kids))
  }

  ghost function FlipKids(kids: seq<Tree>): seq<Tree>
    decreases kids
  {
    if kids == [] then [] else [Flip(kids[|kids| - 1])] + FlipKids(kids[..|kids| - 1])
  }

  lemma {:induction false} ParsePrinted(t: Tree, rest: seq<XmlToken>)
    requires Typed(t)
    ensures ParseElem(Print(t) + rest) == Some((Flip(t), rest))
    decreases t
  {
    var ts := Print(t) + rest;
    TypeIndexInverts(t.ty);
    if t.kids == [] {
      assert ts[1..] == rest;
    } else {
      assert ts[1..] == PrintKids(t.kids) + [Close] + rest;
      ParsePrintedKids(t.kids, rest);
    }
  }

  lemma {:induction false} ParsePrintedKids(kids: seq<Tree>, rest: seq<XmlToken>)
    requires forall i :: 0 <= i < |kids| ==> Typed(kids[i])
    ensures ParseKids(PrintKids(kids) + [Close] + rest) == Some((FlipKids(kids), rest))
    decreases kids
  {
    var ts := PrintKids(kids) + [Close] + rest;
    if kids == [] {
      assert ts[1..] == rest;
    } else {
      var last, init := kids[|kids| - 1], kids[..|kids| - 1];
      var more := PrintKids(init) + [Close] + rest;
      assert ts == Print(last) + more;
      PrintStarts(last);
      ParsePrinted(last, more);
      ParsePrintedKids(init, rest);
    }
  }

  lemma PrintStarts(t: Tree)
    requires Typed(t)
    ensures Print(t) != [] && !Print(t)[0].Close?
  {
  }

  /** The exported stream is balanced, and reading it back gives the tree with its siblings reversed, types included. */
  lemma ParseOfPrint(t: Tree)
    requires Typed(t)
    ensures Parse(Print(t)) == Some(Flip(t))
  {
    ParsePrinted(t, []);
    assert Print(t) + [] == Print(t);
  }

  lemma {:induction false} FlipKidsAt(kids: seq<Tree>, i: nat)
    requires i < |kids|
    ensures |FlipKids(kids)| == |kids| && FlipKids(kids)[|kids| - 1 - i] == Flip(kids[i])
    decreases |kids|
  {
    var init := kids[..|kids| - 1];
    if init != [] {
      FlipKidsAt(init, if i < |init| then i else 0);
    }
  }

  /** Reversal keeps every path. */
  lemma {:induction false} FlipPaths(t: Tree, p: seq<string>)
    ensures HasPath(Flip(t), p) <==> HasPath(t, p)
    decreases |p|
  {
    if |p| > 1 && p[0] == t.name {
      var n := |t.kids|;
      if i :| 0 <= i < n && HasPath(t.kids[i], p[1..]) {
        FlipPaths(t.kids[i], p[1..]);
        FlipKidsAt(t.kids, i);
        assert HasPath(FlipKids(t.kids)[n - 1 - i], p[1..]);
      }
      if n > 0 { FlipKidsAt(t.kids, 0); }
      if i :| 0 <= i < |FlipKids(t.kids)| && HasPath(FlipKids(t.kids)[i], p[1..]) {
        FlipKidsAt(t.kids, n - 1 - i);
        FlipPaths(t.kids[n - 1 - i], p[1..]);
      }
    }
  }

  /** Reversing twice gives the original tree, so the export loses nothing. */
  lemma {:induction false} FlipTwice(t: Tree)
    ensures Flip(Flip(t)) == t
    decreases t
  {
    var n := |t.kids|;
    if n > 0 {
      FlipKidsAt(t.kids, 0);
      forall i | 0 <= i < n
        ensures |FlipKids(FlipKids(t.kids))| == n && FlipKids(FlipKids(t.kids))[i] == t.kids[i]
      {
        FlipKidsAt(t.kids, i);
        FlipKidsAt(FlipKids(t.kids), n - 1 - i);
        FlipTwice(t.kids[i]);
      }
      assert FlipKids(FlipKids(t.kids)) == t.kids;
    }
  }

  /** Reversal keeps siblings distinct, and equal ones equal. */
  lemma {:induction false} FlipProper(t: Tree)
    ensures Proper(Flip(t)) <==> Proper(t)
    decreases t
  {
    var n, flipped := |t.kids|, FlipKids(t.kids);
    if n > 0 { FlipKidsAt(t.kids, 0); }
    forall i | 0 <= i < n
      ensures flipped[n - 1 - i] == Flip(t.kids[i]) && (Proper(flipped[n - 1 - i]) <==> Proper(t.kids[i]))
    {
      FlipKidsAt(t.kids, i);
      FlipProper(t.kids[i]);
    }
    ReversedProper(t.kids, flipped);
    ProperIff(t);
    ProperIff(Flip(t));
  }

  lemma ReversedProper(kids: seq<Tree>, flipped: seq<Tree>)
    requires |flipped| == |kids|
    requires forall i :: 0 <= i < |kids| ==>
      flipped[|kids| - 1 - i].name == kids[i].name && (Proper(flipped[|kids| - 1 - i]) <==> Proper(kids[i]))
    ensures NamesDiffer(kids) && AllProper(kids) <==> NamesDiffer(flipped) && AllProper(flipped)
  {
    var n := |kids|;
    forall i | 0 <= i < n
      ensures flipped[i].name == kids[n - 1 - i].name && (Proper(flipped[i]) <==> Proper(kids[n - 1 - i]))
    {
      assert flipped[n - 1 - (n - 1 - i)] == flipped[i];
    }
  }
}
