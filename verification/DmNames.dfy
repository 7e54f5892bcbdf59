/** Data-model names as the exporter sees them: split at dots, then with instance placeholders folded into the types of
    the tokens before them. */
module DmNames {
  const CCSP_ARRAY := 11
  const CCSP_OBJECT := 12

  datatype Entry = Entry(str: string, ty: nat)

  /** Length of the first token of a string that does not start with a dot. */
  function TokenEnd(s: string): (n: nat)
    ensures n <= |s| && (forall k :: 0 <= k < n ==> s[k] != '.') && (n < |s| ==> s[n] == '.')
  {
    if s == "" || s[0] == '.' then 0 else 1 + TokenEnd(s[1..])
  }

  /** What repeated `strtok(_, ".")` yields: the maximal runs without a dot, empty ones skipped. */
  function Tokens(s: string): seq<string>
    decreases |s|
  {
    if s == "" then []
    else if s[0] == '.' then Tokens(s[1..])
    else [s[..TokenEnd(s)]] + Tokens(s[TokenEnd(s)..])
  }

  predicate IsToken(t: string) {
    t != "" && '.' !in t
  }

  lemma {:induction false} TokensAreTokens(s: string)
    ensures forall t :: t in Tokens(s) ==> IsToken(t)
    decreases |s|
  {
    if s != "" {
      if s[0] == '.' {
        TokensAreTokens(s[1..]);
      } else {
        TokensAreTokens(s[TokenEnd(s)..]);
        assert IsToken(s[..TokenEnd(s)]);
      }
    }
  }

  function Join(ts: seq<string>): string {
    if ts == [] then "" else if |ts| == 1 then ts[0] else ts[0] + "." + Join(ts[1..])
  }

  lemma {:induction false} FirstToken(t: string, rest: string)
    requires '.' !in t && (rest == "" || rest[0] == '.')
    ensures TokenEnd(t + rest) == |t|
  {
    if t == "" {
      assert t + rest == rest;
    } else {
      assert (t + rest)[1..] == t[1..] + rest;
      FirstToken(t[1..], rest);
    }
  }

  lemma {:induction false} TokenEndWithin(a: string, b: string)
    ensures TokenEnd(a + "." + b) == TokenEnd(a)
    decreases |a|
  {
    var s := a + "." + b;
    if a != "" && a[0] != '.' {
      assert s[1..] == a[1..] + "." + b;
      TokenEndWithin(a[1..], b);
    }
  }

  lemma SplitWithin(a: string, b: string, n: nat)
    requires n <= |a|
    ensures var s := a + "." + b; s[..n] == a[..n] && s[n..] == a[n..] + "." + b
  {
  }

  lemma FirstOfTokens(s: string)
    requires s != "" && s[0] != '.'
    ensures TokenEnd(s) > 0 && Tokens(s) == [s[..TokenEnd(s)]] + Tokens(s[TokenEnd(s)..])
  {
  }

  /** The law of splitting, for any strings: a dot separates, wherever it stands. */
  lemma {:induction false} TokensAtDot(a: string, b: string)
    ensures Tokens(a + "." + b) == Tokens(a) + Tokens(b)
    decreases |a|
  {
    var s := a + "." + b;
    if a == "" {
      assert s[0] == '.' && s[1..] == b;
    } else if a[0] == '.' {
      assert s[1..] == a[1..] + "." + b;
      TokensAtDot(a[1..], b);
    } else {
      TokenEndWithin(a, b);
      var n := TokenEnd(a);
      TokensAtDot(a[n..], b);
      SplitWithin(a, b, n);
      FirstOfTokens(s);
      FirstOfTokens(a);
      assert [a[..n]] + (Tokens(a[n..]) + Tokens(b)) == [a[..n]] + Tokens(a[n..]) + Tokens(b);
    }
  }

  /** A string without dots is its own token, unless it is empty. */
  lemma TokensWithoutDot(s: string)
    requires '.' !in s
    ensures Tokens(s) == if s == "" then [] else [s]
  {
    FirstToken(s, "");
    assert s + "" == s;
    if s != "" { assert s[|s|..] == "" && Tokens("") == []; }
  }

  /** Splitting undoes joining, with or without a trailing dot. */
  lemma {:induction false} TokensOfJoin(ts: seq<string>, tail: string)
    requires forall t :: t in ts ==> IsToken(t)
    requires tail == "" || tail == "."
    ensures Tokens(Join(ts) + tail) == ts
  {
    if ts == [] {
      assert Join(ts) + tail == tail;
      assert tail == "." ==> tail[1..] == "";
    } else {
      assert IsToken(ts[0]);
      TokensWithoutDot(ts[0]);
      assert ts == [ts[0]] + ts[1..];
      if |ts| == 1 {
        assert tail == "" ==> ts[0] + tail == ts[0];
        assert tail == "." ==> ts[0] + tail == ts[0] + "." + "";
        TokensAtDot(ts[0], "");
      } else {
        assert Join(ts) + tail == ts[0] + "." + (Join(ts[1..]) + tail);
        TokensAtDot(ts[0], Join(ts[1..]) + tail);
        TokensOfJoin(ts[1..], tail);
      }
    }
  }

  /** An instance placeholder: it contains a brace or starts with a digit from 1 to 8. */
  predicate Placeholder(t: string) {
    '{' in t || (t != "" && '0' < t[0] < '9')
  }

  /** `setTypeField`: a placeholder after a token is dropped and makes the token an array; the token that follows is
      then taken as it stands. */
  function Mark(ts: seq<string>, ty: nat): seq<Entry>
    decreases |ts|
  {
    if ts == [] then []
    else if |ts| == 1 then [Entry(ts[0], ty)]
    else if Placeholder(ts[1]) then [Entry(ts[0], CCSP_ARRAY)] + Mark(ts[2..], ty)
    else [Entry(ts[0], CCSP_OBJECT)] + Mark(ts[1..], ty)
  }

  /** The type a token deserves from its neighbour alone. */
  function TypeAt(ts: seq<string>, ty: nat, i: nat): nat
    requires i < |ts|
  {
    if i + 1 == |ts| then ty else if Placeholder(ts[i + 1]) then CCSP_ARRAY else CCSP_OBJECT
  }

  /** The intended result: every token that is not a placeholder, with the type its neighbour gives it. */
  function Intended(ts: seq<string>, ty: nat): seq<Entry> {
    if ts == [] then []
    else (if Placeholder(ts[0]) then [] else [Entry(ts[0], TypeAt(ts, ty, 0))]) + Intended(ts[1..], ty)
  }

  /** No token is a placeholder at the front or right after another placeholder. */
  ghost predicate Separated(ts: seq<string>) {
    && (ts != [] ==> !Placeholder(ts[0]))
    && forall i :: 0 <= i < |ts| - 1 ==> !(Placeholder(ts[i]) && Placeholder(ts[i + 1]))
  }

  /** The in-place pass gives the intended result exactly when placeholders are separated. */
  lemma {:induction false} MarkIntendedIff(ts: seq<string>, ty: nat)
    ensures Mark(ts, ty) == Intended(ts, ty) <==> Separated(ts)
    decreases |ts|
  {
    if |ts| <= 1 {
      if |ts| == 1 { assert Intended(ts[1..], ty) == []; }
    } else if Placeholder(ts[0]) {
      IntendedHasNoPlaceholder(ts, ty);
      assert Mark(ts, ty)[0].str == ts[0];
    } else {
      var k := if Placeholder(ts[1]) then 2 else 1;
      MarkIntendedIff(ts[k..], ty);
      assert ts[1..][1..] == ts[2..];
      assert Intended(ts, ty) == [Entry(ts[0], TypeAt(ts, ty, 0))] + Intended(ts[k..], ty);
      assert Mark(ts, ty)[1..] == Mark(ts[k..], ty);
      assert Intended(ts, ty)[1..] == Intended(ts[k..], ty);
      SeparatedAfter(ts, k);
    }
  }

  lemma SeparatedAfter(ts: seq<string>, k: nat)
    requires |ts| >= 2 && !Placeholder(ts[0]) && k == if Placeholder(ts[1]) then 2 else 1
    ensures Separated(ts) <==> Separated(ts[k..])
  {
    if Separated(ts[k..]) {
      forall i | 0 <= i < |ts| - 1
        ensures !(Placeholder(ts[i]) && Placeholder(ts[i + 1]))
      {
        if i >= k {
          assert ts[k..][i - k] == ts[i] && ts[k..][i - k + 1] == ts[i + 1];
        } else if k == 2 && i == 1 && |ts| > 2 {
          assert ts[k..][0] == ts[2];
        }
      }
    }
    if Separated(ts) {
      forall i | 0 <= i < |ts[k..]| - 1
        ensures !(Placeholder(ts[k..][i]) && Placeholder(ts[k..][i + 1]))
      {
        assert !(Placeholder(ts[i + k]) && Placeholder(ts[i + k + 1]));
      }
      assert k == 2 && |ts| > 2 ==> !(Placeholder(ts[1]) && Placeholder(ts[2]));
    }
  }

  lemma {:induction false} IntendedHasNoPlaceholder(ts: seq<string>, ty: nat)
    ensures forall e :: e in Intended(ts, ty) ==> !Placeholder(e.str)
    ensures forall e :: e in Intended(ts, ty) ==> e.str in ts
    ensures forall e :: e in Intended(ts, ty) ==> e.ty == ty || e.ty == CCSP_ARRAY || e.ty == CCSP_OBJECT
  {
    if ts != [] {
      IntendedHasNoPlaceholder(ts[1..], ty);
    }
  }

  /** Walking back from a token: it is dropped if it is a placeholder and the token before it is there and stays. */
  predicate Dropped(ts: seq<string>, i: nat)
    requires i < |ts|
  {
    Placeholder(ts[i]) && i > 0 && !Dropped(ts, i - 1)
  }

  /** What is left of the first `n` tokens, each with the type its neighbour gives it. */
  function Left(ts: seq<string>, ty: nat, n: nat): seq<Entry>
    requires n <= |ts|
  {
    if n == 0 then []
    else Left(ts, ty, n - 1) + if Dropped(ts, n - 1) then [] else [Entry(ts[n - 1], TypeAt(ts, ty, n - 1))]
  }

  /** The pass from any token that stays onwards. */
  lemma {:induction false} MarkFrom(ts: seq<string>, ty: nat, i: nat)
    requires i <= |ts| && (i < |ts| ==> !Dropped(ts, i))
    ensures Left(ts, ty, |ts|) == Left(ts, ty, i) + Mark(ts[i..], ty)
    decreases |ts| - i
  {
    if i < |ts| {
      var rest := ts[i..];
      assert Left(ts, ty, i + 1) == Left(ts, ty, i) + [Entry(ts[i], TypeAt(ts, ty, i))];
      if i + 1 == |ts| {
        assert Mark(rest, ty) == [Entry(ts[i], ty)];
      } else if Placeholder(ts[i + 1]) {
        assert Dropped(ts, i + 1) && Left(ts, ty, i + 2) == Left(ts, ty, i + 1);
        assert rest[2..] == ts[i + 2..];
        MarkFrom(ts, ty, i + 2);
      } else {
        assert rest[1..] == ts[i + 1..];
        MarkFrom(ts, ty, i + 1);
      }
    }
  }

  /** What the in-place pass leaves of any list of tokens: of each run of placeholders the first, third and so on are
      dropped, counting from the second token of the list on, and every token that stays is typed by its neighbour. */
  lemma MarkLeaves(ts: seq<string>, ty: nat)
    ensures Mark(ts, ty) == Left(ts, ty, |ts|)
  {
    MarkFrom(ts, ty, 0);
    assert ts[0..] == ts;
  }

  lemma OneToEight(c: char)
    ensures '0' < c < '9' <==> c in "12345678"
  {
    assert c in "12345678" <==>
           c == '1' || c == '2' || c == '3' || c == '4' || c == '5' || c == '6' || c == '7' || c == '8';
  }

  /** A token that is no instance: no brace, and no digit from 1 to 8 in front. */
  predicate Ordinary(t: string) {
    '{' !in t && (t == "" || t[0] !in "12345678")
  }

  /** A token that is an instance: a brace somewhere, or a digit from 1 to 8 in front. */
  predicate Instance(t: string) {
    '{' in t || (t != "" && t[0] in "12345678")
  }

  lemma PlaceholderIsInstance(t: string)
    ensures Placeholder(t) <==> Instance(t)
  {
    if t != "" { OneToEight(t[0]); }
  }

  /** Tokens that are no instances all stay, the last one with the given type and the others as objects; a leading `0`
      or `9` makes no instance. */
  lemma {:induction false} MarkKeepsOrdinary(ts: seq<string>, ty: nat)
    requires forall i :: 0 <= i < |ts| ==> Ordinary(ts[i])
    ensures |Mark(ts, ty)| == |ts|
    ensures forall i :: 0 <= i < |ts| ==> Mark(ts, ty)[i] == Entry(ts[i], if i == |ts| - 1 then ty else CCSP_OBJECT)
    decreases |ts|
  {
    if |ts| > 1 {
      if ts[1] != "" { OneToEight(ts[1][0]); }
      MarkKeepsOrdinary(ts[1..], ty);
    }
  }

  /** A single instance behind a token is dropped and makes that token an array; all other tokens stay, the last one
      with the given type and the others as objects. */
  lemma {:induction false} MarkDropsInstance(a: seq<string>, x: string, d: string, b: seq<string>, ty: nat)
    requires (forall i :: 0 <= i < |a| ==> Ordinary(a[i])) && Ordinary(x) && Instance(d)
    requires forall i :: 0 <= i < |b| ==> Ordinary(b[i])
    ensures var ts, w := a + [x] + b, Mark(a + [x, d] + b, ty);
            && |w| == |ts|
            && forall i :: 0 <= i < |ts| ==>
                 w[i] == Entry(ts[i], if i == |a| then 11 else if i == |ts| - 1 then ty else 12)
    decreases |a|
  {
    var ts := a + [x, d] + b;
    if a == [] {
      if d != "" { OneToEight(d[0]); }
      assert ts[0] == x && ts[1] == d && ts[2..] == b;
      MarkKeepsOrdinary(b, ty);
    } else {
      MarkDropsInstance(a[1..], x, d, b, ty);
      var next := (a[1..] + [x])[0];
      assert ts[0] == a[0] && ts[1] == next && ts[1..] == a[1..] + [x, d] + b && Ordinary(next);
      if next != "" { OneToEight(next[0]); }
      assert Mark(ts, ty) == [Entry(a[0], CCSP_OBJECT)] + Mark(ts[1..], ty);
    }
  }
}
