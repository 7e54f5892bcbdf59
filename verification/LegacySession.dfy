/** The legacy session lock: a higher priority takes a running session over, and identifiers come from a counter of
    fixed width. */
module LegacySession {
  import opened Wrappers

  datatype Code = Success | SessionInProgress

  datatype Session = Session(id: nat, priority: nat, active: bool)

  datatype Op = Request(priority: nat) | InformEnd(id: nat)

  /** `uSessionID ++` on a ULONG, which can take `range` values. */
  function Next(id: nat, range: nat): nat {
    if id + 1 == range then 0 else id + 1
  }

  /** What a counter that starts at 0 shows after `n` increments. */
  function Counter(n: nat, range: nat): (r: nat)
    requires range > 0
    ensures r < range
    decreases n
  {
    if n < range then n else Counter(n - range, range)
  }

  function Grant(s: Session, priority: nat, range: nat): Option<Session> {
    if s.active && priority <= s.priority then None else Some(Session(Next(s.id, range), priority, true))
  }

  function Finish(s: Session, id: nat): Session {
    if s.active && id == s.id then s.(active := false) else s
  }

  /** A run remembers the identifiers granted so far, and for the session in progress the priorities that were granted
      and all that were asked for. */
  datatype History = History(now: Session, ids: seq<nat>, chain: seq<nat>, asked: seq<nat>)

  function Start(): History {
    History(Session(0, 0, false), [], [], [])
  }

  function Extend(h: History, op: Op, range: nat): History {
    match op
    case Request(p) =>
      var next := Grant(h.now, p, range);
      if next.None? then h.(asked := h.asked + [p])
      else History(next.value, h.ids + [next.value.id], h.chain + [p], h.asked + [p])
    case InformEnd(id) =>
      var next := Finish(h.now, id);
      if h.now.active && !next.active then History(next, h.ids, [], []) else h
  }

  function Run(ops: seq<Op>, range: nat): History
    decreases |ops|
  {
    if ops == [] then Start() else Extend(Run(ops[..|ops| - 1], range), ops[|ops| - 1], range)
  }

  ghost predicate Increasing(s: seq<nat>) {
    forall i, j :: 0 <= i < j < |s| ==> s[i] < s[j]
  }

  ghost predicate Distinct(s: seq<nat>) {
    forall i, j :: 0 <= i < j < |s| ==> s[i] != s[j]
  }

  ghost predicate Inv(h: History, range: nat)
    requires range > 0
  {
    && (forall k :: 0 <= k < |h.ids| ==> h.ids[k] == Counter(k + 1, range))
    && h.now.id == Counter(|h.ids|, range)
    && (h.now.active <==> h.chain != [])
    && (h.now.active ==> h.ids != [] && h.chain[|h.chain| - 1] == h.now.priority)
    && (!h.now.active ==> h.asked == [])
    && Increasing(h.chain)
    && (forall i :: 0 <= i < |h.asked| ==> h.asked[i] <= h.now.priority)
    && (forall i :: 0 <= i < |h.chain| ==> h.chain[i] in h.asked)
  }

  lemma {:induction false} CounterStep(n: nat, range: nat)
    requires range > 0
    ensures Counter(n + 1, range) == Next(Counter(n, range), range)
    decreases n
  {
    if n >= range { CounterStep(n - range, range); }
  }

  lemma StepKeepsInv(h: History, op: Op, range: nat)
    requires range > 0 && Inv(h, range)
    ensures Inv(Extend(h, op, range), range)
  {
    CounterStep(|h.ids|, range);
  }

  lemma {:induction false} RunInv(ops: seq<Op>, range: nat)
    requires range > 0
    ensures Inv(Run(ops, range), range)
    decreases |ops|
  {
    if ops != [] {
      RunInv(ops[..|ops| - 1], range);
      StepKeepsInv(Run(ops[..|ops| - 1], range), ops[|ops| - 1], range);
    }
  }

  /** Two grants get the same identifier exactly when the counter comes round to 0 in the number of grants between. */
  lemma {:induction false} SameIdIff(i: nat, j: nat, range: nat)
    requires range > 0 && i <= j
    ensures Counter(i, range) == Counter(j, range) <==> Counter(j - i, range) == 0
    decreases j
  {
    if j - i >= range {
      SameIdIff(i, j - range, range);
    } else if i >= range {
      SameIdIff(i - range, j - range, range);
    }
  }

  /** Identifiers are never reused exactly as long as there have been no more grants than values of the counter. */
  lemma IdsDistinctIff(ops: seq<Op>, range: nat)
    requires range > 0
    ensures Distinct(Run(ops, range).ids) <==> |Run(ops, range).ids| <= range
  {
    var ids := Run(ops, range).ids;
    RunInv(ops, range);
    if |ids| <= range {
      forall i, j | 0 <= i < j < |ids|
        ensures ids[i] != ids[j]
      {
        SameIdIff(i + 1, j + 1, range);
      }
    } else {
      SameIdIff(1, range + 1, range);
      assert ids[0] == ids[range];
    }
  }

  /** They increase exactly as long as the counter has not come round to 0. */
  lemma IdsIncreaseIff(ops: seq<Op>, range: nat)
    requires range > 1
    ensures Increasing(Run(ops, range).ids) <==> |Run(ops, range).ids| < range
  {
    var ids := Run(ops, range).ids;
    RunInv(ops, range);
    if |ids| < range {
      forall i, j | 0 <= i < j < |ids|
        ensures ids[i] < ids[j]
      {
      }
    } else {
      assert Counter(0, range) == 0;
      assert ids[range - 1] == 0 && ids[0] == 1;
    }
  }

  /** The grant with index `k` can end the session in progress exactly when it is the latest one, or the counter has
      come round in between; the end of a session that was taken over is otherwise without effect. */
  lemma OnlyLatestEnds(ops: seq<Op>, k: nat, range: nat)
    requires range > 0 && k < |Run(ops, range).ids| && Run(ops, range).now.active
    ensures var h := Run(ops, range);
            && (Finish(h.now, h.ids[k]) != h.now <==> Counter(|h.ids| - 1 - k, range) == 0)
            && (|h.ids| <= range ==> (Finish(h.now, h.ids[k]) != h.now <==> k == |h.ids| - 1))
  {
    var h := Run(ops, range);
    RunInv(ops, range);
    SameIdIff(k + 1, |h.ids|, range);
  }

  /** During one session the granted priorities strictly increase, and the holder has the highest priority anyone asked
      for since the session began. */
  lemma HolderIsHighest(ops: seq<Op>, range: nat)
    requires range > 0 && Run(ops, range).now.active
    ensures var h := Run(ops, range);
            && Increasing(h.chain) && h.chain != [] && h.chain[|h.chain| - 1] == h.now.priority
            && h.now.priority in h.asked && forall p :: p in h.asked ==> p <= h.now.priority
  {
    RunInv(ops, range);
  }

  lemma {:induction false} IncreasingSpread(s: seq<nat>)
    requires Increasing(s) && s != []
    ensures s[|s| - 1] >= s[0] + |s| - 1
    decreases |s|
  {
    if |s| > 1 {
      IncreasingSpread(s[..|s| - 1]);
    }
  }

  /** A session can be taken over at most as often as there are priorities above its first. */
  lemma ChainIsBounded(ops: seq<Op>, range: nat, highest: nat)
    requires range > 0 && forall i :: 0 <= i < |ops| && ops[i].Request? ==> ops[i].priority <= highest
    ensures var chain := Run(ops, range).chain; chain != [] ==> |chain| <= highest - chain[0] + 1
  {
    var chain := Run(ops, range).chain;
    RunInv(ops, range);
    if chain != [] {
      IncreasingSpread(chain);
      AskedBelow(ops, range, highest);
    }
  }

  lemma {:induction false} AskedBelow(ops: seq<Op>, range: nat, highest: nat)
    requires range > 0 && forall i :: 0 <= i < |ops| && ops[i].Request? ==> ops[i].priority <= highest
    ensures forall i :: 0 <= i < |Run(ops, range).chain| ==> Run(ops, range).chain[i] <= highest
    decreases |ops|
  {
    if ops != [] { AskedBelow(ops[..|ops| - 1], range, highest); }
  }

  /** Until the counter comes round, the identifier reported is 0 exactly when no session is in progress. */
  lemma ReportedIdIff(ops: seq<Op>, range: nat)
    requires range > 0 && |Run(ops, range).ids| < range
    ensures var s := Run(ops, range).now; (if s.active then s.id else 0) == 0 <==> !s.active
  {
    RunInv(ops, range);
    var n := |Run(ops, range).ids|;
  }

  /** `n` sessions, each requested and ended by its holder. */
  function Pairs(n: nat, range: nat): seq<Op>
    requires range > 0
  {
    if n == 0 then [] else Pairs(n - 1, range) + [Request(0), InformEnd(Counter(n, range))]
  }

  lemma {:induction false} PairsRun(n: nat, range: nat)
    requires range > 0
    ensures var h := Run(Pairs(n, range), range); |h.ids| == n && !h.now.active
    decreases n
  {
    if n > 0 {
      var before, ops := Pairs(n - 1, range), Pairs(n, range);
      PairsRun(n - 1, range);
      RunInv(before, range);
      CounterStep(n - 1, range);
      var requested := ops[..|ops| - 1];
      assert requested == before + [Request(0)] && requested[..|requested| - 1] == before;
      assert Run(requested, range) == Extend(Run(before, range), Request(0), range);
      assert Run(ops, range) == Extend(Run(requested, range), InformEnd(Counter(n, range)), range);
    }
  }

  /** The run that goes wrong: after as many sessions as the counter has values, one more is granted the identifier of
      the first, whose holder can end it. */
  lemma CounterComesRound(range: nat)
    requires range > 0
    ensures var h := Run(Pairs(range, range) + [Request(0)], range);
            && |h.ids| == range + 1 && h.ids[0] == h.ids[range] && !Distinct(h.ids)
            && h.now.active && Finish(h.now, h.ids[0]) != h.now
  {
    var before := Pairs(range, range);
    var ops := before + [Request(0)];
    PairsRun(range, range);
    assert ops[..|ops| - 1] == before;
    RunInv(ops, range);
    IdsDistinctIff(ops, range);
    SameIdIff(1, range + 1, range);
    assert Counter(0, range) == 0;
  }

  class SessionLock {
    const range: nat
    var uSessionID: nat
    var uPriority: nat
    var bInSession: bool

    ghost predicate Valid()
      reads this
    {
      range > 0 && uSessionID < range
    }

    ghost function State(): Session
      reads this
    {
      Session(uSessionID, uPriority, bInSession)
    }

    constructor (range: nat)
      requires range > 0
      ensures Valid() && this.range == range && State() == Start().now
    {
      this.range := range;
      uSessionID, uPriority, bInSession := 0, 0, false;
    }

    /** `CcspCrRequestSessionID`; the identifier is returned only with success. */
    method RequestSessionID(priority: nat) returns (code: Code, sessionID: Option<nat>)
      requires Valid()
      modifies this
      ensures Valid() && sessionID == if code == Success then Some(uSessionID) else None
      ensures match Grant(old(State()), priority, range)
              case None => code == SessionInProgress && State() == old(State())
              case Some(next) => code == Success && State() == next
    {
      if bInSession {
        if priority <= uPriority {
          return SessionInProgress, None;
        }
      }
      uSessionID := Next(uSessionID, range);
      uPriority := priority;
      bInSession := true;
      return Success, Some(uSessionID);
    }

    /** `CcspCrGetCurrentSessionID`: zeros when no session is in progress. */
    method GetCurrentSessionID() returns (priority: nat, sessionID: nat)
      ensures (priority, sessionID) == if State().active then (State().priority, State().id) else (0, 0)
    {
      if bInSession {
        return uPriority, uSessionID;
      } else {
        return 0, 0;
      }
    }

    /** `CcspCrInformEndOfSession`; it reports success whether or not the session ended. */
    method InformEndOfSession(sessionID: nat) returns (code: Code)
      requires Valid()
      modifies this`bInSession
      ensures Valid() && State() == Finish(old(State()), sessionID) && code == Success
    {
      if bInSession {
        if sessionID == uSessionID {
          bInSession := false;
        }
      }
      return Success;
    }
  }
}
