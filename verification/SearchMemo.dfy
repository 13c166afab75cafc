/** One search over many find calls: its budget, its trip, and the memo whose marks stay pure failures. */
module SearchMemo {
  import opened PrioritySearch
  import opened BtProgram
  import opened BtMachine
  import opened WorkBudget
  import opened BtSpec
  import opened BtCalls
  import opened FallbackCost
  import opened GiveUp
  import opened Textbook
  import DispatchKeeps

  // ---- Marks left by a matching attempt ----

  lemma Ahead(e: Env, g: Graph<Node>, n: Node)
    requires Walks(e, g) && e.Live(n)
    ensures n in g.succ
    ensures forall j :: 0 <= j < |g.succ[n]| ==>
              var m := g.succ[n][j]; e.Live(m) && m in g.succ && g.rank[m] < g.Level(n) && n.pos <= m.pos
  {
    assert g.succ[n] == e.Succ(n);
  }

  // A search marks nothing before its start.
  lemma {:induction false} MarksAhead(e: Env, g: Graph<Node>, n: Node, marks: set<Node>, lo: nat)
    requires Walks(e, g) && e.Live(n) && lo <= n.pos
    ensures forall b :: b in Search(g, n, marks).marks ==> b in marks || lo <= b.pos
    decreases |g.guarded - marks|, g.rank[n], |g.succ[n]| + 1
  {
    if !(n in g.guarded && n in marks) && n !in g.goals {
      Shrinks(g, n, marks);
      Ahead(e, g, n);
      MarksAheadOf(e, g, g.succ[n], 0, g.Level(n), g.With(marks, n), lo);
    }
  }

  lemma {:induction false} MarksAheadOf(e: Env, g: Graph<Node>, ms: seq<Node>, i: nat, level: nat, marks: set<Node>,
                                        lo: nat)
    requires Walks(e, g) && i <= |ms|
    requires forall j :: 0 <= j < |ms| ==> e.Live(ms[j]) && ms[j] in g.succ && g.rank[ms[j]] < level && lo <= ms[j].pos
    ensures forall b :: b in SearchOf(g, ms, i, level, marks).marks ==> b in marks || lo <= b.pos
    decreases |g.guarded - marks|, level, |ms| - i
  {
    if i < |ms| {
      MarksAhead(e, g, ms[i], marks, lo);
      var o := Search(g, ms[i], marks);
      if o.found.NotFound? {
        FewerLeft(g, marks, o.marks);
        MarksAheadOf(e, g, ms, i + 1, level, o.marks, lo);
      }
    }
  }

  ghost predicate Between(nodes: seq<Node>, lo: nat) {
    nodes != [] && forall i :: 0 <= i < |nodes| ==> lo <= nodes[i].pos <= nodes[|nodes| - 1].pos
  }

  lemma OneMoreRow(n: Node, tail: seq<Node>, lo: nat)
    requires n.pos <= lo && Between(tail, lo)
    ensures Between([n] + tail, n.pos)
  {
    var nodes := [n] + tail;
    forall i | 0 <= i < |nodes| ensures n.pos <= nodes[i].pos <= nodes[|nodes| - 1].pos {
      assert i > 0 ==> nodes[i] == tail[i - 1];
      assert lo <= tail[0].pos;
    }
  }

  // A path only moves forward: its states lie between its ends.
  lemma {:induction false} PathOnRows(e: Env, g: Graph<Node>, n: Node, cs: seq<nat>, avoid: set<Node>)
    requires Walks(e, g) && Simple(g, n, cs, avoid)
    ensures Between(Nodes(g, n, cs), n.pos)
    decreases |cs|
  {
    if n !in g.goals {
      var m := g.succ[n][cs[0]];
      assert e.Live(n) && n.pos <= m.pos;
      PathOnRows(e, g, m, cs[1..], g.With(avoid, n));
      OneMoreRow(n, Nodes(g, m, cs[1..]), m.pos);
    }
  }

  // Past every state to avoid, a path meets none of them.
  lemma {:induction false} LeadsPast(e: Env, g: Graph<Node>, n: Node, cs: seq<nat>, avoid: set<Node>)
    requires Walks(e, g) && Leads(g, n, cs, {}) && forall x :: x in avoid ==> x.pos < n.pos
    ensures Leads(g, n, cs, avoid)
    decreases |cs|
  {
    if n !in g.goals {
      assert e.Live(n);
      LeadsPast(e, g, g.succ[n][cs[0]], cs[1..], avoid);
    }
  }

  // The marks outside those rows.
  function Cleared(marks: set<Node>, lo: nat, hi: nat): (left: set<Node>)
    ensures left <= marks && forall b :: b in marks ==> (b in left <==> b.pos < lo || hi < b.pos)
  {
    set b | b in marks && !(lo <= b.pos <= hi)
  }

  ghost predicate Pure(g: Graph<Node>, marks: set<Node>) {
    Spent(g, marks, {})
  }

  lemma NodeOfPath(g: Graph<Node>, n: Node, cs: seq<nat>, x: Node) returns (i: nat)
    requires x in OnPath(g, n, cs)
    ensures i < |Nodes(g, n, cs)| && Nodes(g, n, cs)[i] == x
  {
    i :| 0 <= i < |Nodes(g, n, cs)| && Nodes(g, n, cs)[i] == x;
  }

  lemma PathEndsLast(e: Env, g: Graph<Node>, n: Node, cs: seq<nat>, end: nat)
    requires Walks(e, g) && Simple(g, n, cs, {}) && Nodes(g, n, cs)[|Nodes(g, n, cs)| - 1].pos == end
    ensures forall x :: x in OnPath(g, n, cs) ==> x.pos <= end
  {
    PathOnRows(e, g, n, cs, {});
    forall x | x in OnPath(g, n, cs) ensures x.pos <= end {
      var i := NodeOfPath(g, n, cs, x);
    }
  }

  // Old marks were failures; new ones past the path's end are too, and the rows between are cleared.
  lemma RowsCleared(e: Env, g: Graph<Node>, lo: nat, end: nat, before: set<Node>, marks: set<Node>, on: set<Node>)
    requires Walks(e, g) && Pure(g, before) && (forall x :: x in on ==> x.pos <= end)
    requires forall b :: b in marks ==> b in before || lo <= b.pos
    requires forall b :: b in marks && b !in on ==> Dead(g, b, on)
    ensures Pure(g, Cleared(marks, lo, end))
  {
    forall b | b in Cleared(marks, lo, end) ensures Dead(g, b, {}) {
      if b !in before {
        PastIsDead(e, g, b, on);
      }
    }
  }

  // Clearing the rows from the attempt's start to the match's end leaves only failures.
  lemma ClearedIsPure(e: Env, g: Graph<Node>, n: Node, marks: set<Node>)
    requires Walks(e, g) && e.Live(n) && Pure(g, marks) && Search(g, n, marks).found.Found?
    ensures var o := Search(g, n, marks);
            var nodes := Nodes(g, n, o.found.path);
            Pure(g, Cleared(o.marks, n.pos, nodes[|nodes| - 1].pos))
  {
    var o := Search(g, n, marks);
    var nodes := Nodes(g, n, o.found.path);
    SearchIsBest(g, n, marks, {});
    BestIsLeast(g, n, {});
    PathEndsLast(e, g, n, o.found.path, nodes[|nodes| - 1].pos);
    SuccessSpent(g, n, marks, {});
    MarksAhead(e, g, n, marks, n.pos);
    var on := OnPath(g, n, o.found.path);
    assert {} + on == on;
    RowsCleared(e, g, n.pos, nodes[|nodes| - 1].pos, marks, o.marks, on);
  }

  lemma PastIsDead(e: Env, g: Graph<Node>, b: Node, on: set<Node>)
    requires Walks(e, g) && Dead(g, b, on) && forall x :: x in on ==> x.pos < b.pos
    ensures Dead(g, b, {})
  {
    forall cs ensures !Leads(g, b, cs, {}) {
      if Leads(g, b, cs, {}) {
        LeadsPast(e, g, b, cs, on);
      }
    }
  }

  // ---- What a find owes ----

  datatype Answer = Nowhere | Spans(start: nat, end: nat) | GaveUp

  function NoCaps(slots: nat): (caps: seq<int>)
    ensures |caps| == slots
  {
    seq(slots, _ => -1)
  }

  // A find's call over the whole text, from any start.
  ghost predicate Finding(e: Env, entry: nat) {
    e.Valid() && e.first == 0 && e.limit == |e.text| && entry < |e.prog| && entry !in e.plan.dead
  }

  // The answer of the matcher from one start.
  ghost function From(e: Env, entry: nat, s: nat): Result
    requires Finding(e, entry) && s <= |e.text|
  {
    PlainValid(e);
    MatchFrom(Plain(e), At(entry, s), NoCaps(e.slots))
  }

  // What the slots held before is nothing to where a match ends.
  lemma CapsAside(e: Env, entry: nat, s: nat, caps: seq<int>)
    requires Finding(e, entry) && s <= |e.text| && |caps| == e.slots
    ensures Plain(e).Valid()
    ensures var r, q := From(e, entry, s), MatchFrom(Plain(e), At(entry, s), caps);
            (r.MatchAt? <==> q.MatchAt?) && (r.MatchAt? ==> r.end == q.end)
  {
    ReferenceIsTextbook(e, At(entry, s), caps);
    ReferenceIsTextbook(e, At(entry, s), NoCaps(e.slots));
  }

  lemma FromIs(e: Env, entry: nat, s: nat)
    requires Finding(e, entry) && s <= |e.text|
    ensures Plain(e).Valid() && From(e, entry, s) == Reference(e, At(entry, s), NoCaps(e.slots))
  {
    ReferenceIsTextbook(e, At(entry, s), NoCaps(e.slots));
  }

  ghost predicate NoneIn(e: Env, entry: nat, from: nat, to: nat, starts: set<nat>)
    requires Finding(e, entry) && to <= |e.text| + 1
  {
    forall s :: from <= s < to && s in starts ==> From(e, entry, s).NoMatch?
  }

  // The leftmost start at or after from, among those allowed, with its leftmost-first end.
  ghost predicate IsFirst(e: Env, entry: nat, from: nat, starts: set<nat>, a: Answer)
    requires Finding(e, entry)
  {
    match a
    case Nowhere => NoneIn(e, entry, from, |e.text| + 1, starts)
    case Spans(s, end) =>
      && from <= s <= |e.text| && s in starts && NoneIn(e, entry, from, s, starts)
      && From(e, entry, s).MatchAt? && From(e, entry, s).end == end
    case GaveUp => true
  }

  // A fallback attempt on pure marks answers exactly, and leaves pure marks: all of them after a failure, all
  // but the rows of its match after a success.
  lemma AttemptMeans(e: Env, p: DispatchKeeps.Proof, chain: seq<nat>, entry: nat, s: nat, marks: set<Node>)
    requires Finding(e, entry) && DispatchKeeps.PlanOk(e.prog, e.plan, p) && ChainRanked(e.prog, chain) && s <= |e.text|
    requires Pure(FallbackGraph(e, chain), marks)
    ensures var g := FallbackGraph(e, chain);
            && Walks(e, g) && g.guarded == AltStates(e)
            && var o := Search(g, At(entry, s), marks);
               var r := ResultOf(e, g, At(entry, s), o.found, NoCaps(e.slots));
               && r == From(e, entry, s)
               && Pure(g, if r.MatchAt? then Cleared(o.marks, s, r.end) else o.marks)
  {
    var g, n := FallbackGraph(e, chain), At(entry, s);
    FallbackIsReference(e, p, chain, n, NoCaps(e.slots));
    FromIs(e, entry, s);
    SearchIsBest(g, n, marks, {});
    if Search(g, n, marks).found.Found? {
      ClearedIsPure(e, g, n, marks);
    }
  }

  lemma NoMatchIsDead(e: Env, p: DispatchKeeps.Proof, chain: seq<nat>, entry: nat, s: nat)
    requires Finding(e, entry) && DispatchKeeps.PlanOk(e.prog, e.plan, p) && ChainRanked(e.prog, chain) && s <= |e.text|
    ensures FallbackGraph(e, chain).Valid() && At(entry, s) in FallbackGraph(e, chain).succ
    ensures From(e, entry, s).NoMatch? <==> Dead(FallbackGraph(e, chain), At(entry, s), {})
  {
    FallbackIsReference(e, p, chain, At(entry, s), NoCaps(e.slots));
    FromIs(e, entry, s);
    BestFindsOrDead(FallbackGraph(e, chain), At(entry, s), {});
  }

  // An attempt that ran out of stack leaves pure marks exactly when there was no match to find.
  lemma GaveUpIsPure(e: Env, p: DispatchKeeps.Proof, chain: seq<nat>, entry: nat, s: nat, frames: nat,
                     marks0: set<Node>, run: seq<Machine>, last: Machine)
    requires Finding(e, entry) && DispatchKeeps.PlanOk(e.prog, e.plan, p) && ChainRanked(e.prog, chain) && s <= |e.text|
    requires Pure(FallbackGraph(e, chain), marks0)
    requires RunsTo(e, true, frames, Machine(entry, s, NoCaps(e.slots), [], marks0), run, last)
    requires Overflows(e, true, frames, last)
    ensures Pure(FallbackGraph(e, chain), Abandoned(true, last)) <==> From(e, entry, s).NoMatch?
  {
    FallbackWalks(e, chain);
    NoMatchIsDead(e, p, chain, entry, s);
    AbandonedExactly(e, FallbackGraph(e, chain), frames, Machine(entry, s, NoCaps(e.slots), [], marks0), run, last);
  }

  // ---- The attempts of one call ----

  lemma NoneMore(e: Env, entry: nat, from: nat, s: nat, starts: set<nat>)
    requires Finding(e, entry) && s <= |e.text| && NoneIn(e, entry, from, s, starts)
    requires s in starts ==> From(e, entry, s).NoMatch?
    ensures NoneIn(e, entry, from, s + 1, starts)
  {
  }

  // One attempt of the fallback, on the marks of those before it.
  method FallbackAttempt(e: Env, entry: nat, s: nat, marks0: set<Node>, frames: nat, ghost p: DispatchKeeps.Proof,
                         ghost chain: seq<nat>)
    returns (v: Verdict, marks: set<Node>)
    requires Finding(e, entry) && DispatchKeeps.PlanOk(e.prog, e.plan, p) && ChainRanked(e.prog, chain) && s <= |e.text|
    requires Pure(FallbackGraph(e, chain), marks0)
    ensures v.Answer? || (v.Unknown? && frames < DepthBound(e))
    ensures v.Answer? ==> v.result == From(e, entry, s) && marks0 <= marks
    ensures v.Answer? ==>
              FallbackGraph(e, chain).Valid() && At(entry, s) in FallbackGraph(e, chain).succ &&
              marks == Search(FallbackGraph(e, chain), At(entry, s), marks0).marks
    ensures v.Answer? && v.result.NoMatch? ==> Pure(FallbackGraph(e, chain), marks)
    ensures v.Answer? && v.result.MatchAt? ==> Pure(FallbackGraph(e, chain), Cleared(marks, s, v.result.end))
    ensures v.Unknown? ==> (Pure(FallbackGraph(e, chain), marks) <==> From(e, entry, s).NoMatch?)
  {
    AttemptMeans(e, p, chain, entry, s, marks0);
    var left;
    ghost var run, last;
    v, marks, left, run, last := Body(e, true, 0, frames, At(entry, s), NoCaps(e.slots), marks0,
    FallbackGraph(e, chain));
    if DepthBound(e) <= frames {
      FallbackFits(e, frames, run);
    }
    if v.Unknown? {
      GaveUpIsPure(e, p, chain, entry, s, frames, marks0, run, last);
    }
  }

  // The marks the attempts before s leave, each on those of the one before it.
  ghost function MarkedTo(e: Env, chain: seq<nat>, entry: nat, from: nat, s: nat, cands: set<nat>, marks0: set<Node>)
    : set<Node>
    requires Finding(e, entry) && ChainRanked(e.prog, chain) && from <= s <= |e.text| + 1
    decreases s
  {
    if s == from then marks0
    else
      var before := MarkedTo(e, chain, entry, from, s - 1, cands, marks0);
      FallbackWalks(e, chain);
      if s - 1 in cands then Search(FallbackGraph(e, chain), At(entry, s - 1), before).marks else before
  }

  // The attempts of one call from rising starts, sharing one set of marks; keep says the marks outlive the call.
  // at is the start whose attempt ran out of stack, if one did.
  method FallbackAttempts(e: Env, entry: nat, from: nat, cands: set<nat>, marks0: set<Node>, keep: bool, frames: nat,
                          ghost p: DispatchKeeps.Proof, ghost chain: seq<nat>)
    returns (a: Answer, marks: set<Node>, ghost at: nat)
    requires Finding(e, entry) && DispatchKeeps.PlanOk(e.prog, e.plan, p) && ChainRanked(e.prog, chain)
    requires from <= |e.text| + 1 && Pure(FallbackGraph(e, chain), marks0)
    ensures a.GaveUp? ==>
              && frames < DepthBound(e) && from <= at <= |e.text| && at in cands && NoneIn(e, entry, from, at, cands)
              && (Pure(FallbackGraph(e, chain), marks) <==> From(e, entry, at).NoMatch?)
    ensures !a.GaveUp? ==> IsFirst(e, entry, from, cands, a) && (keep ==> Pure(FallbackGraph(e, chain), marks))
    ensures a.Nowhere? ==> marks0 <= marks == MarkedTo(e, chain, entry, from, |e.text| + 1, cands, marks0)
    ensures a.Spans? ==>
              var all := MarkedTo(e, chain, entry, from, a.start + 1, cands, marks0);
              marks0 <= all && marks == if keep then Cleared(all, a.start, a.end) else all
  {
    marks, at := marks0, from;
    for s := from to |e.text| + 1
      invariant NoneIn(e, entry, from, s, cands) && Pure(FallbackGraph(e, chain), marks) && marks0 <= marks
      invariant marks == MarkedTo(e, chain, entry, from, s, cands, marks0)
    {
      if s in cands {
        var v, after := FallbackAttempt(e, entry, s, marks, frames, p, chain);
        if !v.Answer? {
          return GaveUp, after, s;
        }
        if v.result.MatchAt? {
          marks := if keep then Cleared(after, s, v.result.end) else after;
          return Spans(s, v.result.end), marks, at;
        }
        marks := after;
      }
      NoneMore(e, entry, from, s, cands);
    }
    a := Nowhere;
  }

  // One attempt of the ordinary body, on what is left of the budget.
  method OrdinaryAttempt(e: Env, entry: nat, s: nat, budget: int, frames: nat, ghost p: DispatchKeeps.Proof,
                         ghost zero: seq<nat>)
    returns (v: Verdict, left: int, ghost run: seq<Machine>, ghost last: Machine)
    requires Finding(e, entry) && DispatchKeeps.PlanOk(e.prog, e.plan, p) && ZeroRanked(e.prog, NO_PLAN, zero)
    requires s <= |e.text|
    requires budget > 0
    ensures Ran(e, false, budget, frames, At(entry, s), NoCaps(e.slots), run, last, v)
    ensures v.Tripped? || (v.Answer? && v.result == From(e, entry, s) &&
            0 < left == budget - Charged(e, false, run) <= budget)
    ensures v.Tripped? && DepthBound(e) <= frames ==> budget <= Charged(e, false, run) + ChargeAt(e, last)
  {
    OrdinaryIsReference(e, p, zero, At(entry, s), NoCaps(e.slots));
    FromIs(e, entry, s);
    var marks;
    v, marks, left, run, last := Body(e, false, budget, frames, At(entry, s), NoCaps(e.slots), {},
    OrdinaryGraph(e, zero));
    ChargesAdd(e, run);
    if DepthBound(e) <= frames {
      OrdinaryFits(e, zero, frames, run);
    }
  }

  // An attempt that answered, and its run.
  datatype Attempt = Attempt(start: nat, run: seq<Machine>, last: Machine, result: Result)

  ghost function Cost(e: Env, tries: seq<Attempt>): int
    requires e.Valid()
  {
    if tries == [] then 0
    else
      var t := tries[|tries| - 1];
      Cost(e, tries[..|tries| - 1]) + if IsRun(e, false, t.run) then Charged(e, false, t.run) else 0
  }

  // One attempt from each candidate before s, in order, each on what those before it left of the budget.
  ghost predicate Shared(e: Env, entry: nat, budget: int, frames: nat, from: nat, s: nat, cands: set<nat>,
                         tries: seq<Attempt>)
    requires e.Valid()
    decreases |tries|
  {
    if tries == [] then forall c :: from <= c < s ==> c !in cands
    else
      var init, t := tries[..|tries| - 1], tries[|tries| - 1];
      && from <= t.start < s && t.start in cands && (forall c :: t.start < c < s ==> c !in cands)
      && Shared(e, entry, budget, frames, from, t.start, cands, init)
      && budget - Cost(e, init) > 0
      && Ran(e, false, budget - Cost(e, init), frames, At(entry, t.start), NoCaps(e.slots), t.run, t.last,
             Answer(t.result))
  }

  lemma SharedOn(e: Env, entry: nat, budget: int, frames: nat, from: nat, s: nat, cands: set<nat>, tries: seq<Attempt>,
                 t: Attempt)
    requires e.Valid() && Shared(e, entry, budget, frames, from, s, cands, tries) && from <= s && s in cands
    requires t.start == s
    requires budget - Cost(e, tries) > 0
    requires Ran(e, false, budget - Cost(e, tries), frames, At(entry, s), NoCaps(e.slots), t.run, t.last,
                 Answer(t.result))
    ensures Shared(e, entry, budget, frames, from, s + 1, cands, tries + [t])
    ensures Cost(e, tries + [t]) == Cost(e, tries) + Charged(e, false, t.run)
  {
    assert (tries + [t])[..|tries|] == tries;
  }

  // Where the attempts of a call ended.
  function Stop(a: Answer, at: nat, n: nat): nat {
    match a
    case GaveUp => at
    case Spans(s, _) => s + 1
    case Nowhere => n + 1
  }

  // The ordinary body's attempts, sharing one budget. A trip, at the start it happened, leaves the call to the
  // fallback.
  method OrdinaryAttempts(e: Env, entry: nat, from: nat, cands: set<nat>, budget: int, frames: nat,
                          ghost p: DispatchKeeps.Proof, ghost zero: seq<nat>)
    returns (tripped: bool, a: Answer, left: int, ghost at: nat, ghost run: seq<Machine>, ghost last: Machine,
             ghost tries: seq<Attempt>)
    requires Finding(e, entry) && DispatchKeeps.PlanOk(e.prog, e.plan, p) && ZeroRanked(e.prog, NO_PLAN, zero)
    requires from <= |e.text| + 1 && budget > 0
    ensures 0 < left == budget - Cost(e, tries) <= budget && (tripped <==> a.GaveUp?)
    ensures !tripped ==> IsFirst(e, entry, from, cands, a)
    ensures tripped ==>
              && from <= at <= |e.text| && at in cands && NoneIn(e, entry, from, at, cands)
              && Ran(e, false, left, frames, At(entry, at), NoCaps(e.slots), run, last, Tripped)
    ensures Shared(e, entry, budget, frames, from, Stop(a, at, |e.text|), cands, tries)
  {
    left, tripped, at, run, last, tries := budget, false, from, [], Machine(-1, 0, [], [], {}), [];
    for s := from to |e.text| + 1
      invariant NoneIn(e, entry, from, s, cands) && 0 < left == budget - Cost(e, tries) <= budget
      invariant Shared(e, entry, budget, frames, from, s, cands, tries)
    {
      if s in cands {
        var v, rest;
        v, rest, run, last := OrdinaryAttempt(e, entry, s, left, frames, p, zero);
        at := s;
        if v.Tripped? {
          return true, GaveUp, left, at, run, last, tries;
        }
        SharedOn(e, entry, budget, frames, from, s, cands, tries, Attempt(s, run, last, v.result));
        left, tries := rest, tries + [Attempt(s, run, last, v.result)];
        if v.result.MatchAt? {
          return false, Spans(s, v.result.end), left, at, run, last, tries;
        }
      } else {
        NotTried(e, entry, budget, frames, from, s, cands, tries);
      }
      NoneMore(e, entry, from, s, cands);
    }
    a := Nowhere;
  }

  lemma NotTried(e: Env, entry: nat, budget: int, frames: nat, from: nat, s: nat, cands: set<nat>, tries: seq<Attempt>)
    requires e.Valid() && Shared(e, entry, budget, frames, from, s, cands, tries) && s !in cands
    ensures Shared(e, entry, budget, frames, from, s + 1, cands, tries)
  {
  }

  lemma {:induction false} ChargesAdd(e: Env, run: seq<Machine>)
    requires e.Valid() && IsRun(e, false, run)
    ensures Charged(e, false, run) >= 0
  {
    if |run| > 1 {
      ChargesAdd(e, run[..|run| - 1]);
    }
  }

  // ---- Giving up where there was a match ----

  // The compiled `a??b??`, on an empty text.
  function BothSkipped(): Env {
    Env([Fail, Rune1(4, 97, false), Alt(4, 1), Rune1(5, 98, false), Alt(5, 3), Match], NO_PLAN, 0, [], 0, 0, false)
  }

  // The body's first machine, and the one about to overflow: both forks passed, one marked, one frame stacked.
  const SKIP_START := Machine(2, 0, [], [], {})
  const SKIP_LAST := Machine(4, 0, [], [Frame(At(1, 0), [])], {At(2, 0)})
  const SKIP_CHAIN := [0, 1, 0, 1, 0, 0]

  // With room for one frame the second fork overflows. The first is marked, and the match is found through it: a later
  // search on these marks finds nothing.
  lemma AbandonedMarks()
    ensures var e := BothSkipped();
            && Finding(e, 2) && ChainRanked(e.prog, SKIP_CHAIN) && From(e, 2, 0) == MatchAt(0, [])
            && RunsTo(e, true, 1, SKIP_START, [SKIP_START, SKIP_LAST], SKIP_LAST) && InState(e, SKIP_LAST)
            && Overflows(e, true, 1, SKIP_LAST)
    ensures var g, n, marks := FallbackGraph(BothSkipped(), SKIP_CHAIN), At(2, 0), Abandoned(true, SKIP_LAST);
            && g.Valid() && n in g.succ && !Pure(g, marks)
            && Search(g, n, {}).found.Found? && Search(g, n, marks).found.NotFound?
  {
    SkipValid();
    SkipSteps();
    SkipRuns();
    SkipMatches();
    SkipHides();
  }

  lemma SkipValid()
    ensures Finding(BothSkipped(), 2) && ChainRanked(BothSkipped().prog, SKIP_CHAIN)
  {
  }

  lemma SkipHides()
    ensures var g, n, marks := FallbackGraph(BothSkipped(), SKIP_CHAIN), At(2, 0), Abandoned(true, SKIP_LAST);
            && g.Valid() && n in g.succ && !Pure(g, marks)
            && Search(g, n, {}).found.Found? && Search(g, n, marks).found.NotFound?
  {
    SkipValid();
    var g := FallbackGraph(BothSkipped(), SKIP_CHAIN);
    FallbackWalks(BothSkipped(), SKIP_CHAIN);
    SkipLeads(g);
    MarkHides(g, At(2, 0), Abandoned(true, SKIP_LAST));
  }

  lemma SkipMatches()
    ensures Finding(BothSkipped(), 2) && From(BothSkipped(), 2, 0) == MatchAt(0, [])
  {
    SkipValid();
    var e, one, two := BothSkipped(), {At(2, 0)}, {At(2, 0)} + {At(4, 0)};
    assert Plain(e) == e && {} + one == one;
    assert Visit(e, 5, 0, [], two) == MatchAt(0, []);
    assert Visit(e, 4, 0, [], one) == MatchAt(0, []);
    assert Visit(e, 2, 0, [], {}) == MatchAt(0, []);
  }

  // A mark on a state that leads to a match hides the match.
  lemma MarkHides(g: Graph<Node>, n: Node, marks: set<Node>)
    requires g.Valid() && n in g.succ && n in g.guarded && n in marks && !Dead(g, n, {})
    ensures !Pure(g, marks) && Search(g, n, {}).found.Found? && Search(g, n, marks).found.NotFound?
  {
    BestFindsOrDead(g, n, {});
    SearchIsBest(g, n, {}, {});
  }

  lemma SkipLeads(g: Graph<Node>)
    requires Walks(BothSkipped(), g)
    ensures At(2, 0) in g.succ && !Dead(g, At(2, 0), {})
  {
    var e := BothSkipped();
    assert e.Succ(At(2, 0))[0] == At(4, 0) && e.Succ(At(4, 0))[0] == At(5, 0);
    assert e.Live(At(2, 0)) && e.Live(At(4, 0)) && e.Accepts(At(5, 0));
    assert Leads(g, At(5, 0), [], {});
    assert Leads(g, At(4, 0), [0], {});
    assert [0, 0][1..] == [0] && Leads(g, At(2, 0), [0, 0], {});
  }

  lemma SkipSteps()
    ensures var e := BothSkipped();
            && e.Valid() && InState(e, SKIP_START) && InState(e, SKIP_LAST)
            && Goes(e, true, SKIP_START, SKIP_LAST) && Overflows(e, true, 1, SKIP_LAST)
  {
    SkipValid();
    var e := BothSkipped();
    assert e.Succ(At(2, 0)) == [At(4, 0), At(1, 0)] && e.Succ(At(4, 0)) == [At(5, 0), At(3, 0)];
    assert Pushed([At(4, 0), At(1, 0)], 1, [], []) == [Frame(At(1, 0), [])];
    assert |StepTo(e, true, SKIP_LAST).stack| == 2;
  }

  lemma SkipRuns()
    ensures var e := BothSkipped();
            e.Valid() && RunsTo(e, true, 1, SKIP_START, [SKIP_START, SKIP_LAST], SKIP_LAST)
  {
    SkipSteps();
    var e := BothSkipped();
    assert RunsTo(e, true, 1, SKIP_START, [SKIP_START], SKIP_START);
    RunExtends(e, true, 1, SKIP_START, [SKIP_START], SKIP_START, SKIP_LAST);
    assert [SKIP_START] + [SKIP_LAST] == [SKIP_START, SKIP_LAST];
  }

  // ---- The search block ----

  // What a find of the program as compiled owes on a text: a match may end anywhere in it.
  ghost predicate FindsFirst(prog: Prog, slots: nat, text: Text, entry: nat, from: nat, starts: set<nat>, a: Answer)
    requires ValidProg(prog, slots) && entry < |prog|
  {
    IsFirst(Env(prog, NO_PLAN, slots, text, 0, |text|, false), entry, from, starts, a)
  }

  lemma PlanAside(e: Env, entry: nat, from: nat, starts: set<nat>, a: Answer)
    requires Finding(e, entry) && !e.whole && IsFirst(e, entry, from, starts, a)
    ensures FindsFirst(e.prog, e.slots, e.text, entry, from, starts, a)
  {
    var d := Env(e.prog, NO_PLAN, e.slots, e.text, 0, |e.text|, false);
    forall s | 0 <= s <= |e.text| ensures From(d, entry, s) == From(e, entry, s) {
      assert Plain(d) == Plain(e);
    }
  }

  // A memo serves a text when it holds a row for each of its positions and its end.
  lemma CoversEveryRow(b: SearchBlock, text: Text)
    ensures b.Covers(text) <==> b.memoBytes > 0 && forall p: nat :: p <= |text| ==> RowFits(b.memoBytes, b.rowBytes, p)
  {
    var n := |text|;
    assert (n + 1) * b.rowBytes == n * b.rowBytes + b.rowBytes;
    assert RowFits(b.memoBytes, b.rowBytes, n) <==> b.memoBytes >= (n + 1) * b.rowBytes;
    forall p: nat | p <= n ensures RowFits(b.memoBytes, b.rowBytes, n) ==> RowFits(b.memoBytes, b.rowBytes, p) {
      Times(p, n, b.rowBytes);
    }
  }

  predicate RowFits(bytes: nat, row: nat, p: nat) {
    p * row + row <= bytes
  }

  datatype Phase = New | Live | HasTripped

  // Where and how a call's ordinary body tripped, if it did.
  datatype Trip = NoTrip | TripAt(start: nat, left: nat, run: seq<Machine>, last: Machine)

  class SearchBlock {
    const prog: Prog
    const plan: Plan
    const slots: nat
    const entry: nat
    const forced: bool        // a zero-width cycle: no ordinary body
    const perByte: nat        // k·N
    const rowBytes: nat
    ghost const p: DispatchKeeps.Proof
    ghost const chain: seq<nat>
    ghost const zero: seq<nat>

    var state: Phase
    var budget: int
    var memoBytes: nat        // the search's memo, 0 while it has none
    var textPtr: nat          // the text its marks were made on
    var textLen: nat          // that text's length + 1, 0 while none is recorded
    var marks: set<Node>
    ghost var about: Text
    ghost var granted: int    // the budget the search began with

    function EnvOf(text: Text): Env {
      Env(prog, plan, slots, text, 0, |text|, false)
    }

    ghost predicate Fixed() {
      && ValidProg(prog, slots) && DispatchKeeps.PlanOk(prog, plan, p) && ChainRanked(prog, chain)
      && entry < |prog| && entry !in plan.dead && (!forced ==> ZeroRanked(prog, NO_PLAN, zero)) && perByte > 0
      && rowBytes > 0
    }

    ghost predicate Valid()
      reads this
    {
      && Fixed()
      && (state.Live? ==> 0 < budget <= granted)
      && (textLen == 0 ==> marks == {})
      && (textLen != 0 ==> textLen == |about| + 1 && Pure(FallbackGraph(EnvOf(about), chain), marks))
    }

    constructor (prog: Prog, plan: Plan, slots: nat, entry: nat, forced: bool, perByte: nat, rowBytes: nat,
                 ghost p: DispatchKeeps.Proof, ghost chain: seq<nat>, ghost zero: seq<nat>)
      requires ValidProg(prog, slots) && DispatchKeeps.PlanOk(prog, plan, p) && ChainRanked(prog, chain)
      requires entry < |prog| && entry !in plan.dead && (!forced ==> ZeroRanked(prog, NO_PLAN, zero)) &&
               perByte > 0 && rowBytes > 0
      ensures Valid() && state == New && marks == {} && this.prog == prog && this.plan == plan
      ensures this.entry == entry && this.slots == slots
    {
      this.prog, this.plan, this.slots, this.entry, this.forced := prog, plan, slots, entry, forced;
      this.perByte, this.rowBytes, this.p, this.chain, this.zero := perByte, rowBytes, p, chain, zero;
      state, budget, memoBytes, textPtr, textLen, marks, about, granted := New, 0, 0, 0, 0, {}, [], 0;
    }

    // Once a search has tripped its caller gives it a zeroed memo.
    method GiveMemo(bytes: nat)
      requires Valid() && memoBytes == 0 && textLen == 0
      modifies this`memoBytes
      ensures Valid() && memoBytes == bytes
    {
      memoBytes := bytes;
    }

    // The search's memo has a row for every position of the text.
    predicate Covers(text: Text)
      reads this`memoBytes
    {
      memoBytes > 0 && memoBytes >= (|text| + 1) * rowBytes
    }

    // emitFallbackPlace: the search's memo when it covers this text, its marks dropped when they are another's.
    method Place(ptr: nat, text: Text) returns (kept: bool)
      requires Valid() && (textLen == |text| + 1 && textPtr == ptr ==> about == text)
      modifies this`textPtr, this`textLen, this`marks, this`about
      ensures Valid() && kept == Covers(text)
      ensures if kept then textLen == |text| + 1 && textPtr == ptr && about == text
              else textLen == old(textLen) && textPtr == old(textPtr) && about == old(about)
      ensures marks == if !kept || (old(textLen) == |text| + 1 && old(textPtr) == ptr) then old(marks) else {}
    {
      kept := Covers(text);
      if kept && (textPtr != ptr || textLen != |text| + 1) {
        if textLen != 0 {
          marks := {};
        }
        textPtr, textLen, about := ptr, |text| + 1, text;
      }
    }

    // No attempt before this start's matched, and this start's ran out of stack.
    ghost predicate GaveUpAt(text: Text, from: nat, cands: set<nat>, at: nat)
      requires Fixed()
    {
      from <= at <= |text| && at in cands && NoneIn(EnvOf(text), entry, from, at, cands)
    }

    // The marks a call on this text starts from: those made on it, and no others.
    ghost function Served(ptr: nat, text: Text): set<Node>
      reads this`textPtr, this`textLen, this`marks
    {
      if textLen == |text| + 1 && textPtr == ptr then marks else {}
    }

    // A block whose memo was in use when the stack ran out keeps its invariant exactly when that start has no match.
    method FallbackFind(ptr: nat, text: Text, from: nat, cands: set<nat>, frames: nat)
      returns (a: Answer, ghost at: nat)
      requires Valid() && from <= |text| + 1 && (textLen == |text| + 1 && textPtr == ptr ==> about == text)
      modifies this`textPtr, this`textLen, this`marks, this`about
      ensures a.GaveUp? ==> frames < DepthBound(EnvOf(text)) && GaveUpAt(text, from, cands, at)
      ensures a.GaveUp? ==> (Valid() <==> !Covers(text) || From(EnvOf(text), entry, at).NoMatch?)
      ensures !a.GaveUp? ==> Valid() && IsFirst(EnvOf(text), entry, from, cands, a)
      ensures Covers(text) && !a.GaveUp? ==>
                var all :=
                  MarkedTo(EnvOf(text), chain, entry, from, Stop(a, at, |text|), cands, old(Served(ptr, text)));
                marks == if a.Spans? then Cleared(all, a.start, a.end) else all
      ensures !Covers(text) ==>
                marks == old(marks) && textLen == old(textLen) && textPtr == old(textPtr) && about == old(about)
      ensures old(textLen) == |text| + 1 && old(textPtr) == ptr && a.Nowhere? ==> old(marks) <= marks
      ensures old(textLen) == |text| + 1 && old(textPtr) == ptr && a.Spans? ==>
                Cleared(old(marks), a.start, a.end) <= marks
    {
      var kept := Place(ptr, text);
      var e := EnvOf(text);
      FallbackWalks(e, chain);
      var after;
      a, after, at := FallbackAttempts(e, entry, from, cands, if kept then marks else {}, kept, frames, p, chain);
      if kept {
        marks := after;
      }
    }

    // The budget of the search, begun by its first call and carried from call to call.
    method Begin(text: Text)
      requires Valid() && !state.HasTripped?
      modifies this`state, this`budget, this`granted
      ensures Valid() && state.Live?
      ensures old(state).Live? ==> budget == old(budget) && granted == old(granted)
      ensures old(state).New? ==> budget == granted == (|text| + 1) * perByte
    {
      if state.New? {
        budget := (|text| + 1) * perByte;
        granted := budget;
        state := Live;
      }
    }

    // The ordinary body gave up at one of the starts, its budget spent or its stack full.
    ghost predicate Trips(e: Env, from: nat, cands: set<nat>, frames: nat, t: Trip)
      requires e.Valid() && t.TripAt?
    {
      && from <= t.start <= |e.text| && t.start in cands && 0 < t.left
      && Ran(e, false, t.left, frames, At(entry, t.start), NoCaps(e.slots), t.run, t.last, Tripped)
    }

    // The attempts of a call that answered are paid for, in order, from what the budget was; what is left is kept for
    // the next call, or is what the attempt that tripped ran on.
    ghost predicate Paid(e: Env, from: nat, cands: set<nat>, frames: nat, a: Answer, trip: Trip, tries: seq<Attempt>,
                         was: int, left: int)
      requires e.Valid()
    {
      && Shared(e, entry, was, frames, from, Stop(a, if trip.TripAt? then trip.start else 0, |e.text|), cands, tries)
      && was - Cost(e, tries) == if trip.TripAt? then trip.left else left
    }

    // One find call of the search. cands are the starts the scan stops at; it may skip only starts that cannot match.
    method Find(ptr: nat, text: Text, from: nat, cands: set<nat>, frames: nat, ghost starts: set<nat>)
      returns (a: Answer, ghost trip: Trip, ghost tries: seq<Attempt>, ghost at: nat)
      requires Valid() && (textLen == |text| + 1 && textPtr == ptr ==> about == text)
      requires cands <= starts && NoneIn(EnvOf(text), entry, 0, |text| + 1, starts - cands)
      modifies this
      ensures a.GaveUp? ==> frames < DepthBound(EnvOf(text)) && GaveUpAt(text, from, cands, at)
      ensures a.GaveUp? ==> (Valid() <==> !Covers(text) || From(EnvOf(text), entry, at).NoMatch?)
      ensures !a.GaveUp? ==> Valid() && FindsFirst(prog, slots, text, entry, from, starts, a)
      ensures old(state).HasTripped? ==> state.HasTripped?
      ensures !forced && !old(state).HasTripped? && state.HasTripped? ==>
                trip.TripAt? && Trips(EnvOf(text), from, cands, frames, trip)
      ensures old(state).Live? && state.Live? ==> granted == old(granted) && budget <= old(budget)
      ensures !forced && !old(state).HasTripped? && from <= |text| ==>
                Paid(EnvOf(text), from, cands, frames, if trip.TripAt? then GaveUp else a, trip, tries,
                     if old(state).Live? then old(budget) else (|text| + 1) * perByte, budget)
    {
      trip, tries, at := NoTrip, [], from;
      if from > |text| {
        return Nowhere, trip, tries, at;
      }
      if !forced && !state.HasTripped? {
        a, trip, tries := TryOrdinary(text, from, cands, frames);
        if !a.GaveUp? {
          PlanAside(EnvOf(text), entry, from, starts, a);
          return;
        }
      }
      a, at := HandOver(ptr, text, from, cands, frames, starts);
      if !a.GaveUp? {
        PlanAside(EnvOf(text), entry, from, starts, a);
      }
    }

    // The fallback takes the call, and every later one.
    method HandOver(ptr: nat, text: Text, from: nat, cands: set<nat>, frames: nat, ghost starts: set<nat>)
      returns (a: Answer, ghost at: nat)
      requires Valid() && from <= |text| && (textLen == |text| + 1 && textPtr == ptr ==> about == text)
      requires cands <= starts && NoneIn(EnvOf(text), entry, 0, |text| + 1, starts - cands)
      modifies this`state, this`textPtr, this`textLen, this`marks, this`about
      ensures state.HasTripped?
      ensures a.GaveUp? ==> frames < DepthBound(EnvOf(text)) && GaveUpAt(text, from, cands, at)
      ensures a.GaveUp? ==> (Valid() <==> !Covers(text) || From(EnvOf(text), entry, at).NoMatch?)
      ensures !a.GaveUp? ==> Valid() && IsFirst(EnvOf(text), entry, from, starts, a)
    {
      state := HasTripped;
      a, at := FallbackFind(ptr, text, from, cands, frames);
    }

    // The ordinary body's attempts of one call, on what is left of the search's budget.
    method TryOrdinary(text: Text, from: nat, cands: set<nat>, frames: nat)
      returns (a: Answer, ghost trip: Trip, ghost tries: seq<Attempt>)
      requires Valid() && !forced && !state.HasTripped? && from <= |text|
      modifies this`state, this`budget, this`granted
      ensures Valid() && state.Live?
      ensures trip.NoTrip? ==> !a.GaveUp? && IsFirst(EnvOf(text), entry, from, cands, a)
      ensures trip.TripAt? ==> a.GaveUp? && Trips(EnvOf(text), from, cands, frames, trip)
      ensures old(state).Live? ==> granted == old(granted) && budget <= old(budget)
      ensures Paid(EnvOf(text), from, cands, frames, a, trip, tries,
                   if old(state).Live? then old(budget) else (|text| + 1) * perByte, budget)
    {
      var e := EnvOf(text);
      Begin(text);
      var tripped, left;
      ghost var at, run, last;
      tripped, a, left, at, run, last, tries := OrdinaryAttempts(e, entry, from, cands, budget, frames, p, zero);
      if tripped {
        trip := TripAt(at, left, run, last);
        a := GaveUp;
      } else {
        trip := NoTrip;
        budget := left;
      }
    }
  }
}
