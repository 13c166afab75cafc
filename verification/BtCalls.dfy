/** Whole backtracking calls: dispatch, ordinary body, trip and fallback together give the leftmost-first answer. */
module BtCalls {
  import opened PrioritySearch
  import opened BtProgram
  import opened BtMachine
  import opened WorkBudget
  import opened BtSpec
  import opened ZeroWidth
  import opened FallbackCost
  import opened ChainWalk
  import opened Textbook
  import DispatchKeeps
  import DispatchBuild

  lemma OrdinaryIsReference(e: Env, p: DispatchKeeps.Proof, zero: seq<nat>, start: Node, caps: seq<int>)
    requires e.Valid() && DispatchKeeps.PlanOk(e.prog, e.plan, p) && ZeroRanked(e.prog, NO_PLAN, zero)
    requires e.Live(start) && |caps| == e.slots
    ensures ZeroRanked(e.prog, e.plan, zero) && Walks(e, OrdinaryGraph(e, zero))
    ensures ResultOf(e, OrdinaryGraph(e, zero), start, Search(OrdinaryGraph(e, zero), start, {}).found, caps)
            == Reference(e, start, caps)
  {
    DispatchKeeps.DispatchedRank(e.prog, e.plan, p, zero);
    OrdinaryWalks(e, zero);
    PlainValid(e);
    UndispatchedOrdinary(Plain(e), zero, start, caps);
    DispatchKeeps.DispatchSameResult(e, OrdinaryGraph(e, zero), OrdinaryGraph(Plain(e), zero), p, false, start, caps);
    SearchIsBest(OrdinaryGraph(e, zero), start, {}, {});
    assert Plain(Plain(e)) == Plain(e);
  }

  lemma FallbackIsReference(e: Env, p: DispatchKeeps.Proof, chain: seq<nat>, start: Node, caps: seq<int>)
    requires e.Valid() && DispatchKeeps.PlanOk(e.prog, e.plan, p) && ChainRanked(e.prog, chain) && e.Live(start)
    requires |caps| == e.slots
    ensures Walks(e, FallbackGraph(e, chain)) && FallbackGraph(e, chain).guarded == AltStates(e)
    ensures ResultOf(e, FallbackGraph(e, chain), start, Best(FallbackGraph(e, chain), start, {}), caps)
            == Reference(e, start, caps)
  {
    FallbackWalks(e, chain);
    PlainValid(e);
    FallbackWalks(Plain(e), chain);
    UndispatchedFallback(Plain(e), chain, start, caps);
    DispatchKeeps.DispatchSameResult(e, FallbackGraph(e, chain), FallbackGraph(Plain(e), chain), p, true, start, caps);
    assert Plain(Plain(e)) == Plain(e);
  }

  // ---- One body ----

  // A body's run from a call's start, on an empty memo, and the verdict it ended with.
  ghost predicate Ran(e: Env, fallback: bool, budget: nat, frames: nat, start: Node, caps: seq<int>,
                      run: seq<Machine>, last: Machine,
                      v: Verdict)
    requires e.Valid()
  {
    && RunsTo(e, fallback, frames, Machine(start.pc, start.pos, caps, [], {}), run, last)
    && Ends(e, fallback, budget, frames, Charged(e, fallback, run), last, v)
  }

  method OrdinaryCall(e: Env, budget: nat, frames: nat, start: Node, caps: seq<int>,
                      ghost p: DispatchKeeps.Proof, ghost zero: seq<nat>, ghost chain: seq<nat>)
    returns (v: Verdict, ghost run: seq<Machine>, ghost last: Machine)
    requires e.Valid() && DispatchKeeps.PlanOk(e.prog, e.plan, p) && ZeroRanked(e.prog, NO_PLAN, zero)
    requires ChainRanked(e.prog, chain)
    requires e.Live(start) && |caps| == e.slots && TotalWeight(e.prog, e.plan, |e.prog|) <= |e.prog|
    ensures v.Answer? ==> v.result == Reference(e, start, caps)
    ensures Ran(e, false, budget, frames, start, caps, run, last, v)
    ensures Affordable(|e.prog|, e.limit - e.first, run, budget)
    ensures DepthBound(e) <= frames ==>
              v.Answer? || (v.Tripped? && 0 < budget <= Charged(e, false, run) + ChargeAt(e, last))
  {
    OrdinaryIsReference(e, p, zero, start, caps);
    var marks, left;
    v, marks, left, run, last := Body(e, false, budget, frames, start, caps, {}, OrdinaryGraph(e, zero));
    if budget > 0 {
      RunCost(e, zero, chain, run, budget);
    }
    if DepthBound(e) <= frames {
      OrdinaryFits(e, zero, frames, run);
    }
  }

  // The memoised body never trips, and gives up only for want of stack.
  method FallbackCall(e: Env, frames: nat, start: Node, caps: seq<int>, ghost p: DispatchKeeps.Proof,
                      ghost chain: seq<nat>)
    returns (v: Verdict, ghost run: seq<Machine>, ghost last: Machine)
    requires e.Valid() && DispatchKeeps.PlanOk(e.prog, e.plan, p) && ChainRanked(e.prog, chain) && e.Live(start)
    requires |caps| == e.slots
    ensures v.Answer? ==> v.result == Reference(e, start, caps)
    ensures v.Answer? || (v.Unknown? && frames < DepthBound(e))
    ensures Ran(e, true, 0, frames, start, caps, run, last, v)
    ensures Pops(run) <= DepthBound(e) && Steps(run) <= |e.prog| * (3 * DepthBound(e) + 2)
  {
    FallbackIsReference(e, p, chain, start, caps);
    SearchIsBest(FallbackGraph(e, chain), start, {}, {});
    var marks, left;
    v, marks, left, run, last := Body(e, true, 0, frames, start, caps, {}, FallbackGraph(e, chain));
    FallbackCallCost(e, chain, run);
    if DepthBound(e) <= frames {
      FallbackFits(e, frames, run);
    }
  }

  // ---- Costs, by the size of the program and the span of the window ----

  function MostFrames(size: nat, span: nat): nat {
    (span + 1) * size
  }

  function MostSteps(size: nat, span: nat, budget: nat): nat {
    size * (2 * budget + MostFrames(size, span))
  }

  function MostFallbackSteps(size: nat, span: nat): nat {
    size * (3 * MostFrames(size, span) + 2)
  }

  // A budgeted run's pops, frames and executed instructions, all linear in the window.
  ghost predicate Affordable(size: nat, span: nat, run: seq<Machine>, budget: nat) {
    run != [] && budget > 0 ==>
      && Pops(run) < budget && |run[|run| - 1].stack| <= MostFrames(size, span)
      && Steps(run) <= MostSteps(size, span, budget)
  }

  lemma RunCost(e: Env, zero: seq<nat>, chain: seq<nat>, run: seq<Machine>, budget: nat)
    requires e.Valid() && ZeroRanked(e.prog, e.plan, zero) && ChainRanked(e.prog, chain)
    requires TotalWeight(e.prog, e.plan, |e.prog|) <= |e.prog|
    requires IsRun(e, false, run) && run[0].stack == [] && Charged(e, false, run) < budget
    ensures Affordable(|e.prog|, e.limit - e.first, run, budget)
  {
    CallCost(e, zero, chain, run, budget);
    Wider(e, budget);
    WithinBounds(run, budget, |e.prog|, e.limit - e.first, DepthBound(e));
  }

  lemma WithinBounds(run: seq<Machine>, budget: nat, size: nat, span: nat, depth: nat)
    requires run != [] && Pops(run) < budget && |run[|run| - 1].stack| <= depth <= MostFrames(size, span)
    requires Steps(run) <= size * (2 * budget + depth) <= MostSteps(size, span, budget)
    ensures Affordable(size, span, run, budget)
  {
  }

  lemma Wider(e: Env, budget: nat)
    requires e.first <= e.limit && TotalWeight(e.prog, e.plan, |e.prog|) <= |e.prog|
    ensures var size, span := |e.prog|, e.limit - e.first;
            && DepthBound(e) <= MostFrames(size, span)
            && size * (2 * budget + DepthBound(e)) <= MostSteps(size, span, budget)
            && size * (3 * DepthBound(e) + 2) <= MostFallbackSteps(size, span)
  {
    var size, span := |e.prog|, e.limit - e.first;
    Times(TotalWeight(e.prog, e.plan, size), size, span + 1);
    Times(2 * budget + DepthBound(e), 2 * budget + MostFrames(size, span), size);
    Times(3 * DepthBound(e) + 2, 3 * MostFrames(size, span) + 2, size);
  }

  // ---- A whole call ----

  // What became of one body of a call.
  datatype Tried = Skipped | Tried(run: seq<Machine>, last: Machine, verdict: Verdict)

  // The bodies a call tried: the ordinary one unless a zero-width cycle could trap it, the fallback when that one was
  // skipped or tripped; the last one tried decides.
  ghost predicate Went(e: Env, cyclic: bool, budget: nat, frames: nat, start: Node, caps: seq<int>, one: Tried,
                       two: Tried, v: Verdict)
    requires e.Valid()
  {
    && (one.Tried? <==> !cyclic) && (two.Tried? <==> one.Skipped? || one.verdict.Tripped?)
    && (one.Tried? ==> Ran(e, false, budget, frames, start, caps, one.run, one.last, one.verdict))
    && (two.Tried? ==> Ran(e, true, 0, frames, start, caps, two.run, two.last, two.verdict))
    && v == if two.Tried? then two.verdict else one.verdict
  }

  // Their cost: the budget bounds the ordinary body, the memo bounds the fallback.
  ghost predicate Bounded(size: nat, span: nat, budget: nat, one: Tried, two: Tried) {
    && (one.Tried? ==> Affordable(size, span, one.run, budget))
    && (two.Tried? ==> Pops(two.run) <= MostFrames(size, span) && Steps(two.run) <= MostFallbackSteps(size, span))
  }

  // planBT's way. budget 0 keeps no counter; frames is how many frames a stack can hold.
  method Planned(e: Env, cyclic: bool, budget: nat, frames: nat, start: Node, caps: seq<int>,
                 ghost p: DispatchKeeps.Proof, ghost zero: seq<nat>, ghost chain: seq<nat>)
    returns (v: Verdict, ghost one: Tried, ghost two: Tried)
    requires e.Valid() && DispatchKeeps.PlanOk(e.prog, e.plan, p) && ChainRanked(e.prog, chain)
    requires !cyclic ==> ZeroRanked(e.prog, NO_PLAN, zero)
    requires e.Live(start) && |caps| == e.slots && TotalWeight(e.prog, e.plan, |e.prog|) <= |e.prog|
    ensures v.Answer? ==> v.result == Reference(e, start, caps)
    ensures v.Answer? || (v.Unknown? && frames < MostFrames(|e.prog|, e.limit - e.first))
    ensures Went(e, cyclic, budget, frames, start, caps, one, two, v)
    ensures Bounded(|e.prog|, e.limit - e.first, budget, one, two)
  {
    one, two := Skipped, Skipped;
    Wider(e, budget);
    if !cyclic {
      ghost var run, last;
      v, run, last := OrdinaryCall(e, budget, frames, start, caps, p, zero, chain);
      one := Tried(run, last, v);
      if !v.Tripped? {
        return;
      }
    }
    ghost var run, last;
    v, run, last := FallbackCall(e, frames, start, caps, p, chain);
    two := Tried(run, last, v);
  }

  // The same call under a dispatch plan; what is owed does not change.
  lemma Dispatched(e: Env, d: Env, p: DispatchKeeps.Proof, start: Node, caps: seq<int>)
    requires e.Valid() && e.plan == NO_PLAN && d == e.(plan := d.plan) && DispatchKeeps.PlanOk(e.prog, d.plan, p)
    requires e.Live(start) && start.pc !in d.plan.dead && |caps| == e.slots
    ensures d.Valid() && d.Live(start) && Plain(d) == Plain(e) == e
    ensures Reference(d, start, caps) == Reference(e, start, caps)
  {
  }

  // A whole call on the program as compiled: it builds its own dispatch, decides whether the ordinary body may run,
  // and answers unless memory cannot hold the frames.
  method Call(e: Env, start: Node, pairs: bool, budget: nat, frames: nat, caps: seq<int>)
    returns (v: Verdict, d: Env, cyclic: bool, ghost one: Tried, ghost two: Tried)
    requires e.Valid() && e.plan == NO_PLAN && e.Live(start) && |caps| == e.slots && EveryCycleForks(e.prog)
    ensures d == e.(plan := d.plan) && d.Valid() && (cyclic <==> HasZeroCycle(e.prog))
    ensures v.Answer? ==> v.result == Reference(e, start, caps) == MatchFrom(e, start, caps)
    ensures v.Answer? && v.result.MatchAt? ==>
              Wins(e, start, Winning(e, start)) && ReadOff(e, Winning(e, start), caps, v.result.end, v.result.caps)
    ensures v.Answer? || (v.Unknown? && frames < MostFrames(|d.prog|, d.limit - d.first))
    ensures Went(d, cyclic, budget, frames, start, caps, one, two, v)
    ensures Bounded(|d.prog|, d.limit - d.first, budget, one, two)
  {
    RankedIffEveryCycleForks(e.prog, e.slots);
    var plan, p, all := DispatchBuild.BuildPlan(e.prog, start.pc, pairs);
    ghost var zero, cycle;
    cyclic, zero, cycle := HasZeroWidthCycle(e.prog, e.slots);
    d := e.(plan := plan);
    Dispatched(e, d, p, start, caps);
    v, one, two := Planned(d, cyclic, budget, frames, start, caps, p, zero, Chain(e.prog));
    ReferenceIsTextbook(e, start, caps);
    if v.Answer? && v.result.MatchAt? {
      MatchReadsOff(e, start, caps);
    }
  }

  // emitBTWorkInit: k·N per position, the end of the span counted as one.
  function WorkInit(k: nat, n: nat, span: nat): nat {
    (span + 1) * (k * n)
  }

  // A search over adjoining spans has the budgets of both; over none, that of its one end.
  lemma WorkInitAdds(k: nat, n: nat, a: nat, b: nat)
    ensures WorkInit(k, n, 0) == k * n
    ensures WorkInit(k, n, a + b + 1) == WorkInit(k, n, a) + WorkInit(k, n, b)
  {
    var w := k * n;
    assert (a + b + 2) * w == (a + 1) * w + (b + 1) * w;
  }

  ghost function StepsOf(t: Tried): nat {
    if t.Tried? then Steps(t.run) else 0
  }

  // With that budget a call, fallback and all, executes a number of instructions linear in the span it searches.
  lemma LinearCost(size: nat, span: nat, k: nat, n: nat, one: Tried, two: Tried)
    requires k * n > 0 && Bounded(size, span, WorkInit(k, n, span), one, two)
    requires (one.Tried? ==> one.run != [])
    ensures StepsOf(one) + StepsOf(two) <= (span + 1) * (size * (2 * (k * n) + 4 * size + 2))
  {
    var w := k * n;
    Times(0, span, w);
    OrdinaryLinear(size, span, w);
    FallbackLinear(size, span);
    var a, b, c := size * (2 * w + size), size * (3 * size + 2), size * (2 * w + 4 * size + 2);
    assert a + b == c by {
      Spread(size, 2 * w + size, 3 * size + 2);
    }
    Spread(span + 1, a, b);
  }

  lemma OrdinaryLinear(size: nat, span: nat, w: nat)
    ensures MostSteps(size, span, (span + 1) * w) == (span + 1) * (size * (2 * w + size))
  {
    calc {
      size * (2 * ((span + 1) * w) + (span + 1) * size);
      { Spread(span + 1, 2 * w, size); assert 2 * ((span + 1) * w) == (span + 1) * (2 * w); }
      size * ((span + 1) * (2 * w + size));
      { Swap(size, span + 1, 2 * w + size); }
      (span + 1) * (size * (2 * w + size));
    }
  }

  lemma FallbackLinear(size: nat, span: nat)
    ensures MostFallbackSteps(size, span) <= (span + 1) * (size * (3 * size + 2))
  {
    var rows := span + 1;
    assert 3 * (rows * size) == rows * (3 * size);
    Spread(rows, 3 * size, 2);
    Times(3 * (rows * size) + 2, rows * (3 * size + 2), size);
    Swap(size, rows, 3 * size + 2);
  }

  lemma Spread(a: nat, b: nat, c: nat)
    ensures a * b + a * c == a * (b + c)
  {
  }

  lemma Swap(a: nat, b: nat, c: nat)
    ensures a * (b * c) == b * (a * c)
  {
  }
}
