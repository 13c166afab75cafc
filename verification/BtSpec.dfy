/** Leftmost-first: the answer a backtracking call owes, and that both bodies give it. */
module BtSpec {
  import opened PrioritySearch
  import opened PathGuards
  import opened BtProgram
  import opened BtMachine
  import opened WorkBudget

  // ---- The reference ----

  function Plain(e: Env): Env {
    e.(plan := NO_PLAN)
  }

  // Every state guarded: a path counts when it repeats no (pc, pos) at all.
  function ReferenceGraph(e: Env): Graph<Node>
    requires e.Valid()
  {
    GraphOf(e, e.States(), map n | n in e.States() :: 0, 1)
  }

  // The answer owed: the end and captures of the first accepting path, in priority order, among those that
  // repeat no (pc, pos), walking the program as compiled, without any dispatch.
  ghost function Reference(e: Env, start: Node, caps: seq<int>): Result
    requires Plain(e).Valid() && Plain(e).Live(start) && |caps| == e.slots
  {
    ReferenceValid(Plain(e));
    var g := ReferenceGraph(Plain(e));
    ResultOf(Plain(e), g, start, Best(g, start, {}), caps)
  }

  lemma ReferenceValid(e: Env)
    requires e.Valid()
    ensures ReferenceGraph(e).Valid()
  {
  }

  lemma PlainValid(e: Env)
    requires e.Valid()
    ensures Plain(e).Valid()
  {
  }

  lemma {:induction false} SimpleIgnoresRank<N>(g: Graph<N>, h: Graph<N>, n: N, cs: seq<nat>, avoid: set<N>)
    requires g.succ == h.succ && g.goals == h.goals && g.guarded == h.guarded && Simple(g, n, cs, avoid)
    ensures Simple(h, n, cs, avoid)
    decreases |cs|
  {
    if n !in g.goals {
      SimpleIgnoresRank(g, h, g.succ[n][cs[0]], cs[1..], g.With(avoid, n));
    }
  }

  lemma {:induction false} NodesIgnoreRank<N>(g: Graph<N>, h: Graph<N>, n: N, cs: seq<nat>)
    requires g.succ == h.succ
    ensures Nodes(g, n, cs) == Nodes(h, n, cs)
    decreases |cs|
  {
    if cs != [] && n in g.succ && cs[0] < |g.succ[n]| {
      NodesIgnoreRank(g, h, g.succ[n][cs[0]], cs[1..]);
    }
  }

  // A walkable graph whose best paths are those of full guarding gives the reference answer.
  lemma FullBestIsReference(e: Env, g: Graph<Node>, start: Node, caps: seq<int>)
    requires Walks(e, g) && e.plan == NO_PLAN && e.Live(start) && |caps| == e.slots
    requires Best(g, start, {}) == Best(FullyGuarded(g), start, {})
    ensures ResultOf(e, g, start, Best(g, start, {}), caps) == Reference(e, start, caps)
  {
    ReferenceValid(e);
    var f, h := FullyGuarded(g), ReferenceGraph(e);
    assert Plain(e) == e && h.guarded == f.guarded;
    forall cs ensures Simple(f, start, cs, {}) <==> Simple(h, start, cs, {}) {
      if Simple(f, start, cs, {}) {
        SimpleIgnoresRank(f, h, start, cs, {});
      }
      if Simple(h, start, cs, {}) {
        SimpleIgnoresRank(h, f, start, cs, {});
      }
    }
    SameBest(f, h, start);
    var b := Best(g, start, {});
    if b.Found? {
      NodesIgnoreRank(g, h, start, b.path);
    }
  }

  // ---- The ordinary body's graph ----

  function MaxOf(s: seq<nat>): (m: nat)
    ensures forall i :: 0 <= i < |s| ==> s[i] <= m
  {
    if s == [] then 0
    else
      var m := MaxOf(s[..|s| - 1]);
      assert forall i :: 0 <= i < |s| - 1 ==> s[i] == s[..|s| - 1][i];
      if m < s[|s| - 1] then s[|s| - 1] else m
  }

  function OrdinaryRank(e: Env, zero: seq<nat>, n: Node): nat
    requires |zero| == |e.prog| && e.Has(n)
  {
    (e.limit - n.pos) * (MaxOf(zero) + 1) + zero[n.pc]
  }

  function OrdinaryGraph(e: Env, zero: seq<nat>): Graph<Node>
    requires e.Valid() && |zero| == |e.prog|
  {
    GraphOf(e, {}, map n | n in e.States() :: OrdinaryRank(e, zero, n), (e.limit - e.first + 1) * (MaxOf(zero) + 1))
  }

  lemma RankFalls(e: Env, zero: seq<nat>, n: Node, i: nat)
    requires e.Valid() && ZeroRanked(e.prog, e.plan, zero) && e.Live(n) && i < |e.Succ(n)|
    ensures OrdinaryRank(e, zero, e.Succ(n)[i]) < OrdinaryRank(e, zero, n)
  {
    var m := e.Succ(n)[i];
    if m.pos == n.pos {
      assert zero[m.pc] < zero[n.pc];
    } else {
      assert m.pos == n.pos + 1;
      Times(e.limit - m.pos, e.limit - m.pos, MaxOf(zero) + 1);
    }
  }

  lemma RankBounded(e: Env, zero: seq<nat>, n: Node)
    requires |zero| == |e.prog| && e.Has(n)
    ensures OrdinaryRank(e, zero, n) < (e.limit - e.first + 1) * (MaxOf(zero) + 1)
  {
    var w := MaxOf(zero) + 1;
    Times(e.limit - n.pos, e.limit - e.first, w);
    Times(e.limit - e.first, e.limit - e.first, w);
  }

  lemma OrdinaryWalks(e: Env, zero: seq<nat>)
    requires e.Valid() && ZeroRanked(e.prog, e.plan, zero)
    ensures Walks(e, OrdinaryGraph(e, zero))
  {
    var g := OrdinaryGraph(e, zero);
    forall n | n in g.succ ensures g.rank[n] < g.bound {
      RankBounded(e, zero, n);
    }
    forall n, i | n in g.succ && 0 <= i < |g.succ[n]|
      ensures g.succ[n][i] in g.succ && g.rank[g.succ[n][i]] < g.rank[n] {
      RankFalls(e, zero, n, i);
    }
  }

  // ---- The memoised body's graph ----

  function FallbackGraph(e: Env, chain: seq<nat>): Graph<Node>
    requires e.Valid() && |chain| == |e.prog|
  {
    GraphOf(e, set n | n in e.States() && e.prog[n.pc].IsAlt(), map n | n in e.States() :: chain[n.pc], |e.prog|)
  }

  lemma FallbackWalks(e: Env, chain: seq<nat>)
    requires e.Valid() && ChainRanked(e.prog, chain)
    ensures Walks(e, FallbackGraph(e, chain)) && FallbackGraph(e, chain).guarded == AltStates(e)
    ensures Deterministic(FallbackGraph(e, chain))
  {
    var g := FallbackGraph(e, chain);
    assert g.guarded == AltStates(e);
    forall n, i | n in g.succ && n !in g.guarded && 0 <= i < |g.succ[n]| ensures g.rank[g.succ[n][i]] < g.rank[n] {
      var k :| 0 <= k < |e.prog[n.pc].Edges()| && e.prog[n.pc].Edges()[k] == g.succ[n][i].pc;
    }
  }

  // ---- Programs without a dispatch ----

  lemma UndispatchedOrdinary(e: Env, zero: seq<nat>, start: Node, caps: seq<int>)
    requires e.Valid() && e.plan == NO_PLAN && ZeroRanked(e.prog, NO_PLAN, zero) && e.Live(start) && |caps| == e.slots
    ensures Walks(e, OrdinaryGraph(e, zero))
    ensures ResultOf(e, OrdinaryGraph(e, zero), start, Best(OrdinaryGraph(e, zero), start, {}), caps)
            == Reference(e, start, caps)
  {
    OrdinaryWalks(e, zero);
    UnguardedBest(OrdinaryGraph(e, zero), start);
    FullBestIsReference(e, OrdinaryGraph(e, zero), start, caps);
  }

  lemma UndispatchedFallback(e: Env, chain: seq<nat>, start: Node, caps: seq<int>)
    requires e.Valid() && e.plan == NO_PLAN && ChainRanked(e.prog, chain) && e.Live(start) && |caps| == e.slots
    ensures Walks(e, FallbackGraph(e, chain))
    ensures ResultOf(e, FallbackGraph(e, chain), start, Best(FallbackGraph(e, chain), start, {}), caps)
            == Reference(e, start, caps)
  {
    FallbackWalks(e, chain);
    GuardedBest(FallbackGraph(e, chain), start);
    FullBestIsReference(e, FallbackGraph(e, chain), start, caps);
  }

  // Without a zero-width cycle the reference is the plain leftmost-first answer: first among all accepting paths.
  lemma ReferenceIsLeftmostFirst(e: Env, zero: seq<nat>, start: Node, cs: seq<nat>)
    requires e.Valid() && e.plan == NO_PLAN && ZeroRanked(e.prog, NO_PLAN, zero) && e.Live(start)
    requires Leads(ReferenceGraph(e), start, cs, {})
    ensures ReferenceGraph(e).Valid()
    ensures Best(ReferenceGraph(e), start, {}).Found? && Before(Best(ReferenceGraph(e), start, {}).path, cs)
  {
    ReferenceValid(e);
    OrdinaryWalks(e, zero);
    var g, h := OrdinaryGraph(e, zero), ReferenceGraph(e);
    LeadsIgnoresRank(h, g, start, cs, {});
    AcyclicSimple(g, start, cs, {});
    SimpleIgnoresRank(FullyGuarded(g), h, start, cs, {});
    BestIsLeast(h, start, {});
  }

  lemma {:induction false} LeadsIgnoresRank<N>(g: Graph<N>, h: Graph<N>, n: N, cs: seq<nat>, avoid: set<N>)
    requires g.succ == h.succ && g.goals == h.goals && Leads(g, n, cs, avoid)
    ensures Leads(h, n, cs, avoid)
    decreases |cs|
  {
    if n !in g.goals {
      LeadsIgnoresRank(g, h, g.succ[n][cs[0]], cs[1..], avoid);
    }
  }
}
