/**
 First-byte dispatch changes no answer, in the ordinary and in the memoised body.

 A plan is sound when every arm it skips on a byte could not start with that byte, the arms it keeps stay in
 priority order, and what it takes out of the program is reached only through its head. The best path under
 such a plan and the best path without it then run through the same instructions, but for the chain's own
 alternations, and end alike.
 */
module DispatchKeeps {
  import opened PrioritySearch
  import opened BtProgram
  import opened BtMachine
  import opened BtSpec
  import opened WorkBudget
  import opened ZeroWidth

  // ---- First bytes ----

  // Instruction pc can begin a match on c: consuming it, or reaching Match without consuming.
  ghost predicate CanStart(prog: Prog, pc: nat, c: nat) {
    exists walk :: StartsBy(prog, pc, c, walk)
  }

  ghost predicate StartsBy(prog: Prog, pc: nat, c: nat, walk: seq<nat>) {
    && IsZeroWalk(prog, walk) && walk[0] == pc
    && var last := prog[walk[|walk| - 1]];
       last.Match? || (last.Consumes() && c < END_OF_INPUT && last.Admits(c))
  }

  // first over-approximates what can start each instruction; END_OF_INPUT stands for nothing left.
  ghost predicate FirstOk(prog: Prog, first: seq<set<nat>>) {
    |first| == |prog| && forall pc, c :: 0 <= pc < |prog| && 0 <= c <= END_OF_INPUT && CanStart(prog, pc, c) ==>
         c in first[pc]
  }

  // A path from a state starts with the next byte, or with nothing.
  lemma {:induction false} LeadsStarts(e: Env, g: Graph<Node>, n: Node, cs: seq<nat>, avoid: set<Node>)
    requires Walks(e, g) && e.plan == NO_PLAN && Leads(g, n, cs, avoid)
    ensures CanStart(e.prog, n.pc, e.NextByte(n.pos))
    decreases |cs|
  {
    if e.prog[n.pc].Match? || e.prog[n.pc].Consumes() {
      assert StartsBy(e.prog, n.pc, e.NextByte(n.pos), [n.pc]);
    } else {
      var m := g.succ[n][cs[0]];
      LeadsStarts(e, g, m, cs[1..], avoid);
      var walk :| StartsBy(e.prog, m.pc, e.NextByte(m.pos), walk);
      assert m.pos == n.pos && m.pc in ZeroEdges(e.prog, n.pc);
      assert StartsBy(e.prog, n.pc, e.NextByte(n.pos), [n.pc] + walk);
    }
  }

  // ---- Chains ----

  // A chain of Alts as the tree it is: forks at the Alts, arms at the leaves.
  datatype Tree = Arm(pc: nat) | Fork(pc: nat, left: Tree, right: Tree)

  ghost predicate ChainOf(prog: Prog, t: Tree) {
    && t.pc < |prog|
    && (t.Fork? ==> prog[t.pc].Alt? && t.left.pc == prog[t.pc].out && t.right.pc == prog[t.pc].arg
                    && ChainOf(prog, t.left) && ChainOf(prog, t.right))
  }

  function Arms(t: Tree): seq<nat> {
    match t
    case Arm(pc) => [pc]
    case Fork(_, l, r) => Arms(l) + Arms(r)
  }

  function Forks(t: Tree): set<nat> {
    match t
    case Arm(_) => {}
    case Fork(pc, l, r) => {pc} + Forks(l) + Forks(r)
  }

  // The Alts below a chain's head.
  function Inner(t: Tree): set<nat> {
    if t.Fork? then Forks(t.left) + Forks(t.right) else {}
  }

  // No Alt occurs again below itself.
  ghost predicate Unrepeated(t: Tree) {
    t.Fork? ==> t.pc !in Inner(t) && Unrepeated(t.left) && Unrepeated(t.right)
  }

  // The arms byte c can start, in priority order.
  function Kept(t: Tree, c: nat, first: seq<set<nat>>): (pcs: seq<nat>) {
    match t
    case Arm(pc) => if pc < |first| && c in first[pc] then [pc] else []
    case Fork(_, l, r) => Kept(l, c, first) + Kept(r, c, first)
  }

  // Why a plan is right: each head's chain, the owner of every dead Alt, and the first sets its cases came from.
  datatype Proof = Proof(trees: map<nat, Tree>, owner: map<nat, nat>, first: seq<set<nat>>)

  ghost predicate PlanOk(prog: Prog, plan: Plan, p: Proof) {
    && ValidPlan(plan, prog) && FirstOk(prog, p.first) && p.trees.Keys == plan.heads.Keys
    && (forall q :: q in plan.dead ==> q < |prog| && prog[q].Alt?)
    && (forall h :: h in plan.heads ==> HeadOk(prog, plan, p, h))
  }

  ghost predicate HeadOk(prog: Prog, plan: Plan, p: Proof, h: nat)
    requires h in plan.heads && h in p.trees && ValidDispatch(plan.heads[h], |prog|)
  {
    var t, d := p.trees[h], plan.heads[h];
    && t.Fork? && t.pc == h && ChainOf(prog, t) && Unrepeated(t) && d.arms == Arms(t)
    && (forall q :: q in Inner(t) ==> q in plan.dead && q in p.owner && p.owner[q] == h)
    && (forall c :: 0 <= c <= END_OF_INPUT ==> ArmsAt(d, d.cases[d.caseOf[c]]) == Kept(t, c, p.first))
  }

  // ---- The two searches, step by step ----

  ghost predicate Setup(e: Env, gp: Graph<Node>, gn: Graph<Node>, p: Proof, memo: bool) {
    && Walks(e, gp) && Walks(Plain(e), gn) && PlanOk(e.prog, e.plan, p)
    && gp.guarded == (if memo then AltStates(e) else {})
    && gn.guarded == (if memo then AltStates(Plain(e)) else {})
  }

  // What the two searches have on their paths: the plain one also the inner Alts of heads it has passed.
  ghost predicate Paired(e: Env, p: Proof, s: set<Node>, s': set<Node>) {
    && s <= s'
    && (forall x :: x in s' ==> x in s || x.pc in e.plan.dead)
    && (forall x :: x in s' && x.pc in e.plan.dead ==> x.pc in p.owner && At(p.owner[x.pc], x.pos) in s')
  }

  function Trim(nodes: seq<Node>, dead: set<nat>): seq<Node> {
    if nodes == [] then []
    else if nodes[0].pc in dead then Trim(nodes[1..], dead)
    else [nodes[0]] + Trim(nodes[1..], dead)
  }

  // The same path, but for the inner Alts only the plain search walks.
  ghost predicate SamePath(e: Env, gp: Graph<Node>, gn: Graph<Node>, m: Node, a: Found, n: Node, b: Found) {
    && (a.Found? <==> b.Found?)
    && (a.Found? ==> Nodes(gp, m, a.path) == Trim(Nodes(gn, n, b.path), e.plan.dead))
  }

  function NodesAt(pcs: seq<nat>, pos: nat): (ms: seq<Node>)
    ensures |ms| == |pcs| && forall i :: 0 <= i < |pcs| ==> ms[i] == At(pcs[i], pos)
  {
    seq(|pcs|, i requires 0 <= i < |pcs| => At(pcs[i], pos))
  }

  lemma {:induction false} BestOfConcat<N>(g: Graph<N>, xs: seq<N>, ys: seq<N>, i: nat, level: nat, avoid: set<N>)
    requires g.Valid() && i <= |xs|
    requires forall j :: 0 <= j < |xs| ==> xs[j] in g.succ && g.rank[xs[j]] < level
    requires forall j :: 0 <= j < |ys| ==> ys[j] in g.succ && g.rank[ys[j]] < level
    ensures forall j :: 0 <= j < |xs + ys| ==> (xs + ys)[j] in g.succ && g.rank[(xs + ys)[j]] < level
    ensures var a, b, all := BestOf(g, xs, i, level, avoid), BestOf(g, ys, 0, level, avoid),
            BestOf(g, xs + ys, i, level, avoid);
            if a.Found? then all == a && a.path != [] && a.path[0] < |xs|
            else if b.Found? then b.path != [] && all == Found([b.path[0] + |xs|] + b.path[1..])
            else all == NotFound
    decreases |xs| - i
  {
    if i < |xs| {
      BestOfConcat(g, xs, ys, i + 1, level, avoid);
    } else {
      BestOfShift(g, xs, ys, 0, level, avoid);
    }
  }

  lemma {:induction false} BestOfShift<N>(g: Graph<N>, xs: seq<N>, ys: seq<N>, k: nat, level: nat, avoid: set<N>)
    requires g.Valid() && k <= |ys|
    requires forall j :: 0 <= j < |xs| ==> xs[j] in g.succ && g.rank[xs[j]] < level
    requires forall j :: 0 <= j < |ys| ==> ys[j] in g.succ && g.rank[ys[j]] < level
    ensures forall j :: 0 <= j < |xs + ys| ==> (xs + ys)[j] in g.succ && g.rank[(xs + ys)[j]] < level
    ensures var b, all := BestOf(g, ys, k, level, avoid), BestOf(g, xs + ys, |xs| + k, level, avoid);
            if b.Found? then b.path != [] && all == Found([b.path[0] + |xs|] + b.path[1..]) else all == NotFound
    decreases |ys| - k
  {
    if k < |ys| {
      BestOfShift(g, xs, ys, k + 1, level, avoid);
    }
  }

  // ---- The simulation ----

  ghost predicate Ready(e: Env, gp: Graph<Node>, gn: Graph<Node>, p: Proof, memo: bool, s: set<Node>, s': set<Node>) {
    && Setup(e, gp, gn, p, memo) && Paired(e, p, s, s') && s' <= gn.guarded && s <= gp.guarded
  }

  lemma {:induction false} SameBestPath(e: Env, gp: Graph<Node>, gn: Graph<Node>, p: Proof, memo: bool, n: Node,
                                        s: set<Node>, s': set<Node>)
    requires Ready(e, gp, gn, p, memo, s, s') && e.Live(n)
    ensures n in gp.succ && n in gn.succ && SamePath(e, gp, gn, n, Best(gp, n, s), n, Best(gn, n, s'))
    decreases |gp.guarded - s|, gp.rank[n], 2 + if n.pc in p.trees then TreeSize(p.trees[n.pc]) else |e.Succ(n)|
  {
    assert n in gp.succ && n in gn.succ;
    if n !in s && n !in gp.goals {
      if n.pc in e.plan.heads {
        HeadSame(e, gp, gn, p, memo, n, s, s');
      } else {
        PlainSame(e, gp, gn, p, memo, n, s, s');
      }
    }
  }

  // An undispatched state has the same successors in both graphs.
  lemma PlainSame(e: Env, gp: Graph<Node>, gn: Graph<Node>, p: Proof, memo: bool, n: Node, s: set<Node>, s': set<Node>)
    requires Ready(e, gp, gn, p, memo, s, s') && e.Live(n) && n.pc !in e.plan.heads && n in gp.succ && n in gn.succ
    requires n !in s && n !in gp.goals
    ensures SamePath(e, gp, gn, n, Best(gp, n, s), n, Best(gn, n, s'))
    decreases |gp.guarded - s|, gp.rank[n], 1 + |e.Succ(n)|
  {
    var ms := e.Succ(n);
    Shrinks(gp, n, s);
    assert gp.succ[n] == ms && gn.succ[n] == Plain(e).Succ(n) == ms;
    WithPaired(e, gp, gn, p, memo, n, s, s');
    SameBestOf(e, gp, gn, p, memo, ms, 0, gp.Level(n), gn.Level(n), gp.With(s, n), gn.With(s', n));
    StepPath(e, gp, gn, n, ms, s, s');
  }

  lemma StepPath(e: Env, gp: Graph<Node>, gn: Graph<Node>, n: Node, ms: seq<Node>, s: set<Node>, s': set<Node>)
    requires gp.Valid() && gn.Valid() && n in gp.succ && n in gn.succ && gp.succ[n] == gn.succ[n] == ms
    requires n.pc !in e.plan.dead
    requires n !in s && n !in s' && n !in gp.goals && n !in gn.goals
    requires var a, b := BestOf(gp, ms, 0, gp.Level(n), gp.With(s, n)), BestOf(gn, ms, 0, gn.Level(n), gn.With(s', n));
             && (a.Found? <==> b.Found?)
             && (a.Found? ==>
                   && a.path != [] && b.path != [] && a.path[0] == b.path[0] < |ms|
                   && SamePath(e, gp, gn, ms[a.path[0]], Found(a.path[1..]), ms[a.path[0]], Found(b.path[1..])))
    ensures SamePath(e, gp, gn, n, Best(gp, n, s), n, Best(gn, n, s'))
  {
    var b := Best(gn, n, s');
    if b.Found? {
      assert Nodes(gn, n, b.path)[1..] == Nodes(gn, ms[b.path[0]], b.path[1..]);
    }
  }

  function TreeSize(t: Tree): nat {
    match t
    case Arm(_) => 1
    case Fork(_, l, r) => 1 + TreeSize(l) + TreeSize(r)
  }

  lemma WithPaired(e: Env, gp: Graph<Node>, gn: Graph<Node>, p: Proof, memo: bool, n: Node, s: set<Node>, s': set<Node>)
    requires Ready(e, gp, gn, p, memo, s, s') && e.Live(n)
    ensures Ready(e, gp, gn, p, memo, gp.With(s, n), gn.With(s', n))
  {
    SameGuard(e, gp, gn, memo, n);
    if n in gp.guarded {
      PairedOn(e, p, s, s', n);
    }
  }

  // A live state is marked in both searches or in neither.
  lemma SameGuard(e: Env, gp: Graph<Node>, gn: Graph<Node>, memo: bool, n: Node)
    requires e.Valid() && e.Live(n) && gp.guarded == (if memo then AltStates(e) else {})
    requires gn.guarded == (if memo then AltStates(Plain(e)) else {})
    ensures n in gp.guarded <==> n in gn.guarded
  {
  }

  lemma PairedOn(e: Env, p: Proof, s: set<Node>, s': set<Node>, n: Node)
    requires Paired(e, p, s, s') && n.pc !in e.plan.dead
    ensures Paired(e, p, s + {n}, s' + {n})
  {
  }

  lemma {:induction false} SameBestOf(e: Env, gp: Graph<Node>, gn: Graph<Node>, p: Proof, memo: bool, ms: seq<Node>,
                                      i: nat,
                                      lp: nat, ln: nat, s: set<Node>, s': set<Node>)
    requires Ready(e, gp, gn, p, memo, s, s') && i <= |ms|
    requires forall j :: 0 <= j < |ms| ==>
               e.Live(ms[j]) && ms[j] in gp.succ && gp.rank[ms[j]] < lp && ms[j] in gn.succ && gn.rank[ms[j]] < ln
    ensures var a, b := BestOf(gp, ms, i, lp, s), BestOf(gn, ms, i, ln, s');
            && (a.Found? <==> b.Found?)
            && (a.Found? ==>
                  && a.path != [] && b.path != [] && a.path[0] == b.path[0] && i <= a.path[0] < |ms|
                  && SamePath(e, gp, gn, ms[a.path[0]], Found(a.path[1..]), ms[a.path[0]], Found(b.path[1..])))
    decreases |gp.guarded - s|, lp, |ms| - i
  {
    if i < |ms| {
      SameBestPath(e, gp, gn, p, memo, ms[i], s, s');
      SameBestOf(e, gp, gn, p, memo, ms, i + 1, lp, ln, s, s');
    }
  }

  // What the dispatch finds among the kept arms, against what the plain search finds in the chain.
  ghost predicate SameArm(e: Env, gp: Graph<Node>, gn: Graph<Node>, ms: seq<Node>, a: Found, n: Node, b: Found) {
    && (a.Found? <==> b.Found?)
    && (a.Found? ==>
          && a.path != [] && a.path[0] < |ms|
          && Nodes(gp, ms[a.path[0]], a.path[1..]) == Trim(Nodes(gn, n, b.path), e.plan.dead))
  }

  // A subtree of the chain headed at h, reached at position pos with h and the Alts above it on the plain path.
  ghost predicate Subtree(e: Env, p: Proof, memo: bool, h: nat, t: Tree, pos: nat, s': set<Node>) {
    && ChainOf(e.prog, t) && Unrepeated(t) && e.first <= pos <= e.limit && (memo ==> At(h, pos) in s')
    && (forall q :: q in Forks(t) ==> q in e.plan.dead && q in p.owner && p.owner[q] == h && At(q, pos) !in s')
    && (forall i :: 0 <= i < |Arms(t)| ==> Arms(t)[i] !in e.plan.dead && Arms(t)[i] < |e.prog|)
  }

  ghost predicate RanksBelow(gp: Graph<Node>, ms: seq<Node>, lp: nat) {
    forall j :: 0 <= j < |ms| ==> ms[j] in gp.succ && ms[j] in gp.rank && gp.rank[ms[j]] < lp
  }

  lemma {:induction false} ChainSame(e: Env, gp: Graph<Node>, gn: Graph<Node>, p: Proof, memo: bool, h: nat, t: Tree,
                                     pos: nat,
                                     lp: nat, s: set<Node>, s': set<Node>)
    requires Ready(e, gp, gn, p, memo, s, s') && Subtree(e, p, memo, h, t, pos, s')
    requires RanksBelow(gp, NodesAt(Kept(t, e.NextByte(pos), p.first), pos), lp)
    ensures At(t.pc, pos) in gn.succ
    ensures var ms := NodesAt(Kept(t, e.NextByte(pos), p.first), pos);
            SameArm(e, gp, gn, ms, BestOf(gp, ms, 0, lp, s), At(t.pc, pos), Best(gn, At(t.pc, pos), s'))
    decreases |gp.guarded - s|, lp, TreeSize(t)
  {
    if t.Arm? {
      ArmSame(e, gp, gn, p, memo, h, t, pos, lp, s, s');
    } else {
      var n := At(t.pc, pos);
      ForkEdges(e, gn, t, pos);
      InnerPaired(e, gp, gn, p, memo, h, t, pos, s, s');
      SubtreeDown(e, p, memo, h, t, pos, s', gn.With(s', n));
      KeptSplit(gp, t, e.NextByte(pos), p.first, pos, lp);
      EdgesBelow(gn, n, At(t.left.pc, pos), At(t.right.pc, pos));
      BothSame(e, gp, gn, p, memo, h, t.left, t.right, pos, lp, gn.Level(n), s, gn.With(s', n));
      ForkPath(e, gp, gn, NodesAt(Kept(t, e.NextByte(pos), p.first), pos), lp, n, At(t.left.pc, pos),
      At(t.right.pc, pos), s, s');
    }
  }

  lemma ArmSame(e: Env, gp: Graph<Node>, gn: Graph<Node>, p: Proof, memo: bool, h: nat, t: Tree, pos: nat, lp: nat,
                s: set<Node>, s': set<Node>)
    requires Ready(e, gp, gn, p, memo, s, s') && Subtree(e, p, memo, h, t, pos, s') && t.Arm?
    requires RanksBelow(gp, NodesAt(Kept(t, e.NextByte(pos), p.first), pos), lp)
    ensures At(t.pc, pos) in gn.succ
    ensures var ms := NodesAt(Kept(t, e.NextByte(pos), p.first), pos);
            SameArm(e, gp, gn, ms, BestOf(gp, ms, 0, lp, s), At(t.pc, pos), Best(gn, At(t.pc, pos), s'))
    decreases |gp.guarded - s|, lp, 0
  {
    var n := At(t.pc, pos);
    assert Arms(t)[0] == t.pc;
    assert Plain(e).Live(n) && n in gn.succ;
    var ms := NodesAt(Kept(t, e.NextByte(pos), p.first), pos);
    assert t.pc < |p.first|;
    if e.NextByte(pos) in p.first[t.pc] {
      assert ms == [n];
      assert ms[0] in gp.succ && gp.rank[ms[0]] < lp;
      SameBestPath(e, gp, gn, p, memo, n, s, s');
      KeptArm(e, gp, gn, n, lp, s, s');
    } else {
      assert ms == [];
      SkippedArm(e, gn, p, n, s');
    }
  }

  lemma KeptArm(e: Env, gp: Graph<Node>, gn: Graph<Node>, n: Node, lp: nat, s: set<Node>, s': set<Node>)
    requires gp.Valid() && gn.Valid() && n in gp.succ && gp.rank[n] < lp && n in gn.succ
    requires SamePath(e, gp, gn, n, Best(gp, n, s), n, Best(gn, n, s'))
    ensures SameArm(e, gp, gn, [n], BestOf(gp, [n], 0, lp, s), n, Best(gn, n, s'))
  {
    ArmAlone(gp, n, lp, s);
  }

  lemma KeptSplit(gp: Graph<Node>, t: Tree, c: nat, first: seq<set<nat>>, pos: nat, lp: nat)
    requires t.Fork?
    ensures NodesAt(Kept(t, c, first), pos)
            == NodesAt(Kept(t.left, c, first), pos) + NodesAt(Kept(t.right, c, first), pos)
    ensures RanksBelow(gp, NodesAt(Kept(t, c, first), pos), lp) ==>
              RanksBelow(gp, NodesAt(Kept(t.left, c, first), pos), lp) &&
              RanksBelow(gp, NodesAt(Kept(t.right, c, first), pos), lp)
  {
    var ms, xs, ys := NodesAt(Kept(t, c, first), pos), NodesAt(Kept(t.left, c, first), pos),
      NodesAt(Kept(t.right, c, first), pos);
    assert ms == xs + ys;
    assert forall j :: 0 <= j < |xs| ==> ms[j] == xs[j];
    assert forall j :: 0 <= j < |ys| ==> ms[|xs| + j] == ys[j];
  }

  lemma EdgesBelow(g: Graph<Node>, n: Node, l: Node, r: Node)
    requires g.Valid() && n in g.succ && g.succ[n] == [l, r]
    ensures RanksBelow(g, [l, r], g.Level(n))
  {
    assert g.succ[n][0] == l && g.succ[n][1] == r;
  }

  // An inner Alt is on the plain path only.
  lemma ForkPath(e: Env, gp: Graph<Node>, gn: Graph<Node>, ms: seq<Node>, lp: nat, n: Node, l: Node, r: Node,
                 s: set<Node>, s': set<Node>)
    requires gp.Valid() && gn.Valid() && n in gn.succ && n !in s' && n !in gn.goals && RanksBelow(gp, ms, lp)
    requires gn.succ[n] == [l, r] && n.pc in e.plan.dead
    requires SameOfTwo(e, gp, gn, ms, BestOf(gp, ms, 0, lp, s), l, r,
             BestOf(gn, [l, r], 0, gn.Level(n), gn.With(s', n)))
    ensures SameArm(e, gp, gn, ms, BestOf(gp, ms, 0, lp, s), n, Best(gn, n, s'))
  {
    var b := Best(gn, n, s');
    if b.Found? {
      assert Nodes(gn, n, b.path)[1..] == Nodes(gn, [l, r][b.path[0]], b.path[1..]);
    }
  }

  lemma ArmAlone<N>(g: Graph<N>, n: N, level: nat, avoid: set<N>)
    requires g.Valid() && n in g.succ && g.rank[n] < level
    ensures var a, b := BestOf(g, [n], 0, level, avoid), Best(g, n, avoid);
            if b.Found? then a == Found([0] + b.path) && a.path[1..] == b.path else a == NotFound
  {
  }

  lemma SkippedArm(e: Env, gn: Graph<Node>, p: Proof, n: Node, avoid: set<Node>)
    requires Walks(Plain(e), gn) && FirstOk(e.prog, p.first) && n in gn.succ && e.Has(n) && e.limit <= |e.text|
    requires e.NextByte(n.pos) !in p.first[n.pc]
    ensures Best(gn, n, avoid).NotFound?
  {
    BestFindsOrDead(gn, n, avoid);
    forall cs ensures !Leads(gn, n, cs, avoid) {
      if Leads(gn, n, cs, avoid) {
        LeadsStarts(Plain(e), gn, n, cs, avoid);
      }
    }
  }

  lemma ForkEdges(e: Env, gn: Graph<Node>, t: Tree, pos: nat)
    requires Walks(Plain(e), gn) && ChainOf(e.prog, t) && t.Fork? && e.first <= pos <= e.limit
    ensures var n := At(t.pc, pos);
            n in gn.succ && n !in gn.goals && gn.succ[n] == [At(t.left.pc, pos), At(t.right.pc, pos)]
  {
    var n := At(t.pc, pos);
    assert Plain(e).Live(n) && n in gn.succ;
    assert gn.succ[n] == Plain(e).Succ(n);
  }

  lemma SubtreeDown(e: Env, p: Proof, memo: bool, h: nat, t: Tree, pos: nat, s': set<Node>, now: set<Node>)
    requires Subtree(e, p, memo, h, t, pos, s') && t.Fork? && s' <= now <= s' + {At(t.pc, pos)}
    ensures Subtree(e, p, memo, h, t.left, pos, now) && Subtree(e, p, memo, h, t.right, pos, now)
  {
    ArmsSplit(t);
  }

  // Walking through an inner Alt keeps the pairing.
  lemma InnerPaired(e: Env, gp: Graph<Node>, gn: Graph<Node>, p: Proof, memo: bool, h: nat, t: Tree, pos: nat,
                    s: set<Node>, s': set<Node>)
    requires Ready(e, gp, gn, p, memo, s, s') && Subtree(e, p, memo, h, t, pos, s') && t.Fork?
    requires At(t.pc, pos) in gn.succ
    ensures At(t.pc, pos) !in s' && Ready(e, gp, gn, p, memo, s, gn.With(s', At(t.pc, pos)))
  {
    var x := At(t.pc, pos);
    assert t.pc in Forks(t);
    if x in gn.guarded {
      PairedInner(e, p, s, s', x);
    }
  }

  lemma PairedInner(e: Env, p: Proof, s: set<Node>, s': set<Node>, x: Node)
    requires Paired(e, p, s, s') && x.pc in e.plan.dead && x.pc in p.owner && At(p.owner[x.pc], x.pos) in s'
    ensures Paired(e, p, s, s' + {x})
  {
  }

  lemma ArmsSplit(t: Tree)
    requires t.Fork?
    ensures forall i :: 0 <= i < |Arms(t.left)| ==> Arms(t)[i] == Arms(t.left)[i]
    ensures forall i :: 0 <= i < |Arms(t.right)| ==> Arms(t)[|Arms(t.left)| + i] == Arms(t.right)[i]
  {
  }

  lemma {:induction false} BothSame(e: Env, gp: Graph<Node>, gn: Graph<Node>, p: Proof, memo: bool, h: nat, l: Tree,
                                    r: Tree, pos: nat,
                                    lp: nat, ln: nat, s: set<Node>, s': set<Node>)
    requires Ready(e, gp, gn, p, memo, s, s') && Subtree(e, p, memo, h, l, pos, s')
    requires Subtree(e, p, memo, h, r, pos, s')
    requires RanksBelow(gp, NodesAt(Kept(l, e.NextByte(pos), p.first), pos), lp)
    requires RanksBelow(gp, NodesAt(Kept(r, e.NextByte(pos), p.first), pos), lp)
    requires RanksBelow(gn, [At(l.pc, pos), At(r.pc, pos)], ln)
    ensures var xs, ys := NodesAt(Kept(l, e.NextByte(pos), p.first), pos),
            NodesAt(Kept(r, e.NextByte(pos), p.first), pos);
            && RanksBelow(gp, xs + ys, lp)
            && SameOfTwo(e, gp, gn, xs + ys, BestOf(gp, xs + ys, 0, lp, s), At(l.pc, pos), At(r.pc, pos),
                         BestOf(gn, [At(l.pc, pos), At(r.pc, pos)], 0, ln, s'))
    decreases |gp.guarded - s|, lp, TreeSize(l) + TreeSize(r)
  {
    var c := e.NextByte(pos);
    var xs, ys := NodesAt(Kept(l, c, p.first), pos), NodesAt(Kept(r, c, p.first), pos);
    ChainSame(e, gp, gn, p, memo, h, l, pos, lp, s, s');
    ChainSame(e, gp, gn, p, memo, h, r, pos, lp, s, s');
    JoinArms(e, gp, gn, xs, ys, lp, At(l.pc, pos), At(r.pc, pos), ln, s, s');
  }

  // What a two-way choice of the plain search finds, against the arms of both branches.
  ghost predicate SameOfTwo(e: Env, gp: Graph<Node>, gn: Graph<Node>, ms: seq<Node>, a: Found, l: Node, r: Node,
                            b: Found) {
    if b.NotFound? then a.NotFound?
    else b.path != [] && b.path[0] < 2 && SameArm(e, gp, gn, ms, a, if b.path[0] == 0 then l else r, Found(b.path[1..]))
  }

  lemma JoinArms(e: Env, gp: Graph<Node>, gn: Graph<Node>, xs: seq<Node>, ys: seq<Node>, lp: nat, l: Node, r: Node,
                 ln: nat,
                 s: set<Node>, s': set<Node>)
    requires gp.Valid() && gn.Valid() && RanksBelow(gp, xs, lp) && RanksBelow(gp, ys, lp) && RanksBelow(gn, [l, r], ln)
    requires l in gn.succ && r in gn.succ
    requires SameArm(e, gp, gn, xs, BestOf(gp, xs, 0, lp, s), l, Best(gn, l, s'))
    requires SameArm(e, gp, gn, ys, BestOf(gp, ys, 0, lp, s), r, Best(gn, r, s'))
    ensures RanksBelow(gp, xs + ys, lp)
    ensures SameOfTwo(e, gp, gn, xs + ys, BestOf(gp, xs + ys, 0, lp, s), l, r, BestOf(gn, [l, r], 0, ln, s'))
  {
    BestOfConcat(gp, xs, ys, 0, lp, s);
    assert gn.rank[[l, r][0]] < ln && gn.rank[[l, r][1]] < ln;
    TwoOf(gn, l, r, ln, s');
  }

  lemma TwoOf<N>(g: Graph<N>, a: N, b: N, level: nat, avoid: set<N>)
    requires g.Valid() && a in g.succ && b in g.succ && g.rank[a] < level && g.rank[b] < level
    ensures var x, y, o := Best(g, a, avoid), Best(g, b, avoid), BestOf(g, [a, b], 0, level, avoid);
            if x.Found? then o == Found([0] + x.path) && o.path[1..] == x.path
            else if y.Found? then o == Found([1] + y.path) && o.path[1..] == y.path
            else o == NotFound
  {
    assert BestOf(g, [a, b], 2, level, avoid) == NotFound;
  }

  // A dispatched head: the arms its case keeps, against the chain below it.
  lemma HeadSame(e: Env, gp: Graph<Node>, gn: Graph<Node>, p: Proof, memo: bool, n: Node, s: set<Node>, s': set<Node>)
    requires Ready(e, gp, gn, p, memo, s, s') && e.Live(n) && n.pc in e.plan.heads && n !in s && n in gp.succ
    requires n in gn.succ
    ensures SamePath(e, gp, gn, n, Best(gp, n, s), n, Best(gn, n, s'))
    decreases |gp.guarded - s|, gp.rank[n], 1 + TreeSize(p.trees[n.pc])
  {
    var t := p.trees[n.pc];
    var l, r := At(t.left.pc, n.pos), At(t.right.pc, n.pos);
    Shrinks(gp, n, s);
    HeadEdges(e, gp, p, n);
    HeadGuarded(e, memo, n);
    HeadSubtree(e, gn, p, memo, n, s, s');
    ForkEdges(e, gn, t, n.pos);
    EdgesBelow(gn, n, l, r);
    WithPaired(e, gp, gn, p, memo, n, s, s');
    BothSame(e, gp, gn, p, memo, n.pc, t.left, t.right, n.pos, gp.Level(n), gn.Level(n), gp.With(s, n), gn.With(s', n));
    HeadPath(e, gp, gn, n, l, r, s, s');
  }

  // The head itself is on both paths.
  lemma HeadPath(e: Env, gp: Graph<Node>, gn: Graph<Node>, n: Node, l: Node, r: Node, s: set<Node>, s': set<Node>)
    requires gp.Valid() && gn.Valid() && n in gp.succ && n in gn.succ && n !in s && n !in s' && n !in gp.goals
    requires n !in gn.goals
    requires gn.succ[n] == [l, r] && n.pc !in e.plan.dead
    requires SameOfTwo(e, gp, gn, gp.succ[n], BestOf(gp, gp.succ[n], 0, gp.Level(n), gp.With(s, n)), l, r,
                       BestOf(gn, [l, r], 0, gn.Level(n), gn.With(s', n)))
    ensures SamePath(e, gp, gn, n, Best(gp, n, s), n, Best(gn, n, s'))
  {
    var a, b := Best(gp, n, s), Best(gn, n, s');
    if b.Found? {
      assert Nodes(gn, n, b.path)[1..] == Nodes(gn, [l, r][b.path[0]], b.path[1..]);
    }
  }

  lemma HeadEdges(e: Env, gp: Graph<Node>, p: Proof, n: Node)
    requires Walks(e, gp) && PlanOk(e.prog, e.plan, p) && e.Live(n) && n.pc in e.plan.heads && n in gp.succ
    ensures var t, c := p.trees[n.pc], e.NextByte(n.pos);
            var xs, ys := NodesAt(Kept(t.left, c, p.first), n.pos), NodesAt(Kept(t.right, c, p.first), n.pos);
            && t.Fork? && t.pc == n.pc && ChainOf(e.prog, t) && n !in gp.goals && gp.succ[n] == xs + ys
            && RanksBelow(gp, xs, gp.Level(n)) && RanksBelow(gp, ys, gp.Level(n))
  {
    var t, c := p.trees[n.pc], e.NextByte(n.pos);
    assert HeadOk(e.prog, e.plan, p, n.pc);
    HeadArms(e, p, n);
    HeadBelow(gp, n, NodesAt(Kept(t, c, p.first), n.pos));
    KeptSplit(gp, t, c, p.first, n.pos, gp.Level(n));
  }

  lemma HeadArms(e: Env, p: Proof, n: Node)
    requires e.Valid() && e.Live(n) && n.pc in e.plan.heads && n.pc in p.trees && HeadOk(e.prog, e.plan, p, n.pc)
    ensures e.Succ(n) == NodesAt(Kept(p.trees[n.pc], e.NextByte(n.pos), p.first), n.pos)
  {
    var c, d := e.NextByte(n.pos), e.plan.heads[n.pc];
    assert 0 <= c <= END_OF_INPUT;
    assert ArmsAt(d, d.cases[d.caseOf[c]]) == Kept(p.trees[n.pc], c, p.first);
  }

  lemma HeadBelow(g: Graph<Node>, n: Node, ms: seq<Node>)
    requires g.Valid() && n in g.succ && g.succ[n] == ms
    ensures RanksBelow(g, ms, g.Level(n))
  {
    assert forall j :: 0 <= j < |ms| ==> ms[j] == g.succ[n][j];
  }

  lemma HeadSubtree(e: Env, gn: Graph<Node>, p: Proof, memo: bool, n: Node, s: set<Node>, s': set<Node>)
    requires e.Valid() && PlanOk(e.prog, e.plan, p) && Paired(e, p, s, s') && e.Live(n) && n.pc in e.plan.heads
    requires n !in s
    requires memo ==> n in gn.guarded
    ensures var t := p.trees[n.pc];
            && n !in s' && t.Fork?
            && Subtree(e, p, memo, n.pc, t.left, n.pos, gn.With(s', n))
            && Subtree(e, p, memo, n.pc, t.right, n.pos, gn.With(s', n))
  {
    var t := p.trees[n.pc];
    assert HeadOk(e.prog, e.plan, p, n.pc);
    assert n !in s' by {
      NotAhead(e, p, s, s', n, n);
    }
    HeadArmsLive(e.prog, e.plan, p, n.pc);
    var now := gn.With(s', n);
    forall q | q in Inner(t) ensures At(q, n.pos) !in now {
      NotAhead(e, p, s, s', n, At(q, n.pos));
    }
    HeadSides(e, p, memo, t, n.pos, now);
  }

  lemma HeadGuarded(e: Env, memo: bool, n: Node)
    requires e.Valid() && e.Live(n) && n.pc in e.plan.heads
    ensures n in AltStates(Plain(e))
  {
  }

  // Before its head is entered, no inner Alt of a chain is on the plain path.
  lemma NotAhead(e: Env, p: Proof, s: set<Node>, s': set<Node>, n: Node, x: Node)
    requires Paired(e, p, s, s') && n !in s && n.pc !in e.plan.dead
    requires x == n || (x.pc in e.plan.dead && x.pos == n.pos && (x.pc in p.owner ==> p.owner[x.pc] == n.pc))
    ensures x !in s'
  {
    assert At(n.pc, n.pos) == n;
  }

  lemma HeadArmsLive(prog: Prog, plan: Plan, p: Proof, h: nat)
    requires ValidPlan(plan, prog) && h in plan.heads && h in p.trees && HeadOk(prog, plan, p, h)
    ensures forall i :: 0 <= i < |Arms(p.trees[h])| ==>
              Arms(p.trees[h])[i] !in plan.dead && Arms(p.trees[h])[i] < |prog|
  {
    var d := plan.heads[h];
    forall i | 0 <= i < |d.arms| ensures d.arms[i] !in plan.dead && d.arms[i] < |prog| {
    }
  }

  lemma HeadSides(e: Env, p: Proof, memo: bool, t: Tree, pos: nat, now: set<Node>)
    requires t.Fork? && ChainOf(e.prog, t) && Unrepeated(t) && e.first <= pos <= e.limit &&
             (memo ==> At(t.pc, pos) in now)
    requires forall q :: q in Inner(t) ==> q in e.plan.dead && q in p.owner && p.owner[q] == t.pc
    requires forall q :: q in Inner(t) ==> At(q, pos) !in now
    requires forall i :: 0 <= i < |Arms(t)| ==> Arms(t)[i] !in e.plan.dead && Arms(t)[i] < |e.prog|
    ensures Subtree(e, p, memo, t.pc, t.left, pos, now) && Subtree(e, p, memo, t.pc, t.right, pos, now)
  {
    ArmsSplit(t);
  }

  // ---- The answers ----

  lemma {:induction false} TrimKeeps(e: Env, dead: set<nat>, nodes: seq<Node>, caps: seq<int>)
    requires |caps| == e.slots && nodes != [] && nodes[|nodes| - 1].pc !in dead
    requires forall q :: q in dead ==> q < |e.prog| && e.prog[q].Alt?
    ensures var t := Trim(nodes, dead);
            t != [] && t[|t| - 1] == nodes[|nodes| - 1] && Capturing(e, t, caps) == Capturing(e, nodes, caps)
  {
    if |nodes| > 1 {
      TrimKeeps(e, dead, nodes[1..], Touch(e, nodes[0], caps));
    }
    if nodes[0].pc !in dead {
      assert Trim(nodes, dead)[1..] == Trim(nodes[1..], dead);
    }
  }

  lemma {:induction false} PathEndsAtGoal<N>(g: Graph<N>, n: N, cs: seq<nat>, avoid: set<N>)
    requires Simple(g, n, cs, avoid)
    ensures Nodes(g, n, cs)[|Nodes(g, n, cs)| - 1] in g.goals
    decreases |cs|
  {
    if n !in g.goals {
      PathEndsAtGoal(g, g.succ[n][cs[0]], cs[1..], g.With(avoid, n));
    }
  }

  lemma {:induction false} CapturingIgnoresPlan(e: Env, nodes: seq<Node>, caps: seq<int>)
    requires |caps| == e.slots
    ensures Capturing(e, nodes, caps) == Capturing(Plain(e), nodes, caps)
  {
    if nodes != [] {
      CapturingIgnoresPlan(e, nodes[1..], Touch(e, nodes[0], caps));
    }
  }

  // A trimmed path ends where the whole one does and captures the same.
  lemma TrimmedResult(e: Env, gp: Graph<Node>, gn: Graph<Node>, start: Node, a: Found, b: Found, caps: seq<int>)
    requires |caps| == e.slots && SamePath(e, gp, gn, start, a, start, b)
    requires b.Found? ==> var nodes := Nodes(gn, start, b.path); nodes[|nodes| - 1].pc !in e.plan.dead
    requires forall q :: q in e.plan.dead ==> q < |e.prog| && e.prog[q].Alt?
    ensures ResultOf(e, gp, start, a, caps) == ResultOf(Plain(e), gn, start, b, caps)
  {
    if b.Found? {
      var nodes := Nodes(gn, start, b.path);
      TrimKeeps(e, e.plan.dead, nodes, caps);
      CapturingIgnoresPlan(e, nodes, caps);
    }
  }

  lemma BestEndsAlive(e: Env, gn: Graph<Node>, p: Proof, start: Node)
    requires Walks(Plain(e), gn) && PlanOk(e.prog, e.plan, p) && start in gn.succ && Best(gn, start, {}).Found?
    ensures var nodes := Nodes(gn, start, Best(gn, start, {}).path); nodes[|nodes| - 1].pc !in e.plan.dead
  {
    var b := Best(gn, start, {});
    BestIsLeast(gn, start, {});
    PathEndsAtGoal(gn, start, b.path, {});
    var nodes := Nodes(gn, start, b.path);
    assert Plain(e).Accepts(nodes[|nodes| - 1]);
  }

  // Dispatching finds the end and the captures the plain program finds.
  lemma DispatchSameResult(e: Env, gp: Graph<Node>, gn: Graph<Node>, p: Proof, memo: bool, start: Node, caps: seq<int>)
    requires Setup(e, gp, gn, p, memo) && e.Live(start) && |caps| == e.slots
    ensures start in gp.succ && start in gn.succ
    ensures ResultOf(e, gp, start, Best(gp, start, {}), caps)
            == ResultOf(Plain(e), gn, start, Best(gn, start, {}), caps)
  {
    SameBestPath(e, gp, gn, p, memo, start, {}, {});
    if Best(gn, start, {}).Found? {
      BestEndsAlive(e, gn, p, start);
    }
    TrimmedResult(e, gp, gn, start, Best(gp, start, {}), Best(gn, start, {}), caps);
  }

  // The arms' ranks fall with their chain's, so a dispatched program has a zero-width rank when the plain one has.
  lemma {:induction false} ArmsRank(prog: Prog, t: Tree, zero: seq<nat>)
    requires ZeroRanked(prog, NO_PLAN, zero) && ChainOf(prog, t)
    ensures forall i :: 0 <= i < |Arms(t)| ==> Arms(t)[i] < |prog| && zero[Arms(t)[i]] <= zero[t.pc]
    ensures t.Fork? ==> forall i :: 0 <= i < |Arms(t)| ==> zero[Arms(t)[i]] < zero[t.pc]
  {
    if t.Fork? {
      ArmsRank(prog, t.left, zero);
      ArmsRank(prog, t.right, zero);
      assert prog[t.pc].Edges()[0] == t.left.pc && prog[t.pc].Edges()[1] == t.right.pc;
      assert t.left.pc < |prog| && t.right.pc < |prog|;
    }
  }

  lemma DispatchedRank(prog: Prog, plan: Plan, p: Proof, zero: seq<nat>)
    requires PlanOk(prog, plan, p) && ZeroRanked(prog, NO_PLAN, zero)
    ensures ZeroRanked(prog, plan, zero)
  {
    forall h, i | h in plan.heads && 0 <= i < |plan.heads[h].arms| ensures zero[plan.heads[h].arms[i]] < zero[h] {
      assert HeadOk(prog, plan, p, h);
      ArmsRank(prog, p.trees[h], zero);
    }
  }
}
