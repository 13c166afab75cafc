/** The shape regexp/syntax gives a program, and how a caller can tell: every cycle passes through an alternation. */
module ChainWalk {
  import opened BtProgram
  import opened WorkBudget

  // A walk along edges out of instructions that are not alternations.
  ghost predicate IsForkFreeWalk(prog: Prog, walk: seq<nat>) {
    && walk != [] && forall i :: 0 <= i < |walk| - 1 ==>
         walk[i] < |prog| && !prog[walk[i]].IsAlt() && walk[i + 1] in prog[walk[i]].Edges()
  }

  ghost predicate IsForkFreeCycle(prog: Prog, walk: seq<nat>) {
    IsForkFreeWalk(prog, walk) && |walk| > 1 && walk[0] == walk[|walk| - 1]
  }

  ghost predicate EveryCycleForks(prog: Prog) {
    forall walk :: !IsForkFreeCycle(prog, walk)
  }

  // ---- Following the one edge of each instruction ----

  predicate Stops(prog: Prog, pc: nat) {
    pc >= |prog| || prog[pc].IsAlt() || prog[pc].Edges() == []
  }

  // The edges taken before an alternation or a dead end, at most fuel of them.
  function Follow(prog: Prog, pc: nat, fuel: nat): (k: nat)
    ensures k <= fuel
    decreases fuel
  {
    if fuel == 0 || Stops(prog, pc) then 0 else 1 + Follow(prog, prog[pc].Edges()[0], fuel - 1)
  }

  function Chain(prog: Prog): (chain: seq<nat>)
    ensures |chain| == |prog| && forall pc :: 0 <= pc < |prog| ==> chain[pc] == Follow(prog, pc, |prog|)
  {
    seq(|prog|, pc requires 0 <= pc < |prog| => Follow(prog, pc, |prog|))
  }

  lemma {:induction false} MoreFuel(prog: Prog, pc: nat, less: nat, more: nat)
    requires Follow(prog, pc, less) < less <= more
    ensures Follow(prog, pc, more) == Follow(prog, pc, less)
    decreases less
  {
    if !Stops(prog, pc) {
      MoreFuel(prog, prog[pc].Edges()[0], less - 1, more - 1);
    }
  }

  lemma OneEdge(prog: Prog, pc: nat, k: nat)
    requires pc < |prog| && !prog[pc].IsAlt() && k < |prog[pc].Edges()| && Follow(prog, pc, |prog|) < |prog|
    ensures Follow(prog, prog[pc].Edges()[k], |prog|) < Follow(prog, pc, |prog|)
  {
    var next := prog[pc].Edges()[0];
    assert k == 0 && !Stops(prog, pc) && Follow(prog, pc, |prog|) == 1 + Follow(prog, next, |prog| - 1);
    MoreFuel(prog, next, |prog| - 1, |prog|);
  }

  lemma StoppingIsRanked(prog: Prog)
    requires forall pc :: 0 <= pc < |prog| ==> Follow(prog, pc, |prog|) < |prog|
    ensures ChainRanked(prog, Chain(prog))
  {
    forall pc, k | 0 <= pc < |prog| && !prog[pc].IsAlt() && 0 <= k < |prog[pc].Edges()| && prog[pc].Edges()[k] < |prog|
      ensures Chain(prog)[prog[pc].Edges()[k]] < Chain(prog)[pc]
    {
      OneEdge(prog, pc, k);
    }
  }

  lemma {:induction false} Trail(prog: Prog, pc: nat, fuel: nat) returns (walk: seq<nat>)
    requires Follow(prog, pc, fuel) == fuel
    ensures IsForkFreeWalk(prog, walk) && |walk| == fuel + 1 && walk[0] == pc
    decreases fuel
  {
    walk := [pc];
    if fuel > 0 {
      var rest := Trail(prog, prog[pc].Edges()[0], fuel - 1);
      walk := [pc] + rest;
    }
  }

  // More values than there are, so one comes twice.
  lemma {:induction false} Pigeonhole(s: seq<nat>, n: nat) returns (i: nat, j: nat)
    requires |s| > n && forall k :: 0 <= k < |s| ==> s[k] < n
    ensures i < j < |s| && s[i] == s[j]
    decreases n
  {
    var k :| 0 <= k < |s| && (s[k] == n - 1 || (k == 0 && n - 1 !in s));
    var rest := s[..k] + s[k + 1..];
    if s[k] in rest {
      var at :| 0 <= at < |rest| && rest[at] == s[k];
      i, j := if at < k then at else k, if at < k then k else at + 1;
    } else {
      i, j := Pigeonhole(rest, n - 1);
      i, j := if i < k then i else i + 1, if j < k then j else j + 1;
    }
  }

  // An instruction that never stops lies before a cycle without an alternation.
  lemma EndlessCycles(prog: Prog, slots: nat, pc: nat) returns (cycle: seq<nat>)
    requires ValidProg(prog, slots) && pc < |prog| && Follow(prog, pc, |prog|) == |prog|
    ensures IsForkFreeCycle(prog, cycle)
  {
    var walk := Trail(prog, pc, |prog|);
    forall k | 0 <= k < |walk| ensures walk[k] < |prog| {
      assert k > 0 ==> walk[k - 1] < |prog| && walk[k] in prog[walk[k - 1]].Edges();
    }
    var i, j := Pigeonhole(walk, |prog|);
    cycle := walk[i..j + 1];
    forall k | 0 <= k < |cycle| - 1
      ensures cycle[k] < |prog| && !prog[cycle[k]].IsAlt() && cycle[k + 1] in prog[cycle[k]].Edges()
    {
      assert cycle[k] == walk[i + k] && cycle[k + 1] == walk[i + k + 1];
    }
  }

  lemma {:induction false} ChainFallsAlong(prog: Prog, slots: nat, chain: seq<nat>, walk: seq<nat>)
    requires ValidProg(prog, slots) && ChainRanked(prog, chain) && IsForkFreeWalk(prog, walk) && walk[0] < |prog|
    ensures walk[|walk| - 1] < |prog| && chain[walk[|walk| - 1]] + |walk| - 1 <= chain[walk[0]]
    decreases |walk|
  {
    if |walk| > 1 {
      var init := walk[..|walk| - 1];
      ChainFallsAlong(prog, slots, chain, init);
      var a, b := walk[|walk| - 2], walk[|walk| - 1];
      assert init[|init| - 1] == a;
      var k :| 0 <= k < |prog[a].Edges()| && prog[a].Edges()[k] == b;
    }
  }

  // The rank exists exactly when every cycle passes through an alternation.
  lemma RankedIffEveryCycleForks(prog: Prog, slots: nat)
    requires ValidProg(prog, slots)
    ensures EveryCycleForks(prog) <==> ChainRanked(prog, Chain(prog))
    ensures EveryCycleForks(prog) <==> exists chain :: ChainRanked(prog, chain)
  {
    if EveryCycleForks(prog) {
      forall pc | 0 <= pc < |prog| ensures Follow(prog, pc, |prog|) < |prog| {
        if Follow(prog, pc, |prog|) == |prog| {
          var cycle := EndlessCycles(prog, slots, pc);
        }
      }
      StoppingIsRanked(prog);
    }
    if chain :| ChainRanked(prog, chain) {
      forall walk ensures !IsForkFreeCycle(prog, walk) {
        if IsForkFreeCycle(prog, walk) {
          ChainFallsAlong(prog, slots, chain, walk);
        }
      }
    }
  }

  // How a caller tells.
  method CyclesFork(prog: Prog, slots: nat) returns (ok: bool)
    requires ValidProg(prog, slots)
    ensures ok <==> EveryCycleForks(prog)
  {
    RankedIffEveryCycleForks(prog, slots);
    for pc := 0 to |prog|
      invariant forall q :: 0 <= q < pc ==> Follow(prog, q, |prog|) < |prog|
    {
      var at: nat, steps: nat := pc, 0;
      while steps < |prog| && !Stops(prog, at)
        invariant 0 <= steps <= |prog| && Follow(prog, pc, |prog|) == steps + Follow(prog, at, |prog| - steps)
      {
        at, steps := prog[at].Edges()[0], steps + 1;
      }
      if steps == |prog| {
        ghost var cycle := EndlessCycles(prog, slots, pc);
        return false;
      }
    }
    StoppingIsRanked(prog);
    ok := true;
  }
}
