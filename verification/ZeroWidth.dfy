/** progHasZeroWidthCycle: which programs the ordinary body may run, and why it then terminates. */
module ZeroWidth {
  import opened BtProgram
  import opened WorkBudget

  // Successors that consume nothing.
  function ZeroEdges(prog: Prog, pc: nat): seq<nat>
    requires pc < |prog|
  {
    if prog[pc].Consumes() then [] else prog[pc].Edges()
  }

  // A walk along zero-width edges.
  ghost predicate IsZeroWalk(prog: Prog, walk: seq<nat>) {
    && walk != [] && (forall i :: 0 <= i < |walk| ==> walk[i] < |prog|)
    && forall i :: 0 <= i < |walk| - 1 ==> walk[i + 1] in ZeroEdges(prog, walk[i])
  }

  ghost predicate IsZeroCycle(prog: Prog, walk: seq<nat>) {
    IsZeroWalk(prog, walk) && |walk| > 1 && walk[0] == walk[|walk| - 1]
  }

  ghost predicate HasZeroCycle(prog: Prog) {
    exists walk :: IsZeroCycle(prog, walk)
  }

  lemma {:induction false} RankFallsAlong(prog: Prog, zero: seq<nat>, walk: seq<nat>)
    requires ZeroRanked(prog, NO_PLAN, zero) && IsZeroWalk(prog, walk)
    ensures zero[walk[|walk| - 1]] + |walk| - 1 <= zero[walk[0]]
  {
    if |walk| > 1 {
      var init := walk[..|walk| - 1];
      RankFallsAlong(prog, zero, init);
      var a, b := walk[|walk| - 2], walk[|walk| - 1];
      assert b in ZeroEdges(prog, a);
      var k :| 0 <= k < |prog[a].Edges()| && prog[a].Edges()[k] == b;
    }
  }

  // A ranked program has no zero-width cycle.
  lemma RankedHasNoCycle(prog: Prog, zero: seq<nat>, walk: seq<nat>)
    requires ZeroRanked(prog, NO_PLAN, zero)
    ensures !IsZeroCycle(prog, walk)
  {
    if IsZeroCycle(prog, walk) {
      RankFallsAlong(prog, zero, walk);
    }
  }

  // ---- The colouring walk ----

  datatype Colour = Unseen | OnPath | Done

  ghost predicate Coloured(prog: Prog, state: seq<Colour>, path: seq<nat>, zero: seq<nat>, next: nat) {
    && |state| == |zero| == |prog|
    && (path != [] ==> IsZeroWalk(prog, path))
    && (forall pc :: 0 <= pc < |prog| ==> (state[pc].OnPath? <==> pc in path))
    && (forall pc :: 0 <= pc < |prog| && state[pc].Done? ==> zero[pc] < next)
    && (forall pc, k ::
          0 <= pc < |prog| && state[pc].Done? && 0 <= k < |ZeroEdges(prog, pc)| && ZeroEdges(prog, pc)[k] < |prog| ==>
          state[ZeroEdges(prog, pc)[k]].Done? && zero[ZeroEdges(prog, pc)[k]] < zero[pc])
  }

  ghost function UnseenOf(state: seq<Colour>): set<nat> {
    set pc: nat | pc < |state| && state[pc].Unseen?
  }

  // What a walk leaves behind: finished instructions stay finished, and none becomes unseen again.
  ghost predicate Progress(before: seq<Colour>, after: seq<Colour>) {
    && |before| == |after|
    && (forall pc :: 0 <= pc < |before| && before[pc].Done? ==> after[pc].Done?)
    && (forall pc :: 0 <= pc < |before| && after[pc].Unseen? ==> before[pc].Unseen?)
  }

  lemma Enter(prog: Prog, state: seq<Colour>, path: seq<nat>, zero: seq<nat>, next: nat, pc: nat)
    requires Coloured(prog, state, path, zero, next) && pc < |prog| && state[pc].Unseen?
    requires path != [] ==> pc in ZeroEdges(prog, path[|path| - 1])
    ensures Coloured(prog, state[pc := OnPath], path + [pc], zero, next)
    ensures UnseenOf(state[pc := OnPath]) < UnseenOf(state)
  {
    assert pc in UnseenOf(state) && pc !in UnseenOf(state[pc := OnPath]);
  }

  lemma Leave(prog: Prog, state: seq<Colour>, path: seq<nat>, zero: seq<nat>, next: nat, pc: nat)
    requires Coloured(prog, state, path + [pc], zero, next) && pc < |prog| && pc !in path
    requires forall j :: 0 <= j < |ZeroEdges(prog, pc)| ==>
               ZeroEdges(prog, pc)[j] < |prog| && state[ZeroEdges(prog, pc)[j]].Done?
    ensures Coloured(prog, state[pc := Done], path, zero[pc := next], next + 1)
  {
    assert pc in path + [pc];
    assert forall x :: x in path + [pc] <==> x in path || x == pc;
    if path != [] {
      assert forall i :: 0 <= i < |path| ==> (path + [pc])[i] == path[i];
    }
  }

  lemma CloseCycle(prog: Prog, here: seq<nat>, to: nat) returns (cycle: seq<nat>)
    requires IsZeroWalk(prog, here) && to in here && to in ZeroEdges(prog, here[|here| - 1])
    ensures IsZeroCycle(prog, cycle)
  {
    var i :| 0 <= i < |here| && here[i] == to;
    cycle := here[i..] + [to];
  }

  method Visit(prog: Prog, slots: nat, pc: nat, state0: seq<Colour>, ghost path: seq<nat>, ghost zero0: seq<nat>,
               ghost next0: nat)
    returns (found: bool, state: seq<Colour>, ghost zero: seq<nat>, ghost next: nat, ghost cycle: seq<nat>)
    requires ValidProg(prog, slots) && Coloured(prog, state0, path, zero0, next0)
    requires pc < |prog| && state0[pc].Unseen? && (path != [] ==> pc in ZeroEdges(prog, path[|path| - 1]))
    ensures found ==> IsZeroCycle(prog, cycle)
    ensures !found ==> Coloured(prog, state, path, zero, next) && Progress(state0, state) && state[pc].Done?
    decreases UnseenOf(state0), 0
  {
    Enter(prog, state0, path, zero0, next0, pc);
    ghost var entered, here := state0[pc := OnPath], path + [pc];
    state, zero, next, cycle := state0[pc := OnPath], zero0, next0, [];
    var edges := ZeroEdges(prog, pc);
    for k := 0 to |edges|
      invariant Coloured(prog, state, here, zero, next) && Progress(entered, state)
      invariant forall j :: 0 <= j < k ==> edges[j] < |prog| && state[edges[j]].Done?
    {
      assert edges[k] < |prog| && UnseenOf(state) <= UnseenOf(entered);
      found, state, zero, next, cycle := Follow(prog, slots, edges[k], state, here, zero, next);
      if found {
        return;
      }
    }
    Leave(prog, state, path, zero, next, pc);
    state, zero, next, found := state[pc := Done], zero[pc := next], next + 1, false;
  }

  // One edge: a cycle when it closes the path, a visit when its target is new.
  method Follow(prog: Prog, slots: nat, to: nat, state0: seq<Colour>, ghost here: seq<nat>, ghost zero0: seq<nat>,
                ghost next0: nat)
    returns (found: bool, state: seq<Colour>, ghost zero: seq<nat>, ghost next: nat, ghost cycle: seq<nat>)
    requires ValidProg(prog, slots) && Coloured(prog, state0, here, zero0, next0)
    requires here != [] && to < |prog| && to in ZeroEdges(prog, here[|here| - 1])
    ensures found ==> IsZeroCycle(prog, cycle)
    ensures !found ==> Coloured(prog, state, here, zero, next) && Progress(state0, state) && state[to].Done?
    decreases UnseenOf(state0), 1
  {
    found, state, zero, next, cycle := false, state0, zero0, next0, [];
    if state[to].OnPath? {
      cycle := CloseCycle(prog, here, to);
      found := true;
    } else if state[to].Unseen? {
      found, state, zero, next, cycle := Visit(prog, slots, to, state, here, zero, next);
    }
  }

  method HasZeroWidthCycle(prog: Prog, slots: nat) returns (found: bool, ghost zero: seq<nat>, ghost cycle: seq<nat>)
    requires ValidProg(prog, slots)
    ensures found <==> HasZeroCycle(prog)
    ensures found ==> IsZeroCycle(prog, cycle)
    ensures !found ==> ZeroRanked(prog, NO_PLAN, zero)
  {
    var state := seq(|prog|, _ => Unseen);
    zero, cycle := seq(|prog|, _ => 0), [];
    ghost var next := 0;
    for pc := 0 to |prog|
      invariant Coloured(prog, state, [], zero, next) && forall j :: 0 <= j < pc ==> state[j].Done?
    {
      if state[pc].Unseen? {
        var f, s;
        f, s, zero, next, cycle := Visit(prog, slots, pc, state, [], zero, next);
        if f {
          return true, zero, cycle;
        }
        state := s;
      }
    }
    found := false;
    assert forall pc :: 0 <= pc < |prog| && !prog[pc].Consumes() ==> ZeroEdges(prog, pc) == prog[pc].Edges();
    forall walk ensures !IsZeroCycle(prog, walk) {
      RankedHasNoCycle(prog, zero, walk);
    }
  }
}
