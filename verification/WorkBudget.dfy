/** What a budgeted ordinary call can cost: charges, stack depth and executed instructions are linear in the span. */
module WorkBudget {
  import opened BtProgram
  import opened BtMachine

  // ---- What the program's shape gives ----

  // Every cycle passes through an alternation: chain falls along every edge out of any other instruction.
  ghost predicate ChainRanked(prog: Prog, chain: seq<nat>) {
    && |chain| == |prog| && (forall pc :: 0 <= pc < |prog| ==> chain[pc] < |prog|)
    && forall pc, k ::
         0 <= pc < |prog| && !prog[pc].IsAlt() && 0 <= k < |prog[pc].Edges()| && prog[pc].Edges()[k] < |prog| ==>
         chain[prog[pc].Edges()[k]] < chain[pc]
  }

  // No zero-width cycle: zero falls along every edge that consumes nothing, a dispatch's included.
  ghost predicate ZeroRanked(prog: Prog, plan: Plan, zero: seq<nat>) {
    && |zero| == |prog|
    && (forall pc, k ::
          0 <= pc < |prog| && !prog[pc].Consumes() && 0 <= k < |prog[pc].Edges()| && prog[pc].Edges()[k] < |prog| ==>
          zero[prog[pc].Edges()[k]] < zero[pc])
    && (forall h, i ::
          h in plan.heads && h < |prog| && 0 <= i < |plan.heads[h].arms| && plan.heads[h].arms[i] < |prog| ==>
          zero[plan.heads[h].arms[i]] < zero[h])
  }

  // The most frames one visit of pc can push.
  function Weight(prog: Prog, plan: Plan, pc: nat): nat
    requires pc < |prog|
  {
    if pc in plan.dead then 0
    else if pc in plan.heads then (if |plan.heads[pc].arms| > 0 then |plan.heads[pc].arms| - 1 else 0)
    else if prog[pc].IsAlt() then 1 else 0
  }

  // The weights of the first n instructions whose zero-width rank is at least z.
  function WeightAbove(prog: Prog, plan: Plan, zero: seq<nat>, z: nat, n: nat): nat
    requires n <= |prog| == |zero|
  {
    if n == 0 then 0
    else WeightAbove(prog, plan, zero, z, n - 1) + if zero[n - 1] >= z then Weight(prog, plan, n - 1) else 0
  }

  function TotalWeight(prog: Prog, plan: Plan, n: nat): nat
    requires n <= |prog|
  {
    if n == 0 then 0 else TotalWeight(prog, plan, n - 1) + Weight(prog, plan, n - 1)
  }

  lemma {:induction false} WeightFalls(prog: Prog, plan: Plan, zero: seq<nat>, lo: nat, hi: nat, pc: nat, n: nat)
    requires n <= |prog| == |zero| && lo < hi
    ensures WeightAbove(prog, plan, zero, hi, n) <= WeightAbove(prog, plan, zero, lo, n)
    ensures pc < n && zero[pc] == lo ==>
              WeightAbove(prog, plan, zero, hi, n) + Weight(prog, plan, pc) <= WeightAbove(prog, plan, zero, lo, n)
  {
    if n > 0 {
      WeightFalls(prog, plan, zero, lo, hi, pc, n - 1);
    }
  }

  lemma {:induction false} WeightTotal(prog: Prog, plan: Plan, zero: seq<nat>, z: nat, n: nat)
    requires n <= |prog| == |zero|
    ensures WeightAbove(prog, plan, zero, z, n) <= TotalWeight(prog, plan, n)
  {
    if n > 0 {
      WeightTotal(prog, plan, zero, z, n - 1);
    }
  }

  lemma Times(a: nat, b: nat, w: nat)
    requires a <= b
    ensures a * w <= b * w && (a + 1) * w == a * w + w && w * a <= w * b && w * (a + 1) == w * a + w
  {
  }

  // ---- Stack depth ----

  // The frames of so many rows, each instruction pushing all it can on every row.
  function FullRows(e: Env, rows: nat): nat {
    rows * TotalWeight(e.prog, e.plan, |e.prog|)
  }

  // The most frames that can lie below a state on one path.
  ghost function Room(e: Env, zero: seq<nat>, n: Node): nat
    requires |zero| == |e.prog| && e.Has(n)
  {
    FullRows(e, n.pos - e.first) + WeightAbove(e.prog, e.plan, zero, zero[n.pc] + 1, |e.prog|)
  }

  ghost predicate DepthOk(e: Env, zero: seq<nat>, m: Machine)
    requires e.Valid() && InState(e, m) && |zero| == |e.prog|
  {
    && (forall i :: 0 <= i < |m.stack| ==> i <= Room(e, zero, m.stack[i].node))
    && (m.pc >= 0 ==> |m.stack| <= Room(e, zero, At(m.pc, m.pos)))
    && |m.stack| <= FullRows(e, e.limit - e.first + 1)
  }

  lemma RoomBound(e: Env, zero: seq<nat>, n: Node)
    requires |zero| == |e.prog| && e.Has(n)
    ensures Room(e, zero, n) <= FullRows(e, e.limit - e.first + 1)
  {
    var w := TotalWeight(e.prog, e.plan, |e.prog|);
    WeightTotal(e.prog, e.plan, zero, zero[n.pc] + 1, |e.prog|);
    Times(n.pos - e.first + 1, e.limit - e.first + 1, w);
    Times(n.pos - e.first, n.pos - e.first, w);
  }

  // A successor has room for everything below this state and the frames this state may push.
  lemma RoomGrows(e: Env, zero: seq<nat>, n: Node, i: nat)
    requires e.Valid() && e.Live(n) && ZeroRanked(e.prog, e.plan, zero) && i < |e.Succ(n)|
    ensures Room(e, zero, n) + |e.Succ(n)| - 1 <= Room(e, zero, e.Succ(n)[i])
  {
    var m := e.Succ(n)[i];
    if m.pos == n.pos {
      assert zero[m.pc] < zero[n.pc];
      assert |e.Succ(n)| - 1 <= Weight(e.prog, e.plan, n.pc);
      RoomBelow(e, zero, n, m);
    } else {
      assert m.pos == n.pos + 1 && |e.Succ(n)| == 1;
      RoomNext(e, zero, n, m);
    }
  }

  lemma RoomBelow(e: Env, zero: seq<nat>, n: Node, m: Node)
    requires |zero| == |e.prog| && e.Has(n) && e.Has(m) && m.pos == n.pos && zero[m.pc] < zero[n.pc]
    ensures Room(e, zero, n) + Weight(e.prog, e.plan, n.pc) <= Room(e, zero, m)
  {
    WeightFalls(e.prog, e.plan, zero, zero[n.pc], zero[n.pc] + 1, n.pc, |e.prog|);
    if zero[m.pc] + 1 < zero[n.pc] {
      WeightFalls(e.prog, e.plan, zero, zero[m.pc] + 1, zero[n.pc], n.pc, |e.prog|);
    }
  }

  lemma RoomNext(e: Env, zero: seq<nat>, n: Node, m: Node)
    requires |zero| == |e.prog| && e.Has(n) && e.Has(m) && m.pos == n.pos + 1
    ensures Room(e, zero, n) <= Room(e, zero, m)
  {
    WeightTotal(e.prog, e.plan, zero, zero[n.pc] + 1, |e.prog|);
    Times(n.pos - e.first, n.pos - e.first, TotalWeight(e.prog, e.plan, |e.prog|));
  }

  lemma {:induction false} PushedDepth(e: Env, zero: seq<nat>, ms: seq<Node>, i: nat, caps: seq<int>,
                                       stack: seq<Frame>, room: nat)
    requires i <= |ms| && |zero| == |e.prog| && |stack| + |ms| <= room + 1
    requires forall j :: 0 <= j < |ms| ==> e.Has(ms[j]) && room <= Room(e, zero, ms[j])
    requires forall j :: 0 <= j < |stack| ==> e.Has(stack[j].node) && j <= Room(e, zero, stack[j].node)
    requires i >= 1
    ensures var s := Pushed(ms, i, caps, stack);
            forall j :: 0 <= j < |s| ==> e.Has(s[j].node) && j <= Room(e, zero, s[j].node)
    decreases |ms| - i
  {
    var s := Pushed(ms, i, caps, stack);
    if i < |ms| {
      PushedDepth(e, zero, ms, i + 1, caps, stack, room);
      forall j | 0 <= j < |s| ensures e.Has(s[j].node) && j <= Room(e, zero, s[j].node) {
        if j == |s| - 1 {
          assert s[j].node == ms[i];
        } else {
          assert s[j] == Pushed(ms, i + 1, caps, stack)[j];
        }
      }
    }
  }

  lemma StepDepth(e: Env, zero: seq<nat>, m: Machine)
    requires e.Valid() && ZeroRanked(e.prog, e.plan, zero) && InState(e, m) && DepthOk(e, zero, m)
    requires m.pc >= 0 && InState(e, StepTo(e, false, m))
    ensures DepthOk(e, zero, StepTo(e, false, m))
  {
    if e.Succ(At(m.pc, m.pos)) != [] {
      ForkDepth(e, zero, At(m.pc, m.pos), Touch(e, At(m.pc, m.pos), m.caps), m.stack);
    }
  }

  lemma ForkDepth(e: Env, zero: seq<nat>, n: Node, caps: seq<int>, stack: seq<Frame>)
    requires e.Valid() && ZeroRanked(e.prog, e.plan, zero) && e.Live(n) && e.Succ(n) != []
    requires |stack| <= Room(e, zero, n) && forall j :: 0 <= j < |stack| ==>
               e.Has(stack[j].node) && j <= Room(e, zero, stack[j].node)
    ensures var s := Pushed(e.Succ(n), 1, caps, stack);
            && |s| <= Room(e, zero, e.Succ(n)[0])
            && |s| <= FullRows(e, e.limit - e.first + 1)
            && forall j :: 0 <= j < |s| ==> e.Has(s[j].node) && j <= Room(e, zero, s[j].node)
  {
    var ms := e.Succ(n);
    forall i | 0 <= i < |ms| ensures Room(e, zero, n) + |ms| - 1 <= Room(e, zero, ms[i]) {
      RoomGrows(e, zero, n, i);
    }
    PushedDepth(e, zero, ms, 1, caps, stack, Room(e, zero, n) + |ms| - 1);
    RoomBound(e, zero, ms[0]);
  }

  lemma GoDepth(e: Env, zero: seq<nat>, m: Machine, m': Machine)
    requires e.Valid() && ZeroRanked(e.prog, e.plan, zero) && Goes(e, false, m, m') && DepthOk(e, zero, m)
    ensures DepthOk(e, zero, m')
  {
    if m.pc >= 0 {
      StepDepth(e, zero, m);
    }
  }

  lemma {:induction false} RunDepth(e: Env, zero: seq<nat>, run: seq<Machine>)
    requires e.Valid() && ZeroRanked(e.prog, e.plan, zero) && IsRun(e, false, run) && run[0].stack == []
    ensures DepthOk(e, zero, run[|run| - 1])
  {
    if |run| > 1 {
      RunDepth(e, zero, run[..|run| - 1]);
      GoDepth(e, zero, run[|run| - 2], run[|run| - 1]);
    }
  }

  // ---- Executed instructions ----

  ghost function Steps(run: seq<Machine>): nat {
    if |run| <= 1 then 0 else Steps(run[..|run| - 1]) + if run[|run| - 2].pc >= 0 then 1 else 0
  }

  ghost function Pops(run: seq<Machine>): nat {
    if |run| <= 1 then 0 else Pops(run[..|run| - 1]) + if run[|run| - 2].pc < 0 then 1 else 0
  }

  ghost function Forks(prog: Prog, run: seq<Machine>): nat {
    if |run| <= 1 then 0
    else
      var m := run[|run| - 2];
      Forks(prog, run[..|run| - 1]) + if 0 <= m.pc < |prog| && prog[m.pc].IsAlt() then 1 else 0
  }

  // Between two pops or forks an instruction is never met twice, so at most |prog| are executed.
  lemma ChainFalls(e: Env, fallback: bool, chain: seq<nat>, m: Machine, m': Machine)
    requires e.Valid() && ChainRanked(e.prog, chain) && Goes(e, fallback, m, m')
    requires m.pc >= 0 && !e.prog[m.pc].IsAlt() && m'.pc >= 0
    ensures chain[m'.pc] < chain[m.pc]
  {
    assert m.pc !in e.plan.heads;
    assert e.Succ(At(m.pc, m.pos)) == [At(m'.pc, m'.pos)];
    assert m'.pc == e.prog[m.pc].Edges()[0];
  }

  // What is still to run before the next pop or fork.
  ghost function Stretch(e: Env, chain: seq<nat>, m: Machine): nat
    requires |chain| == |e.prog|
  {
    if 0 <= m.pc < |chain| then chain[m.pc] + 1 else 0
  }

  lemma {:induction false} StepsPerEvent(e: Env, fallback: bool, chain: seq<nat>, run: seq<Machine>)
    requires e.Valid() && ChainRanked(e.prog, chain) && IsRun(e, fallback, run)
    ensures Steps(run) + Stretch(e, chain, run[|run| - 1]) <= |e.prog| * (Pops(run) + Forks(e.prog, run) + 1)
  {
    if |run| > 1 {
      var init, m, last := run[..|run| - 1], run[|run| - 2], run[|run| - 1];
      StepsPerEvent(e, fallback, chain, init);
      var events := Pops(init) + Forks(e.prog, init);
      Times(events + 1, events + 1, |e.prog|);
      if m.pc >= 0 && !e.prog[m.pc].IsAlt() && last.pc >= 0 {
        ChainFalls(e, fallback, chain, m, last);
      }
    }
  }

  // What one machine charges and pushes. A dispatched head pays for each of its arms once: the one it enters, or the
  // failure's pop; those it pushes, when they are popped; and the others by its charge.
  lemma GoPays(e: Env, m: Machine, m': Machine)
    requires e.Valid() && Goes(e, false, m, m')
    ensures m.pc < 0 ==> ChargeAt(e, m) == 1 && |m'.stack| == |m.stack| - 1
    ensures m.pc >= 0 && !e.prog[m.pc].IsAlt() ==> ChargeAt(e, m) == 0 && |m.stack| <= |m'.stack|
    ensures m.pc >= 0 && e.prog[m.pc].IsAlt() ==> ChargeAt(e, m) >= 0 && |m.stack| + 1 <= |m'.stack| + ChargeAt(e, m)
    ensures m.pc in e.plan.heads ==>
              1 + (|m'.stack| - |m.stack|) + ChargeAt(e, m) == |e.plan.heads[m.pc].arms|
  {
    if m.pc >= 0 {
      var ms := e.Succ(At(m.pc, m.pos));
      assert m.pc in e.plan.heads ==> e.prog[m.pc].Alt?;
      assert m.pc !in e.plan.heads && e.prog[m.pc].IsAlt() ==> |ms| == 2;
    }
  }

  // Every fork pushes a frame or charges the budget.
  lemma {:induction false} ForksArePaid(e: Env, run: seq<Machine>)
    requires e.Valid() && IsRun(e, false, run) && run[0].stack == []
    ensures Forks(e.prog, run) <= Charged(e, false, run) + |run[|run| - 1].stack|
    ensures Pops(run) <= Charged(e, false, run)
  {
    if |run| > 1 {
      ForksArePaid(e, run[..|run| - 1]);
      GoPays(e, run[|run| - 2], run[|run| - 1]);
    }
  }

  // The whole cost of a budgeted call, before its trip or its answer.
  lemma CallCost(e: Env, zero: seq<nat>, chain: seq<nat>, run: seq<Machine>, budget: nat)
    requires e.Valid() && ZeroRanked(e.prog, e.plan, zero) && ChainRanked(e.prog, chain)
    requires IsRun(e, false, run) && run[0].stack == [] && Charged(e, false, run) < budget
    ensures var depth := FullRows(e, e.limit - e.first + 1);
            && Pops(run) < budget
            && |run[|run| - 1].stack| <= depth
            && Steps(run) <= |e.prog| * (2 * budget + depth)
  {
    RunDepth(e, zero, run);
    StepsPerEvent(e, false, chain, run);
    ForksArePaid(e, run);
    var depth := FullRows(e, e.limit - e.first + 1);
    Times(Pops(run) + Forks(e.prog, run) + 1, 2 * budget + depth, |e.prog|);
  }
}
