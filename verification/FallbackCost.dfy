/** What the memoised body costs: it enters each alternation state once, so it needs no budget and a bounded stack. */
module FallbackCost {
  import opened BtProgram
  import opened BtMachine
  import opened WorkBudget

  // ---- The frames the marks have paid for ----

  // What the marked states of one row can push, of the first n instructions.
  function RowPaid(e: Env, marks: set<Node>, pos: nat, n: nat): nat
    requires n <= |e.prog|
  {
    if n == 0 then 0 else RowPaid(e, marks, pos, n - 1) + if At(n - 1, pos) in marks
      then Weight(e.prog, e.plan, n - 1) else 0
  }

  // The same for the first so many rows of the window.
  function RowsPaid(e: Env, marks: set<Node>, rows: nat): nat {
    if rows == 0 then 0 else RowsPaid(e, marks, rows - 1) + RowPaid(e, marks, e.first + rows - 1, |e.prog|)
  }

  function Paid(e: Env, marks: set<Node>): nat
    requires e.first <= e.limit
  {
    RowsPaid(e, marks, e.limit - e.first + 1)
  }

  // The most frames a fallback can ever hold.
  function DepthBound(e: Env): nat
    requires e.first <= e.limit
  {
    FullRows(e, e.limit - e.first + 1)
  }

  lemma {:induction false} RowBounded(e: Env, marks: set<Node>, pos: nat, n: nat)
    requires n <= |e.prog|
    ensures RowPaid(e, marks, pos, n) <= TotalWeight(e.prog, e.plan, n)
  {
    if n > 0 {
      RowBounded(e, marks, pos, n - 1);
    }
  }

  lemma {:induction false} RowsBounded(e: Env, marks: set<Node>, rows: nat)
    ensures RowsPaid(e, marks, rows) <= FullRows(e, rows)
  {
    if rows > 0 {
      RowsBounded(e, marks, rows - 1);
      RowBounded(e, marks, e.first + rows - 1, |e.prog|);
      Times(rows - 1, rows - 1, TotalWeight(e.prog, e.plan, |e.prog|));
    }
  }

  // Marking one more state pays its weight, in its own row and no other.
  lemma {:induction false} RowPays(e: Env, marks: set<Node>, x: Node, pos: nat, n: nat)
    requires n <= |e.prog| && x !in marks
    ensures RowPaid(e, marks + {x}, pos, n)
         == RowPaid(e, marks, pos, n) + if x.pos == pos && x.pc < n then Weight(e.prog, e.plan, x.pc) else 0
  {
    if n > 0 {
      RowPays(e, marks, x, pos, n - 1);
    }
  }

  lemma {:induction false} RowsPay(e: Env, marks: set<Node>, x: Node, rows: nat)
    requires x !in marks && x.pc < |e.prog| && e.first <= x.pos
    ensures RowsPaid(e, marks + {x}, rows)
         == RowsPaid(e, marks, rows) + if x.pos < e.first + rows then Weight(e.prog, e.plan, x.pc) else 0
  {
    if rows > 0 {
      RowsPay(e, marks, x, rows - 1);
      RowPays(e, marks, x, e.first + rows - 1, |e.prog|);
    }
  }

  // ---- One step ----

  // The step passes its guard: a live alternation met for the first time.
  ghost predicate Passing(e: Env, m: Machine) {
    0 <= m.pc < |e.prog| && e.prog[m.pc].IsAlt() && At(m.pc, m.pos) !in m.marks
  }

  // A fallback step pushes no more than the mark it makes has paid for; a pop takes a frame off.
  lemma GoPaid(e: Env, m: Machine, m': Machine)
    requires e.Valid() && Goes(e, true, m, m')
    ensures m.pc < 0 ==> |m'.stack| + 1 == |m.stack| && m'.marks == m.marks
    ensures m.pc >= 0 && !Passing(e, m) ==> m'.stack == m.stack && m'.marks == m.marks
    ensures Passing(e, m) ==> m'.marks == m.marks + {At(m.pc, m.pos)}
    ensures Passing(e, m) ==> Paid(e, m.marks) < Paid(e, m'.marks)
    ensures Passing(e, m) ==> |m'.stack| + Paid(e, m.marks) <= |m.stack| + Paid(e, m'.marks)
  {
    if m.pc >= 0 {
      StepPaid(e, m);
    }
  }

  lemma StepPaid(e: Env, m: Machine)
    requires e.Valid() && InState(e, m) && m.pc >= 0
    ensures var next := StepTo(e, true, m);
            && |next.stack| + Paid(e, m.marks) <= |m.stack| + Paid(e, next.marks)
            && if Passing(e, m) then next.marks == m.marks + {At(m.pc, m.pos)} && Paid(e, m.marks) < Paid(e, next.marks)
               else next.stack == m.stack && next.marks == m.marks
  {
    if Passing(e, m) {
      RowsPay(e, m.marks, At(m.pc, m.pos), e.limit - e.first + 1);
      ArmsPaid(e, At(m.pc, m.pos));
    } else if !e.prog[m.pc].IsAlt() {
      assert m.pc !in e.plan.heads;
    }
  }

  lemma ArmsPaid(e: Env, n: Node)
    requires e.Valid() && e.Live(n) && e.prog[n.pc].IsAlt()
    ensures 1 <= Weight(e.prog, e.plan, n.pc) && |e.Succ(n)| <= Weight(e.prog, e.plan, n.pc) + 1
  {
    if n.pc in e.plan.heads {
      var d := e.plan.heads[n.pc];
      assert ValidDispatch(d, |e.prog|);
    }
  }

  // ---- Whole runs ----

  ghost function Passes(e: Env, run: seq<Machine>): nat {
    if |run| <= 1 then 0 else Passes(e, run[..|run| - 1]) + if Passing(e, run[|run| - 2]) then 1 else 0
  }

  // Every pop and every frame still on the stack was paid for by a mark this run made, and so was every pass.
  lemma {:induction false} RunPaid(e: Env, run: seq<Machine>)
    requires e.Valid() && IsRun(e, true, run) && run[0].stack == []
    ensures Pops(run) + |run[|run| - 1].stack| + Paid(e, run[0].marks) <= Paid(e, run[|run| - 1].marks)
    ensures Passes(e, run) + Paid(e, run[0].marks) <= Paid(e, run[|run| - 1].marks)
  {
    if |run| > 1 {
      RunPaid(e, run[..|run| - 1]);
      GoPaid(e, run[|run| - 2], run[|run| - 1]);
    }
  }

  // A fork either passes its guard or is turned back, and then a pop follows.
  lemma {:induction false} ForksPassOrPop(e: Env, run: seq<Machine>)
    requires e.Valid() && IsRun(e, true, run)
    ensures Forks(e.prog, run) <= Passes(e, run) + Pops(run) + if run[|run| - 1].pc < 0 then 1 else 0
  {
    if |run| > 1 {
      ForksPassOrPop(e, run[..|run| - 1]);
      TurnedBack(e, run[|run| - 2], run[|run| - 1]);
    }
  }

  lemma TurnedBack(e: Env, m: Machine, m': Machine)
    requires e.Valid() && Goes(e, true, m, m')
    ensures m.pc < 0 ==> m'.pc >= 0
    ensures m.pc >= 0 && e.prog[m.pc].IsAlt() && !Passing(e, m) ==> m'.pc < 0
  {
  }

  // The whole cost of a fallback, whatever the memo already held: pops, depth and instructions linear in the window.
  lemma FallbackCallCost(e: Env, chain: seq<nat>, run: seq<Machine>)
    requires e.Valid() && ChainRanked(e.prog, chain) && IsRun(e, true, run) && run[0].stack == []
    ensures Pops(run) + |run[|run| - 1].stack| <= DepthBound(e)
    ensures Steps(run) <= |e.prog| * (3 * DepthBound(e) + 2)
  {
    RunPaid(e, run);
    RowsBounded(e, run[|run| - 1].marks, e.limit - e.first + 1);
    ForksPassOrPop(e, run);
    StepsPerEvent(e, true, chain, run);
    Times(Pops(run) + Forks(e.prog, run) + 1, 3 * DepthBound(e) + 2, |e.prog|);
  }

  // A stack of that many frames never overflows, so a fallback that holds it always answers.
  lemma FallbackFits(e: Env, capacity: nat, run: seq<Machine>)
    requires e.Valid() && IsRun(e, true, run) && run[0].stack == [] && DepthBound(e) <= capacity
    ensures !Overflows(e, true, capacity, run[|run| - 1])
  {
    RunPaid(e, run);
    NextFits(e, capacity, run[|run| - 1]);
  }

  lemma NextFits(e: Env, capacity: nat, m: Machine)
    requires e.Valid() && InState(e, m) && |m.stack| <= Paid(e, m.marks) && DepthBound(e) <= capacity
    ensures !Overflows(e, true, capacity, m)
  {
    if m.pc >= 0 {
      StepPaid(e, m);
      RowsBounded(e, StepTo(e, true, m).marks, e.limit - e.first + 1);
    }
  }

  // The ordinary body's stack is bounded the same way, by the zero-width rank instead of the marks.
  lemma OrdinaryFits(e: Env, zero: seq<nat>, capacity: nat, run: seq<Machine>)
    requires e.Valid() && ZeroRanked(e.prog, e.plan, zero) && IsRun(e, false, run) && run[0].stack == []
    requires DepthBound(e) <= capacity
    ensures !Overflows(e, false, capacity, run[|run| - 1])
  {
    var m := run[|run| - 1];
    RunDepth(e, zero, run);
    if m.pc >= 0 {
      StepInState(e, m);
      StepDepth(e, zero, m);
    }
  }

  lemma StepInState(e: Env, m: Machine)
    requires e.Valid() && InState(e, m) && m.pc >= 0
    ensures InState(e, StepTo(e, false, m))
  {
    var n := At(m.pc, m.pos);
    if e.Succ(n) != [] {
      PushedFramed(e, e.Succ(n), 1, Touch(e, n, m.caps), m.stack);
    }
  }

  // ---- The guard ----

  lemma {:induction false} MarksGrow(e: Env, run: seq<Machine>, i: nat)
    requires e.Valid() && IsRun(e, true, run) && i < |run|
    ensures run[i].marks <= run[|run| - 1].marks
  {
    if i < |run| - 1 {
      MarksGrow(e, run[..|run| - 1], i);
      GoPaid(e, run[|run| - 2], run[|run| - 1]);
    }
  }

  lemma {:induction false} GoesAt(e: Env, fallback: bool, run: seq<Machine>, i: nat)
    requires e.Valid() && IsRun(e, fallback, run) && i + 1 < |run|
    ensures Goes(e, fallback, run[i], run[i + 1]) && IsRun(e, fallback, run[..i + 1])
    ensures IsRun(e, fallback, run[..i + 2])
  {
    if i + 2 < |run| {
      GoesAt(e, fallback, run[..|run| - 1], i);
      assert run[..|run| - 1][..i + 1] == run[..i + 1] && run[..|run| - 1][..i + 2] == run[..i + 2];
    } else {
      assert run[..i + 2] == run;
    }
  }

  // The fallback enters an alternation state at most once in a run: met again, it is turned back.
  lemma EnteredOnce(e: Env, run: seq<Machine>, i: nat, j: nat)
    requires e.Valid() && IsRun(e, true, run) && i < j < |run| - 1
    requires 0 <= run[i].pc < |e.prog| && e.prog[run[i].pc].IsAlt() && run[j].pc == run[i].pc
    requires run[j].pos == run[i].pos
    ensures run[j + 1].pc == -1
  {
    var n := At(run[i].pc, run[i].pos);
    GoesAt(e, true, run, i);
    GoPaid(e, run[i], run[i + 1]);
    assert n in run[i + 1].marks;
    GoesAt(e, true, run, j);
    MarksGrow(e, run[..j + 1], i + 1);
    assert run[..j + 1][j] == run[j] && run[..j + 1][i + 1] == run[i + 1];
  }

  lemma OneMoreMark(e: Env, m: Machine, m': Machine, marks0: set<Node>)
    requires e.Valid() && Goes(e, true, m, m') && marks0 <= m.marks && m.marks - marks0 <= AltStates(e)
    ensures marks0 <= m'.marks && m'.marks - marks0 <= AltStates(e)
    ensures |m'.marks - marks0| == |m.marks - marks0| + if Passing(e, m) then 1 else 0
  {
    GoPaid(e, m, m');
    if Passing(e, m) {
      assert m'.marks - marks0 == (m.marks - marks0) + {At(m.pc, m.pos)};
    }
  }

  // So its passes are distinct alternation states, none of them marked before.
  lemma {:induction false} PassesAreStates(e: Env, run: seq<Machine>)
    requires e.Valid() && IsRun(e, true, run)
    ensures var made := run[|run| - 1].marks - run[0].marks;
            run[0].marks <= run[|run| - 1].marks && Passes(e, run) == |made| && made <= AltStates(e)
  {
    if |run| > 1 {
      PassesAreStates(e, run[..|run| - 1]);
      OneMoreMark(e, run[|run| - 2], run[|run| - 1], run[0].marks);
    } else {
      assert run[0].marks - run[0].marks == {};
    }
  }
}
