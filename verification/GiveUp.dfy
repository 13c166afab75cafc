/** What a memoised body that runs out of stack leaves in its memo. */
module GiveUp {
  // The overflowing body has marked every guarded state it reached. Those marks are failures exactly when nothing could
  // be found from its start: otherwise the path to the match runs through them.

  import opened PrioritySearch
  import opened PathGuards
  import opened BtProgram
  import opened BtMachine

  // ---- A start that leads to a match: one of the marks does too ----

  ghost predicate Reaches(g: Graph<Node>, marks: set<Node>) {
    exists b :: b in marks && !Dead(g, b, {})
  }

  lemma StillReaches(g: Graph<Node>, marks: set<Node>, more: set<Node>)
    requires Reaches(g, marks) && marks <= more
    ensures Reaches(g, more)
  {
    var b :| b in marks && !Dead(g, b, {});
    assert b in more;
  }

  // The body is on its first way from a start that leads to a match, with nothing stacked or newly marked.
  ghost predicate Opening(g: Graph<Node>, marks0: set<Node>, m: Machine) {
    m.marks == marks0 && m.stack == [] && m.pc >= 0 && !Dead(g, At(m.pc, m.pos), {})
  }

  lemma OneWayOn(g: Graph<Node>, n: Node, m: Node)
    requires n !in g.goals && n in g.succ && !Dead(g, n, {}) && g.succ[n] == [m]
    ensures !Dead(g, m, {})
  {
    var cs :| Leads(g, n, cs, {});
    assert Leads(g, m, cs[1..], {});
  }

  lemma Leaves(g: Graph<Node>, n: Node)
    requires n in g.succ && n !in g.goals && !Dead(g, n, {})
    ensures g.succ[n] != []
  {
    var cs :| Leads(g, n, cs, {});
  }

  lemma OpeningStep(e: Env, g: Graph<Node>, marks0: set<Node>, m: Machine)
    requires Walks(e, g) && g.guarded == AltStates(e) && Deterministic(g) && Spent(g, marks0, {})
    requires InState(e, m) && m.pc >= 0 && !e.Accepts(At(m.pc, m.pos)) && Opening(g, marks0, m)
    ensures Reaches(g, StepTo(e, true, m).marks) || Opening(g, marks0, StepTo(e, true, m))
  {
    var n := At(m.pc, m.pos);
    assert n !in m.marks;
    if e.prog[m.pc].IsAlt() {
      assert n in StepTo(e, true, m).marks;
    } else {
      Leaves(g, n);
      var ms := e.Succ(n);
      assert g.succ[n] == ms && |ms| == 1;
      OneWayOn(g, n, ms[0]);
      assert Pushed(ms, 1, Touch(e, n, m.caps), m.stack) == m.stack;
    }
  }

  ghost predicate OnItsWay(g: Graph<Node>, marks0: set<Node>, m: Machine) {
    Reaches(g, m.marks) || Opening(g, marks0, m)
  }

  lemma GoesOn(e: Env, g: Graph<Node>, marks0: set<Node>, m: Machine, m': Machine)
    requires Walks(e, g) && g.guarded == AltStates(e) && Deterministic(g) && Spent(g, marks0, {})
    requires Goes(e, true, m, m') && OnItsWay(g, marks0, m)
    ensures OnItsWay(g, marks0, m')
  {
    if Reaches(g, m.marks) {
      StillReaches(g, m.marks, m'.marks);
    } else {
      OpeningStep(e, g, marks0, m);
    }
  }

  // What every step keeps holds at the end of a run.
  lemma {:induction false} RunKeeps(e: Env, g: Graph<Node>, marks0: set<Node>, run: seq<Machine>)
    requires e.Valid() && IsRun(e, true, run) && OnItsWay(g, marks0, run[0])
    requires forall m, m' :: Goes(e, true, m, m') && OnItsWay(g, marks0, m) ==> OnItsWay(g, marks0, m')
    ensures OnItsWay(g, marks0, run[|run| - 1])
  {
    if |run| > 1 {
      RunKeeps(e, g, marks0, run[..|run| - 1]);
    }
  }

  lemma RunOnItsWay(e: Env, g: Graph<Node>, marks0: set<Node>, run: seq<Machine>)
    requires Walks(e, g) && g.guarded == AltStates(e) && Deterministic(g) && Spent(g, marks0, {})
    requires IsRun(e, true, run) && OnItsWay(g, marks0, run[0])
    ensures OnItsWay(g, marks0, run[|run| - 1])
  {
    forall m, m' | Goes(e, true, m, m') && OnItsWay(g, marks0, m) ensures OnItsWay(g, marks0, m') {
      GoesOn(e, g, marks0, m, m');
    }
    RunKeeps(e, g, marks0, run);
  }

  // Only an alternation overflows, and it is marked.
  lemma OverflowMarks(e: Env, g: Graph<Node>, frames: nat, m: Machine)
    requires Walks(e, g) && g.guarded == AltStates(e) && Deterministic(g) && InState(e, m)
    requires |m.stack| <= frames && Overflows(e, true, frames, m)
    ensures At(m.pc, m.pos) in g.guarded && At(m.pc, m.pos) !in m.marks
  {
    assert g.succ[At(m.pc, m.pos)] == e.Succ(At(m.pc, m.pos));
  }

  // ---- A start that leads nowhere: the marks are those of a search that fails ----

  lemma {:induction false} RunKeepsMarks(e: Env, g: Graph<Node>, run: seq<Machine>)
    requires Walks(e, g) && g.guarded == AltStates(e) && IsRun(e, true, run)
    ensures InState(e, run[0]) && Now(e, g, run[|run| - 1]).marks == Now(e, g, run[0]).marks
  {
    if |run| > 1 {
      var init := run[..|run| - 1];
      RunKeepsMarks(e, g, init);
      var m := init[|init| - 1];
      if m.pc < 0 {
        PopFollows(e, g, m);
      } else {
        StepFollows(e, g, true, m);
      }
    }
  }

  lemma {:induction false} UnwindMarks(e: Env, g: Graph<Node>, stack: seq<Frame>, marks: set<Node>)
    requires Walks(e, g) && Framed(e, stack)
    ensures marks <= Unwind(e, g, stack, marks).marks
  {
    if stack != [] {
      var top, rest := stack[|stack| - 1], stack[..|stack| - 1];
      UnwindMarks(e, g, rest, Search(g, top.node, marks).marks);
    }
  }

  // The state about to overflow is among the marks still to come.
  lemma AbandonedInNow(e: Env, g: Graph<Node>, m: Machine)
    requires Walks(e, g) && InState(e, m) && m.pc >= 0 && !e.Accepts(At(m.pc, m.pos))
    requires At(m.pc, m.pos) in g.guarded
    ensures Abandoned(true, m) <= Now(e, g, m).marks
  {
    var n := At(m.pc, m.pos);
    UnwindMarks(e, g, m.stack, Search(g, n, m.marks).marks);
    assert n in Search(g, n, m.marks).marks;
  }

  lemma FailureMarks(e: Env, g: Graph<Node>, m: Machine)
    requires Walks(e, g) && InState(e, m) && m.pc >= 0 && m.stack == [] && Spent(g, m.marks, {})
    requires Dead(g, At(m.pc, m.pos), {})
    ensures Spent(g, Now(e, g, m).marks, {})
  {
    var n := At(m.pc, m.pos);
    BestFindsOrDead(g, n, {});
    SearchIsBest(g, n, m.marks, {});
    var o := Search(g, n, m.marks);
    assert Unwind(e, g, m.stack, o.marks).marks == o.marks;
  }

  // ---- The exact condition ----

  lemma AbandonedExactly(e: Env, g: Graph<Node>, frames: nat, m0: Machine, run: seq<Machine>, last: Machine)
    requires Walks(e, g) && g.guarded == AltStates(e) && Deterministic(g)
    requires RunsTo(e, true, frames, m0, run, last) && Overflows(e, true, frames, last)
    requires m0.pc >= 0 && m0.stack == [] && Spent(g, m0.marks, {})
    ensures Spent(g, Abandoned(true, last), {}) <==> Dead(g, At(m0.pc, m0.pos), {})
  {
    RunKeepsMarks(e, g, run);
    OverflowMarks(e, g, frames, last);
    if Dead(g, At(m0.pc, m0.pos), {}) {
      FailureMarks(e, g, m0);
      AbandonedInNow(e, g, last);
    } else {
      RunOnItsWay(e, g, m0.marks, run);
      assert At(last.pc, last.pos) in Abandoned(true, last);
      if Reaches(g, last.marks) {
        StillReaches(g, last.marks, Abandoned(true, last));
      }
    }
  }
}
