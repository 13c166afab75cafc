/** The emitted backtracking machine, ordinary and memoised, refines the marking search over its states. */
module BtMachine {
  import opened PrioritySearch
  import opened BtProgram

  datatype Frame = Frame(node: Node, caps: seq<int>)

  // A graph this machine walks: the call's states, marking none of them or exactly the live Alts.
  ghost predicate Walks(e: Env, g: Graph<Node>) {
    && e.Valid() && g == GraphOf(e, g.guarded, g.rank, g.bound) && g.Valid()
    && (g.guarded == {} || g.guarded == AltStates(e))
  }

  ghost function AltStates(e: Env): set<Node> {
    set n | n in e.States() && n.pc < |e.prog| && e.prog[n.pc].IsAlt()
  }

  ghost predicate Framed(e: Env, stack: seq<Frame>) {
    forall i :: 0 <= i < |stack| ==> e.Live(stack[i].node) && |stack[i].caps| == e.slots
  }

  // ---- What is left to do, as a function of the machine's state ----

  datatype Rest = Rest(result: Result, work: nat, marks: set<Node>)

  ghost function Resume(e: Env, g: Graph<Node>, n: Node, caps: seq<int>, stack: seq<Frame>, marks: set<Node>): Rest
    requires Walks(e, g) && e.Live(n) && |caps| == e.slots && Framed(e, stack)
    decreases |stack|, 3
  {
    var o := Search(g, n, marks);
    if o.found.Found? then Rest(ResultOf(e, g, n, o.found, caps), o.steps, o.marks)
    else
      var r := Unwind(e, g, stack, o.marks);
      Rest(r.result, r.work + o.steps, r.marks)
  }

  ghost function Unwind(e: Env, g: Graph<Node>, stack: seq<Frame>, marks: set<Node>): Rest
    requires Walks(e, g) && Framed(e, stack)
    decreases |stack|, 2
  {
    if stack == [] then Rest(NoMatch, 0, marks)
    else
      var top := stack[|stack| - 1];
      var r := Resume(e, g, top.node, top.caps, stack[..|stack| - 1], marks);
      Rest(r.result, r.work + 1, r.marks)
  }

  // The frames of the alternatives from i on, the first of them on top.
  function Pushed(ms: seq<Node>, i: nat, caps: seq<int>, stack: seq<Frame>): (s: seq<Frame>)
    requires i <= |ms|
    ensures |s| == |stack| + |ms| - i
    decreases |ms| - i
  {
    if i == |ms| then stack else Pushed(ms, i + 1, caps, stack) + [Frame(ms[i], caps)]
  }

  ghost predicate Children(e: Env, g: Graph<Node>, ms: seq<Node>, level: nat) {
    forall j :: 0 <= j < |ms| ==> e.Live(ms[j]) && ms[j] in g.succ && ms[j] in g.rank && g.rank[ms[j]] < level
  }

  lemma {:induction false} PushedFramed(e: Env, ms: seq<Node>, i: nat, caps: seq<int>, stack: seq<Frame>)
    requires i <= |ms| && Framed(e, stack) && |caps| == e.slots && forall j :: 0 <= j < |ms| ==> e.Live(ms[j])
    ensures Framed(e, Pushed(ms, i, caps, stack))
    decreases |ms| - i
  {
    if i < |ms| {
      PushedFramed(e, ms, i + 1, caps, stack);
    }
  }

  // Trying the alternatives from i on, then whatever is on the stack.
  ghost function Try(e: Env, g: Graph<Node>, ms: seq<Node>, i: nat, level: nat, caps: seq<int>, stack: seq<Frame>,
                     marks: set<Node>): Rest
    requires Walks(e, g) && |caps| == e.slots && Framed(e, stack) && i <= |ms| && Children(e, g, ms, level)
  {
    var o := SearchOf(g, ms, i, level, marks);
    if o.found.Found? then
      FoundIndex(e, g, ms, i, level, marks);
      Rest(ResultOf(e, g, ms[o.found.path[0]], Found(o.found.path[1..]), caps), o.steps, o.marks)
    else
      var r := Unwind(e, g, stack, o.marks);
      Rest(r.result, r.work + o.steps, r.marks)
  }

  lemma {:induction false} FoundIndex(e: Env, g: Graph<Node>, ms: seq<Node>, i: nat, level: nat, marks: set<Node>)
    requires g.Valid() && i <= |ms| && Children(e, g, ms, level)
    ensures var o := SearchOf(g, ms, i, level, marks);
            o.found.Found? ==> o.found.path != [] && i <= o.found.path[0] < |ms|
    decreases |ms| - i
  {
    if i < |ms| {
      FoundIndex(e, g, ms, i + 1, level, Search(g, ms[i], marks).marks);
    }
  }

  // An alternation's arms on the stack behave as the list of its successors.
  lemma {:induction false} TryIsResume(e: Env, g: Graph<Node>, ms: seq<Node>, i: nat, level: nat, caps: seq<int>,
                                       stack: seq<Frame>, marks: set<Node>)
    requires Walks(e, g) && |caps| == e.slots && Framed(e, stack) && i < |ms| && Children(e, g, ms, level)
    ensures Framed(e, Pushed(ms, i + 1, caps, stack))
    ensures var r, t := Resume(e, g, ms[i], caps, Pushed(ms, i + 1, caps, stack), marks),
            Try(e, g, ms, i, level, caps, stack, marks);
            r.result == t.result && r.marks == t.marks && r.work <= t.work
    decreases |ms| - i
  {
    PushedFramed(e, ms, i + 1, caps, stack);
    var o := Search(g, ms[i], marks);
    if o.found.Found? {
      assert ([i] + o.found.path)[1..] == o.found.path;
    } else if i + 1 == |ms| {
      assert SearchOf(g, ms, i + 1, level, o.marks).found.NotFound?;
    } else {
      TryIsResume(e, g, ms, i + 1, level, caps, stack, o.marks);
      var pushed := Pushed(ms, i + 1, caps, stack);
      assert pushed[..|pushed| - 1] == Pushed(ms, i + 2, caps, stack);
    }
  }

  // ---- One step of the machine ----

  // pc -1 is the failed state. marks are the memo's bits, read and written by a fallback only.
  datatype Machine = Machine(pc: int, pos: nat, caps: seq<int>, stack: seq<Frame>, marks: set<Node>)

  ghost predicate InState(e: Env, m: Machine) {
    |m.caps| == e.slots && Framed(e, m.stack) && (m.pc >= 0 ==> e.Live(At(m.pc, m.pos)))
  }

  ghost function Now(e: Env, g: Graph<Node>, m: Machine): Rest
    requires Walks(e, g) && InState(e, m)
  {
    if m.pc < 0 then Unwind(e, g, m.stack, m.marks) else Resume(e, g, At(m.pc, m.pos), m.caps, m.stack, m.marks)
  }

  ghost predicate Follows(a: Rest, b: Rest) {
    a.result == b.result && a.marks == b.marks && a.work < b.work
  }

  lemma SearchSteps(g: Graph<Node>, n: Node, marks: set<Node>)
    requires g.Valid() && n in g.succ
    ensures Search(g, n, marks).steps >= 1
  {
  }

  // One instruction: a marked state, or one with no successor, fails; any other enters its first successor
  // and pushes the rest.
  function StepTo(e: Env, fallback: bool, m: Machine): (m': Machine)
    requires e.Valid() && |m.caps| == e.slots && m.pc >= 0 && e.Live(At(m.pc, m.pos))
  {
    var n := At(m.pc, m.pos);
    var marking := fallback && e.prog[m.pc].IsAlt();
    if marking && n in m.marks then m.(pc := -1)
    else
      var marked := if marking then m.(marks := m.marks + {n}) else m;
      var ms, caps := e.Succ(n), Touch(e, n, m.caps);
      if ms == [] then marked.(pc := -1)
      else marked.(pc := ms[0].pc, pos := ms[0].pos, caps := caps, stack := Pushed(ms, 1, caps, m.stack))
  }

  // The machine's next step pushes more than memory holds.
  ghost predicate Overflows(e: Env, fallback: bool, capacity: nat, m: Machine)
    requires e.Valid() && InState(e, m)
  {
    m.pc >= 0 && !e.Accepts(At(m.pc, m.pos)) && capacity < |StepTo(e, fallback, m).stack|
  }

  // The marks an overflowing step leaves: the state it could not leave is marked all the same.
  function Abandoned(fallback: bool, m: Machine): set<Node> {
    if fallback && m.pc >= 0 then m.marks + {At(m.pc, m.pos)} else m.marks
  }

  // A failure's pop.
  function PopTo(m: Machine): Machine
    requires m.stack != []
  {
    var top := m.stack[|m.stack| - 1];
    Machine(top.node.pc, top.node.pos, top.caps, m.stack[..|m.stack| - 1], m.marks)
  }

  lemma StepFollows(e: Env, g: Graph<Node>, fallback: bool, m: Machine)
    requires Walks(e, g) && g.guarded == (if fallback then AltStates(e) else {})
    requires InState(e, m) && m.pc >= 0 && !e.Accepts(At(m.pc, m.pos))
    ensures InState(e, StepTo(e, fallback, m)) && Follows(Now(e, g, StepTo(e, fallback, m)), Now(e, g, m))
  {
    var n, caps := At(m.pc, m.pos), Touch(e, At(m.pc, m.pos), m.caps);
    SearchSteps(g, n, m.marks);
    if !(n in g.guarded && n in m.marks) {
      Fork(e, g, n, m.caps, m.stack, m.marks);
      var ms := e.Succ(n);
      if ms != [] {
        TryIsResume(e, g, ms, 0, g.Level(n), caps, m.stack, g.With(m.marks, n));
      }
    }
  }

  lemma PopFollows(e: Env, g: Graph<Node>, m: Machine)
    requires Walks(e, g) && InState(e, m) && m.pc < 0 && m.stack != []
    ensures InState(e, PopTo(m)) && Follows(Now(e, g, PopTo(m)), Now(e, g, m))
  {
  }

  lemma AcceptIsNow(e: Env, g: Graph<Node>, m: Machine)
    requires Walks(e, g) && InState(e, m) && m.pc >= 0 && e.Accepts(At(m.pc, m.pos))
    ensures Now(e, g, m).result == MatchAt(m.pos, m.caps) && Now(e, g, m).marks == m.marks
  {
    var n := At(m.pc, m.pos);
    assert Nodes(g, n, []) == [n] && Capturing(e, [n], m.caps) == m.caps;
  }

  // A path's first state does its own capture, then the rest of the path does the rest.
  lemma ResultOfCons(e: Env, g: Graph<Node>, n: Node, cs: seq<nat>, caps: seq<int>)
    requires |caps| == e.slots && cs != [] && n in g.succ && cs[0] < |g.succ[n]|
    ensures ResultOf(e, g, n, Found(cs), caps) == ResultOf(e, g, g.succ[n][cs[0]], Found(cs[1..]), Touch(e, n, caps))
  {
    var tail := Nodes(g, g.succ[n][cs[0]], cs[1..]);
    assert Nodes(g, n, cs) == [n] + tail && ([n] + tail)[1..] == tail;
  }

  lemma Fork(e: Env, g: Graph<Node>, n: Node, caps: seq<int>, stack: seq<Frame>, marks: set<Node>)
    requires Walks(e, g) && e.Live(n) && |caps| == e.slots && Framed(e, stack) && !e.Accepts(n)
    requires !(n in g.guarded && n in marks)
    ensures Children(e, g, e.Succ(n), g.Level(n))
    ensures Follows(Try(e, g, e.Succ(n), 0, g.Level(n), Touch(e, n, caps), stack, g.With(marks, n)),
            Resume(e, g, n, caps, stack, marks))
  {
    var ms, level := e.Succ(n), g.Level(n);
    assert g.succ[n] == ms && n !in g.goals;
    var o := SearchOf(g, ms, 0, level, g.With(marks, n));
    assert Search(g, n, marks) == o.(steps := o.steps + 1);
    if o.found.Found? {
      FoundIndex(e, g, ms, 0, level, g.With(marks, n));
      ResultOfCons(e, g, n, o.found.path, caps);
    }
  }

  // ---- The body ----

  datatype Verdict = Answer(result: Result) | Tripped | Unknown

  // btDispatchCharge: the pops the plain chain would have made for the arms a case skips.
  function DispatchCharge(d: Dispatch, list: seq<nat>): (c: int)
    ensures |d.arms| >= 2 && |list| <= 1 ==> c >= 1
  {
    if list == [] then |d.arms| - 1 else |d.arms| - |list|
  }

  // Push the alternatives after the first, last one first, as far as the stack has room.
  method PushArms(ms: seq<Node>, caps: seq<int>, start: seq<Frame>, capacity: nat)
    returns (stack: seq<Frame>, fits: bool)
    requires ms != [] && |start| <= capacity
    ensures fits <==> |Pushed(ms, 1, caps, start)| <= capacity
    ensures fits ==> stack == Pushed(ms, 1, caps, start)
  {
    stack, fits := start, true;
    for j := |ms| downto 1
      invariant stack == Pushed(ms, j, caps, start) && |stack| <= capacity
    {
      if |stack| >= capacity {
        fits := false;
        return;
      }
      stack := stack + [Frame(ms[j], caps)];
    }
  }

  // The handler of an instruction that is neither an alternation nor Match: where it goes, pc -1 on failure.
  method HandlePlain(e: Env, pc: nat, pos: nat, start: seq<int>) returns (next: int, pos': nat, caps: seq<int>)
    requires e.Valid() && e.Live(At(pc, pos)) && pc !in e.plan.heads && |start| == e.slots
    requires !e.prog[pc].IsAlt() && !e.prog[pc].Match?
    ensures var ms := e.Succ(At(pc, pos));
            if ms == [] then next == -1 && pos' == pos && caps == start
            else next >= 0 && ms == [At(next, pos')] && caps == Touch(e, At(pc, pos), start)
  {
    var inst := e.prog[pc];
    next, pos', caps := -1, pos, start;
    if inst.Consumes() {
      if pos < e.limit && inst.Admits(e.text[pos]) {
        next, pos' := inst.Edges()[0], pos + 1;
      }
    } else if inst.Capture? {
      next, caps := inst.out, caps[inst.slot := pos];
    } else if inst.Nop? || (inst.Assert? && Holds(inst.what, e.text, pos)) {
      next := inst.out;
    }
  }

  // An alternation's successors: a dispatched head's case, or both branches.
  function Arms(e: Env, pc: nat, pos: nat): (ms: seq<Node>)
    requires e.Valid() && e.Live(At(pc, pos)) && e.prog[pc].IsAlt()
    ensures ms == e.Succ(At(pc, pos))
  {
    if pc in e.plan.heads then
      var d := e.plan.heads[pc];
      var pcs := ArmsAt(d, d.cases[d.caseOf[e.NextByte(pos)]]);
      seq(|pcs|, i requires 0 <= i < |pcs| => At(pcs[i], pos))
    else
      var edges := e.prog[pc].Edges();
      assert edges[0] !in e.plan.dead && edges[1] !in e.plan.dead;
      [At(edges[0], pos), At(edges[1], pos)]
  }

  datatype Event = Moved | Accepted | Overflowed

  // The handler of one instruction.
  method Handle(e: Env, fallback: bool, capacity: nat, m: Machine) returns (ev: Event, m': Machine)
    requires e.Valid() && InState(e, m) && m.pc >= 0 && |m.stack| <= capacity
    ensures ev.Accepted? <==> e.Accepts(At(m.pc, m.pos))
    ensures ev.Overflowed? <==> Overflows(e, fallback, capacity, m)
    ensures ev.Moved? ==> m' == StepTo(e, fallback, m)
    ensures ev.Overflowed? ==> m'.marks == Abandoned(fallback, m)
  {
    var n := At(m.pc, m.pos);
    var inst := e.prog[m.pc];
    if inst.Match? {
      if e.whole && m.pos != e.limit {
        return Moved, m.(pc := -1);
      }
      return Accepted, m;
    }
    if !inst.IsAlt() {
      var next, pos, caps := HandlePlain(e, m.pc, m.pos, m.caps);
      return Moved, m.(pc := next, pos := pos, caps := caps);
    }
    if fallback && n in m.marks {
      return Moved, m.(pc := -1);
    }
    m' := if fallback then m.(marks := m.marks + {n}) else m;
    var ms := Arms(e, m.pc, m.pos);
    if ms == [] {
      return Moved, m'.(pc := -1);
    }
    var stack, fits := PushArms(ms, m.caps, m.stack, capacity);
    if fits {
      return Moved, m'.(pc := ms[0].pc, pos := ms[0].pos, stack := stack);
    }
    return Overflowed, m'.(stack := stack);
  }

  // ---- Runs, for counting ----

  // m' is what the loop makes of m: a failure pops, a state that does not accept steps.
  ghost predicate Goes(e: Env, fallback: bool, m: Machine, m': Machine)
    requires e.Valid()
  {
    && InState(e, m) && InState(e, m')
    && if m.pc < 0 then m.stack != [] && m' == PopTo(m)
       else !e.Accepts(At(m.pc, m.pos)) && m' == StepTo(e, fallback, m)
  }

  // Consecutive machines of one body, with no overflow and no accept before the last.
  ghost predicate IsRun(e: Env, fallback: bool, run: seq<Machine>)
    requires e.Valid()
  {
    && run != [] && InState(e, run[|run| - 1])
    && (|run| > 1 ==> IsRun(e, fallback, run[..|run| - 1]) && Goes(e, fallback, run[|run| - 2], run[|run| - 1]))
  }

  // What one machine charges the budget: a pop, or a dispatch's skipped arms.
  function ChargeAt(e: Env, m: Machine): int
    requires e.Valid() && InState(e, m)
  {
    if m.pc < 0 then 1
    else if m.pc in e.plan.heads then
      var d := e.plan.heads[m.pc];
      DispatchCharge(d, d.cases[d.caseOf[e.NextByte(m.pos)]])
    else 0
  }

  // Everything a run has charged, its last machine not counted.
  ghost function Charged(e: Env, fallback: bool, run: seq<Machine>): int
    requires e.Valid() && IsRun(e, fallback, run)
  {
    if |run| == 1 then 0 else Charged(e, fallback, run[..|run| - 1]) + ChargeAt(e, run[|run| - 2])
  }

  // No machine of the run holds more than capacity frames.
  ghost predicate Fits(capacity: nat, run: seq<Machine>) {
    run == [] || (|run[|run| - 1].stack| <= capacity && Fits(capacity, run[..|run| - 1]))
  }

  // A run from m0 that has reached m, its stack always within capacity.
  ghost predicate RunsTo(e: Env, fallback: bool, capacity: nat, m0: Machine, run: seq<Machine>, m: Machine)
    requires e.Valid()
  {
    IsRun(e, fallback, run) && run[0] == m0 && run[|run| - 1] == m && Fits(capacity, run)
  }

  lemma RunExtends(e: Env, fallback: bool, capacity: nat, m0: Machine, run: seq<Machine>, m: Machine, m': Machine)
    requires e.Valid() && RunsTo(e, fallback, capacity, m0, run, m) && Goes(e, fallback, m, m')
    requires |m'.stack| <= capacity
    ensures RunsTo(e, fallback, capacity, m0, run + [m'], m')
    ensures Charged(e, fallback, run + [m']) == Charged(e, fallback, run) + ChargeAt(e, m)
  {
    assert (run + [m'])[..|run|] == run;
  }

  // How a body ends, from its last machine: an answer at the end of the search, a trip when the budget is spent
  // or the stack is full, and no answer, for want of memory, only where there is no budget to trip.
  ghost predicate Ends(e: Env, fallback: bool, budget: nat, capacity: nat, charged: int, last: Machine, v: Verdict)
    requires e.Valid() && InState(e, last)
  {
    match v
    case Answer(r) =>
      if last.pc < 0 then last.stack == [] && r == NoMatch
      else e.Accepts(At(last.pc, last.pos)) && r == MatchAt(last.pos, last.caps)
    case Tripped =>
      && budget > 0 && (last.pc < 0 ==> last.stack != [])
      && (budget <= charged + ChargeAt(e, last) || Overflows(e, fallback, capacity, last))
    case Unknown => budget == 0 && Overflows(e, fallback, capacity, last)
  }

  // One turn of the loop: a failure's pop, or one instruction.
  method Turn(e: Env, fallback: bool, capacity: nat, m: Machine, ghost g: Graph<Node>) returns (ev: Event, m': Machine)
    requires Walks(e, g) && g.guarded == (if fallback then AltStates(e) else {})
    requires InState(e, m) && |m.stack| <= capacity && (m.pc < 0 ==> m.stack != [])
    ensures ev.Accepted? ==>
              && m.pc >= 0 && e.Accepts(At(m.pc, m.pos))
              && Now(e, g, m).result == MatchAt(m.pos, m.caps) && Now(e, g, m).marks == m.marks && ChargeAt(e, m) == 0
    ensures ev.Overflowed? ==> Overflows(e, fallback, capacity, m) && m'.marks == Abandoned(fallback, m)
    ensures ev.Moved? ==>
              && Goes(e, fallback, m, m') && |m'.stack| <= capacity && Follows(Now(e, g, m'), Now(e, g, m))
  {
    if m.pc < 0 {
      PopFollows(e, g, m);
      return Moved, PopTo(m);
    }
    ev, m' := Handle(e, fallback, capacity, m);
    if ev.Accepted? {
      AcceptIsNow(e, g, m);
    } else if ev.Moved? {
      StepFollows(e, g, fallback, m);
    }
  }

  // buildBacktrackBody's loop. budget 0 keeps no counter; a fallback keeps none and marks every live Alt.
  // capacity is how many frames memory can hold: past it an ordinary budgeted body arms its trip.
  method Body(e: Env, fallback: bool, budget: nat, capacity: nat, start: Node, caps0: seq<int>, marks0: set<Node>,
              ghost g: Graph<Node>)
    returns (v: Verdict, marks: set<Node>, left: int, ghost run: seq<Machine>, ghost last: Machine)
    requires Walks(e, g) && g.guarded == (if fallback then AltStates(e) else {})
    requires e.Live(start) && |caps0| == e.slots && (fallback ==> budget == 0)
    ensures v.Answer? ==>
              var o := Search(g, start, marks0);
              v.result == ResultOf(e, g, start, o.found, caps0) && marks == o.marks
    ensures RunsTo(e, fallback, capacity, Machine(start.pc, start.pos, caps0, [], marks0), run, last)
    ensures Ends(e, fallback, budget, capacity, Charged(e, fallback, run), last, v)
    ensures v.Unknown? ==> marks == Abandoned(fallback, last)
    ensures budget > 0 ==> Charged(e, fallback, run) < budget
    ensures budget > 0 && !v.Tripped? ==> left == budget - Charged(e, fallback, run)
  {
    var m := Machine(start.pc, start.pos, caps0, [], marks0);
    var work: int := budget;
    run := [m];
    ghost var m0, goal := m, Now(e, g, m);
    while true
      invariant RunsTo(e, fallback, capacity, m0, run, m)
      invariant Now(e, g, m).result == goal.result && Now(e, g, m).marks == goal.marks
      invariant budget > 0 ==> work == budget - Charged(e, fallback, run) && work > 0
      decreases Now(e, g, m).work
    {
      if m.pc < 0 && m.stack == [] {
        return Answer(NoMatch), m.marks, work, run, m;
      }
      if budget > 0 {
        work := work - ChargeAt(e, m);
        if work <= 0 {
          return Tripped, m.marks, work, run, m;
        }
      }
      var ev, next := Turn(e, fallback, capacity, m, g);
      match ev {
        case Accepted =>
          return Answer(MatchAt(m.pos, m.caps)), m.marks, work, run, m;
        case Overflowed =>
          // btArmTrip: at once when there is nothing to pop, else on the failure's pop, the counter set to 1.
          v := if budget == 0 then Unknown else Tripped;
          return v, next.marks, work, run, m;
        case Moved =>
          RunExtends(e, fallback, capacity, m0, run, m, next);
          m, run := next, run + [next];
      }
    }
  }
}
