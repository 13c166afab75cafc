/** The memoised body over the memo's bits: each guarded state has a bit of its own, standing for its mark. */
module LazyFallback {
  import opened PrioritySearch
  import opened BtProgram
  import opened BtMachine
  import opened FallbackCost
  import opened LazyMemo

  // ---- States and their bits ----

  // The bit of a guarded state: its instruction's number, on its position's row.
  function CellOf(index: seq<int>, n: Node): Cell
    requires n.pc < |index| && index[n.pc] >= 0
  {
    Cell(index[n.pc], n.pos)
  }

  ghost predicate Indexed(e: Env, index: seq<int>) {
    IsIndex(e.prog, e.plan.dead, index, Numbered(e.prog, e.plan.dead, |e.prog|))
  }

  lemma HasBit(e: Env, index: seq<int>, n: Node)
    requires Indexed(e, index) && n in AltStates(e)
    ensures n.pc < |index| && 0 <= index[n.pc] < Numbered(e.prog, e.plan.dead, |e.prog|)
  {
    assert IsGuarded(e.prog, e.plan.dead, n.pc);
  }

  lemma BitsApart(e: Env, index: seq<int>, n: Node, m: Node)
    requires Indexed(e, index) && n in AltStates(e) && m in AltStates(e) && n != m
    ensures n.pc < |index| && index[n.pc] >= 0 && m.pc < |index| && index[m.pc] >= 0
    ensures CellOf(index, n) != CellOf(index, m)
  {
    HasBit(e, index, n);
    HasBit(e, index, m);
    assert IsGuarded(e.prog, e.plan.dead, n.pc) && IsGuarded(e.prog, e.plan.dead, m.pc);
    assert n.pc < m.pc || m.pc < n.pc || n.pos != m.pos;
  }

  ghost predicate Shows(index: seq<int>, n: Node, marks: set<Node>, visited: set<Cell>) {
    n.pc < |index| && index[n.pc] >= 0 && (n in marks <==> CellOf(index, n) in visited)
  }

  // The visited bits are the marks, on every guarded state.
  ghost predicate Mirrors(e: Env, index: seq<int>, marks: set<Node>, visited: set<Cell>) {
    forall n :: n in AltStates(e) ==> Shows(index, n, marks, visited)
  }

  lemma MarkMirrors(e: Env, index: seq<int>, marks: set<Node>, visited: set<Cell>, n: Node)
    requires Indexed(e, index) && n in AltStates(e) && Mirrors(e, index, marks, visited)
    ensures Shows(index, n, marks, visited) && Mirrors(e, index, marks + {n}, visited + {CellOf(index, n)})
  {
    assert Shows(index, n, marks, visited);
    forall m | m in AltStates(e) ensures Shows(index, m, marks + {n}, visited + {CellOf(index, n)}) {
      assert Shows(index, m, marks, visited);
      if m != n {
        BitsApart(e, index, n, m);
      }
    }
  }

  // A freshly placed region stands for an empty memo.
  lemma NothingMirrors(e: Env, index: seq<int>)
    requires Indexed(e, index)
    ensures Mirrors(e, index, {}, {})
  {
    forall n | n in AltStates(e) ensures Shows(index, n, {}, {}) {
      HasBit(e, index, n);
    }
  }

  // The region's rows cover the call's window, and a row every guarded instruction.
  ghost predicate Serves(e: Env, index: seq<int>, region: Region, marks: set<Node>)
    reads region
  {
    && Indexed(e, index) && region.Valid() && Numbered(e.prog, e.plan.dead, |e.prog|) <= 8 * region.rowBytes
    && region.origin <= e.first && e.limit < region.origin + region.rows && Mirrors(e, index, marks, region.visited)
  }

  // ---- The machine over the region ----

  // The guard of an alternation: the bit answers what the marks would, and is set.
  method Enter(e: Env, index: seq<int>, region: Region, n: Node, ghost marks: set<Node>) returns (seen: bool)
    requires n in AltStates(e) && Serves(e, index, region, marks)
    modifies region`mem, region`cleared, region`visited
    ensures seen == (n in marks) && Serves(e, index, region, marks + {n})
    ensures forall a :: !(region.memoBase <= a < region.clearLimit) ==> region.mem(a) == old(region.mem)(a)
  {
    HasBit(e, index, n);
    MarkMirrors(e, index, marks, region.visited, n);
    seen := region.Guard(CellOf(index, n));
  }

  // The handler of one instruction, its guard a bit of the region: the fallback's step on the marks it stands for.
  // The machine's own marks are never read.
  method HandleLazy(e: Env, index: seq<int>, region: Region, capacity: nat, m: Machine, ghost marks: set<Node>)
    returns (ev: Event, next: Machine, ghost after: set<Node>)
    requires e.Valid() && InState(e, m) && m.pc >= 0 && |m.stack| <= capacity && Serves(e, index, region, marks)
    modifies region`mem, region`cleared, region`visited
    ensures Serves(e, index, region, after)
    ensures ev.Accepted? <==> e.Accepts(At(m.pc, m.pos))
    ensures ev.Overflowed? <==> Overflows(e, true, capacity, m.(marks := marks))
    ensures ev.Moved? ==> next.(marks := after) == StepTo(e, true, m.(marks := marks))
    ensures ev.Overflowed? ==> after == Abandoned(true, m.(marks := marks))
    ensures ev.Accepted? ==> after == marks
  {
    after := marks;
    var n := At(m.pc, m.pos);
    if !e.prog[m.pc].IsAlt() {
      ev, next := Handle(e, false, capacity, m);
      return;
    }
    var seen := Enter(e, index, region, n, marks);
    after := marks + {n};
    if seen {
      assert after == marks;
      return Moved, m.(pc := -1), after;
    }
    ev, next := Handle(e, false, capacity, m);
  }

  // The whole fallback over the region: the plain marking search's answer, and its marks in the bits.
  method LazyBody(e: Env, index: seq<int>, region: Region, capacity: nat, start: Node, caps0: seq<int>,
                  ghost marks0: set<Node>, ghost g: Graph<Node>)
    returns (v: Verdict, ghost marks: set<Node>)
    requires Walks(e, g) && g.guarded == AltStates(e) && e.Live(start) && |caps0| == e.slots
    requires Serves(e, index, region, marks0)
    modifies region`mem, region`cleared, region`visited
    ensures v.Answer? ==>
              var o := Search(g, start, marks0);
              v.result == ResultOf(e, g, start, o.found, caps0) && marks == o.marks
    ensures v.Answer? || (v.Unknown? && capacity < DepthBound(e))
    ensures Serves(e, index, region, marks)
  {
    var m := Machine(start.pc, start.pos, caps0, [], {});
    marks := marks0;
    ghost var m0 := m.(marks := marks0);
    ghost var run := [m0];
    while true
      invariant RunsTo(e, true, capacity, m0, run, m.(marks := marks)) && Serves(e, index, region, marks)
      invariant Now(e, g, m.(marks := marks)).result == Now(e, g, m0).result
      invariant Now(e, g, m.(marks := marks)).marks == Now(e, g, m0).marks
      decreases Now(e, g, m.(marks := marks)).work
    {
      if m.pc < 0 && m.stack == [] {
        return Answer(NoMatch), marks;
      }
      ghost var shown := m.(marks := marks);
      if m.pc < 0 {
        PopFollows(e, g, shown);
        RunExtends(e, true, capacity, m0, run, shown, PopTo(shown));
        m, run := PopTo(m), run + [PopTo(shown)];
      } else {
        var ev, next, after := HandleLazy(e, index, region, capacity, m, marks);
        if ev.Accepted? {
          AcceptIsNow(e, g, shown);
          return Answer(MatchAt(m.pos, m.caps)), after;
        }
        if ev.Overflowed? {
          if DepthBound(e) <= capacity {
            FallbackFits(e, capacity, run);
          }
          return Unknown, after;
        }
        StepFollows(e, g, true, shown);
        RunExtends(e, true, capacity, m0, run, shown, next.(marks := after));
        m, marks, run := next, after, run + [next.(marks := after)];
      }
    }
  }
}
