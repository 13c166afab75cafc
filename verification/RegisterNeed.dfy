/** When a renamed table answers as the original does: what each state's registers are needed for, exactly. */
module RegisterNeed {
  import opened TagOps
  import opened Tdfa
  import opened RegisterLiveness
  import opened RegisterColouring

  // ---- Need: liveness traced through each operation ----

  // The registers whose values before the batch end up in after.
  function Needed(ops: seq<TagOp>, after: set<int>): set<int> {
    if ops == [] then after
    else
      var rest := Needed(ops[1..], after);
      (rest - {ops[0].dst}) + if ops[0].dst in rest && ops[0].src >= 0 then {ops[0].src} else {}
  }

  lemma {:induction false} NeededGrows(ops: seq<TagOp>, a: set<int>, b: set<int>)
    requires a <= b
    ensures Needed(ops, a) <= Needed(ops, b) <= LiveBefore(ops, b)
  {
    if ops != [] {
      NeededGrows(ops[1..], a, b);
    }
  }

  ghost predicate NeedEdge(t: Table, need: Live, s: int, b: int)
    requires t.Valid() && |need| == t.numStates && t.IsState(s) && 0 <= b < BYTES
  {
    t.Next(s, b) >= 0 ==> Needed(t.Ops(s, b), need[t.Next(s, b)]) <= need[s]
  }

  ghost predicate NeedClosed(t: Table, need: Live)
    requires t.Valid()
  {
    && |need| == t.numStates
    && (forall s :: t.IsState(s) ==> Named(t.acceptRegMap[s]) <= need[s])
    && (forall s, b :: t.IsState(s) && 0 <= b < BYTES ==> NeedEdge(t, need, s, b))
  }

  ghost predicate IsWanted(t: Table, s: int, r: int)
    requires t.Valid() && t.IsState(s)
  {
    forall other :: NeedClosed(t, other) ==> r in other[s]
  }

  // What some accept ahead of the state will read: in every closed table.
  ghost function Wanted(t: Table): (w: Live)
    requires t.Valid()
    ensures |w| == t.numStates
  {
    seq(t.numStates, s requires 0 <= s < t.numStates =>
      set r | r in AllRegs(t.numRegs) && IsWanted(t, s, r))
  }

  lemma WantedBelow(t: Table, other: Live)
    requires t.Valid() && NeedClosed(t, other)
    ensures Inside(Wanted(t), other)
  {
  }

  lemma WantedClosed(t: Table)
    requires t.Valid()
    ensures NeedClosed(t, Wanted(t)) && Within(Wanted(t), t.numRegs)
  {
    var w := Wanted(t);
    forall s, r | t.IsState(s) && r in Named(t.acceptRegMap[s]) ensures r in w[s] {
      assert r in AllRegs(t.numRegs) && IsWanted(t, s, r);
    }
    forall s, b | t.IsState(s) && 0 <= b < BYTES ensures NeedEdge(t, w, s, b) {
      if t.Next(s, b) >= 0 {
        WantedEdge(t, s, b);
      }
    }
  }

  lemma WantedEdge(t: Table, s: int, b: int)
    requires t.Valid() && t.IsState(s) && 0 <= b < BYTES && t.Next(s, b) >= 0
    ensures Needed(t.Ops(s, b), Wanted(t)[t.Next(s, b)]) <= Wanted(t)[s]
  {
    var w, ops, next := Wanted(t), t.Ops(s, b), t.Next(s, b);
    NeededWithin(t, ops, w[next]);
    forall r, other | r in Needed(ops, w[next]) && NeedClosed(t, other) ensures r in other[s] {
      WantedBelow(t, other);
      NeededGrows(ops, w[next], other[next]);
      assert NeedEdge(t, other, s, b);
    }
  }

  lemma {:induction false} NeededWithin(t: Table, ops: seq<TagOp>, after: set<int>)
    requires t.ValidOps(ops) && forall r :: r in after ==> 0 <= r < t.numRegs
    ensures forall r :: r in Needed(ops, after) ==> 0 <= r < t.numRegs
  {
    if ops != [] {
      NeededWithin(t, ops[1..], after);
    }
  }

  // A live register may not be needed, but a needed one is live.
  lemma ClosedIsNeedClosed(t: Table, live: Live)
    requires t.Valid() && Closed(t, live)
    ensures NeedClosed(t, live)
  {
    forall s, b | t.IsState(s) && 0 <= b < BYTES ensures NeedEdge(t, live, s, b) {
      if t.Next(s, b) >= 0 {
        assert EdgeClosed(t, live, s, b);
        NeededGrows(t.Ops(s, b), live[t.Next(s, b)], live[t.Next(s, b)]);
        LiveBeforeBound(t.Ops(s, b), live[t.Next(s, b)]);
      }
    }
  }

  // ---- A separated batch, register by register ----

  // live is what the batch is separated for, after what is followed through it.
  ghost predicate Follows(ops: seq<TagOp>, live: set<int>, after: set<int>, color: seq<nat>) {
    && (forall i :: 0 <= i < |ops| ==> 0 <= ops[i].dst < |color| && POS <= ops[i].src < |color|)
    && Separated(ops, live, color) && after <= live && forall r :: r in after ==> 0 <= r < |color|
  }

  // The renamed first operation, and the rest.
  lemma RenamedFirst(ops: seq<TagOp>, color: seq<nat>, b: Regs) returns (b': Regs)
    requires ops != [] && forall i :: 0 <= i < |ops| ==> 0 <= ops[i].dst < |color| && POS <= ops[i].src < |color|
    ensures Exec(RenameOps(ops, color), b) == Exec(RenameOps(ops[1..], color), b')
    ensures var dst, src := color[ops[0].dst], Rename(color, ops[0].src);
            b' == if src == dst then b else Set(b, dst, b(src))
  {
    var op, rest := TagOp(color[ops[0].dst], Rename(color, ops[0].src)), RenameOps(ops[1..], color);
    b' := if op.src == op.dst then b else Set(b, op.dst, b(op.src));
    assert ([op] + rest)[1..] == rest;
  }

  // What is needed, and held in its colour, is held behind the batch.
  lemma {:induction false} NeededHeld(ops: seq<TagOp>, live: set<int>, after: set<int>, color: seq<nat>, a: Regs,
                                      b: Regs)
    requires Follows(ops, live, after, color) && Held(Needed(ops, after), color, a, b)
    ensures Held(after, color, Exec(ops, a), Exec(RenameOps(ops, color), b))
  {
    if ops != [] {
      var op, rest := ops[0], ops[1..];
      var a' := Set(a, op.dst, a(op.src));
      var b' := RenamedFirst(ops, color, b);
      NeededGrows(rest, after, live);
      assert Held(Needed(rest, after), color, a', b');
      NeededHeld(rest, live, after, color, a', b');
    }
  }

  // A needed register's value is found behind the batch in some register of after, and in that one's colour.
  lemma {:induction false} NeededFlows(ops: seq<TagOp>, live: set<int>, after: set<int>, color: seq<nat>, a: Regs,
                                       b: Regs, r: int)
    returns (q: int)
    requires Follows(ops, live, after, color) && r in Needed(ops, after) && 0 <= r < |color|
    ensures q in after && 0 <= q < |color|
    ensures Exec(ops, a)(q) == a(r) && Exec(RenameOps(ops, color), b)(color[q]) == b(color[r])
  {
    if ops == [] {
      q := r;
    } else {
      var op, rest := ops[0], ops[1..];
      var a' := Set(a, op.dst, a(op.src));
      var b' := RenamedFirst(ops, color, b);
      NeededGrows(rest, after, live);
      if r in Needed(rest, after) && r != op.dst {
        q := NeededFlows(rest, live, after, color, a', b', r);
      } else {
        q := NeededFlows(rest, live, after, color, a', b', op.dst);
      }
    }
  }

  lemma {:induction false} ExecPos(ops: seq<TagOp>, regs: Regs)
    requires forall i :: 0 <= i < |ops| ==> ops[i].dst >= 0
    ensures Exec(ops, regs)(POS) == regs(POS)
  {
    if ops != [] {
      ExecPos(ops[1..], Set(regs, ops[0].dst, regs(ops[0].src)));
    }
  }

  // ---- The renamed machine, when it starts right ----

  // u is t with every batch and every accept renamed.
  ghost predicate IsRenamed(t: Table, u: Table, color: seq<nat>) {
    && t.Valid() && u.Valid() && |color| == t.numRegs && u.numStates == t.numStates
    && (forall s, b :: t.IsState(s) && 0 <= b < BYTES ==> EdgeRenamed(t, u, color, s, b))
    && (forall s :: t.IsState(s) ==> u.acceptRegMap[s] == RenameMap(t.acceptRegMap[s], color))
  }

  ghost predicate EdgeRenamed(t: Table, u: Table, color: seq<nat>, s: int, b: int)
    requires t.Valid() && u.Valid() && |color| == t.numRegs && t.IsState(s) && u.IsState(s) && 0 <= b < BYTES
  {
    u.Next(s, b) == t.Next(s, b) && u.Ops(s, b) == RenameOps(t.Ops(s, b), color)
  }

  lemma TableIsRenamed(t: Table, color: seq<nat>, n: nat)
    requires t.Valid() && |color| == t.numRegs && Bounded(color, n)
    ensures IsRenamed(t, RenameTable(t, color, n), color)
  {
  }

  // Whatever an accept ahead of the first state will read is in its colour after the entry operations.
  ghost predicate EntryKeeps(t: Table, u: Table, color: seq<nat>)
    requires t.Valid()
  {
    Held(Wanted(t)[0], color, Start(t).regs, Start(u).regs)
  }

  function Advanced(regs: Regs): Regs {
    Set(regs, POS, regs(POS) + 1)
  }

  // One byte of the renamed machine.
  lemma RenamedByte(t: Table, u: Table, color: seq<nat>, s: int, regs: Regs, b: Byte)
    requires IsRenamed(t, u, color) && t.IsState(s)
    ensures Step(u, At(s, regs), b)
            == if t.Next(s, b) < 0 then Dead else At(t.Next(s, b), Exec(RenameOps(t.Ops(s, b), color), Advanced(regs)))
  {
    assert EdgeRenamed(t, u, color, s, b);
  }

  ghost predicate Paired(need: Live, color: seq<nat>, c: Config, d: Config) {
    && (c.Dead? <==> d.Dead?)
    && (c.At? ==> 0 <= c.state < |need| && c.state == d.state && Held(need[c.state], color, c.regs, d.regs))
  }

  lemma EdgeFollows(t: Table, live: Live, g: Graph, color: seq<nat>, n: nat, need: Live, s: int, b: int)
    requires t.Valid() && Colouring(t, live, g, color, n) && Inside(need, live) && Within(need, t.numRegs)
    requires t.IsState(s) && 0 <= b < BYTES && t.Next(s, b) >= 0
    ensures Follows(t.Ops(s, b), live[t.Next(s, b)], need[t.Next(s, b)], color)
  {
    EdgeSeparated(t, live, g, color, n, s, b);
    assert t.ValidOps(t.Ops(s, b));
  }

  lemma EdgeHeld(t: Table, live: Live, g: Graph, color: seq<nat>, n: nat, s: int, b: int, x: Regs, y: Regs)
    requires t.Valid() && Colouring(t, live, g, color, n) && t.IsState(s) && 0 <= b < BYTES && t.Next(s, b) >= 0
    requires Held(Wanted(t)[s], color, x, y)
    ensures Held(Wanted(t)[t.Next(s, b)], color, Exec(t.Ops(s, b), Advanced(x)),
                 Exec(RenameOps(t.Ops(s, b), color), Advanced(y)))
  {
    var w, next := Wanted(t), t.Next(s, b);
    WantedClosed(t);
    ClosedIsNeedClosed(t, live);
    WantedBelow(t, live);
    EdgeFollows(t, live, g, color, n, w, s, b);
    assert NeedEdge(t, w, s, b);
    NeededHeld(t.Ops(s, b), live[next], w[next], color, Advanced(x), Advanced(y));
  }

  lemma StepPaired(t: Table, u: Table, live: Live, g: Graph, color: seq<nat>, n: nat, c: Config, d: Config, b: Byte)
    requires IsRenamed(t, u, color) && Colouring(t, live, g, color, n) && Paired(Wanted(t), color, c, d)
    ensures Paired(Wanted(t), color, Step(t, c, b), Step(u, d, b))
  {
    if c.At? {
      RenamedByte(t, u, color, c.state, d.regs, b);
      if t.Next(c.state, b) >= 0 {
        EdgeHeld(t, live, g, color, n, c.state, b, c.regs, d.regs);
      }
    }
  }

  lemma {:induction false} RunsPaired(t: Table, u: Table, live: Live, g: Graph, color: seq<nat>, n: nat,
                                      input: seq<Byte>)
    requires IsRenamed(t, u, color) && Colouring(t, live, g, color, n) && EntryKeeps(t, u, color)
    ensures Paired(Wanted(t), color, Run(t, input), Run(u, input))
  {
    if input != [] {
      var init := input[..|input| - 1];
      RunsPaired(t, u, live, g, color, n, init);
      StepPaired(t, u, live, g, color, n, Run(t, init), Run(u, init), input[|input| - 1]);
    }
  }

  lemma SameCaptures(t: Table, u: Table, color: seq<nat>, c: Config, d: Config)
    requires IsRenamed(t, u, color) && c.At? && d.At? && t.IsState(c.state) && c.state == d.state
    requires Held(Named(t.acceptRegMap[c.state]), color, c.regs, d.regs)
    ensures Captures(t, c) == Captures(u, d)
  {
    var rm := t.acceptRegMap[c.state];
    assert forall k :: 0 <= k < |rm| && rm[k] >= 0 ==> rm[k] in Named(rm);
  }

  lemma KeptSameAnswers(t: Table, u: Table, live: Live, g: Graph, color: seq<nat>, n: nat)
    requires IsRenamed(t, u, color) && Colouring(t, live, g, color, n) && EntryKeeps(t, u, color)
    ensures SameAnswers(t, u)
  {
    forall input: seq<Byte>
      ensures var c, d := Run(t, input), Run(u, input);
              && (c.Dead? <==> d.Dead?)
              && (c.At? ==> c.state == d.state && Captures(t, c) == Captures(u, d))
    {
      RunsPaired(t, u, live, g, color, n, input);
      WantedClosed(t);
      if Run(t, input).At? {
        SameCaptures(t, u, color, Run(t, input), Run(u, input));
      }
    }
  }

  // ---- And when it does not ----

  // Register r of t and its colour in u hold the same value whenever both machines are in state s.
  ghost predicate Agrees(t: Table, u: Table, color: seq<nat>, s: int, r: int)
    requires t.Valid() && u.Valid() && 0 <= r < |color|
  {
    forall input: seq<Byte> :: AgreesOn(t, u, color, s, r, input)
  }

  ghost predicate BothAt(t: Table, u: Table, s: int, input: seq<Byte>)
    requires t.Valid() && u.Valid()
  {
    var c, d := Run(t, input), Run(u, input);
    c.At? && d.At? && c.state == s == d.state
  }

  ghost predicate AgreesOn(t: Table, u: Table, color: seq<nat>, s: int, r: int, input: seq<Byte>)
    requires t.Valid() && u.Valid() && 0 <= r < |color|
  {
    BothAt(t, u, s, input) ==> Run(t, input).regs(r) == Run(u, input).regs(color[r])
  }

  ghost function Agreed(t: Table, u: Table, color: seq<nat>, live: Live): (a: Live)
    requires t.Valid() && u.Valid() && |live| == t.numStates
    ensures Inside(a, live) && Within(a, |color|)
  {
    seq(t.numStates, s requires 0 <= s < t.numStates =>
      set r | r in live[s] && 0 <= r < |color| && Agrees(t, u, color, s, r))
  }

  lemma AcceptsAgree(t: Table, u: Table, live: Live, color: seq<nat>, s: int)
    requires IsRenamed(t, u, color) && Closed(t, live) && t.IsState(s) && SameAnswers(t, u)
    ensures Named(t.acceptRegMap[s]) <= Agreed(t, u, color, live)[s]
  {
    var rm := t.acceptRegMap[s];
    forall r, input: seq<Byte> | r in Named(rm) ensures AgreesOn(t, u, color, s, r, input) {
      var c, d := Run(t, input), Run(u, input);
      var k :| 0 <= k < |rm| && rm[k] >= 0 && rm[k] == r;
      if BothAt(t, u, s, input) {
        assert Captures(t, c)[k] == Captures(u, d)[k];
      }
    }
  }

  lemma RunOn(t: Table, input: seq<Byte>, b: Byte)
    requires t.Valid()
    ensures Run(t, input + [b]) == Step(t, Run(t, input), b)
  {
    assert (input + [b])[..|input|] == input;
  }

  // Both machines one byte on.
  lemma OneByteOn(t: Table, u: Table, color: seq<nat>, s: int, b: Byte, input: seq<Byte>, q: int)
    requires IsRenamed(t, u, color) && t.IsState(s) && t.Next(s, b) >= 0 && BothAt(t, u, s, input)
    requires 0 <= q < |color| && Agrees(t, u, color, t.Next(s, b), q)
    ensures Exec(t.Ops(s, b), Advanced(Run(t, input).regs))(q)
            == Exec(RenameOps(t.Ops(s, b), color), Advanced(Run(u, input).regs))(color[q])
  {
    var c, d, next := Run(t, input), Run(u, input), t.Next(s, b);
    RenamedByte(t, u, color, s, d.regs, b);
    RunOn(t, input, b);
    RunOn(u, input, b);
    assert Step(t, c, b) == At(next, Exec(t.Ops(s, b), Advanced(c.regs)));
    assert AgreesOn(t, u, color, next, q, input + [b]);
  }

  // A register needed for agreement behind an edge agrees before it.
  lemma FlowsBack(t: Table, u: Table, live: set<int>, after: set<int>, color: seq<nat>, s: int, b: Byte,
                  input: seq<Byte>, r: int)
    requires IsRenamed(t, u, color) && t.IsState(s) && t.Next(s, b) >= 0 && BothAt(t, u, s, input)
    requires Follows(t.Ops(s, b), live, after, color) && r in Needed(t.Ops(s, b), after) && 0 <= r < |color|
    requires forall q :: q in after ==> Agrees(t, u, color, t.Next(s, b), q)
    ensures AgreesOn(t, u, color, s, r, input)
  {
    var x, y := Advanced(Run(t, input).regs), Advanced(Run(u, input).regs);
    var q := NeededFlows(t.Ops(s, b), live, after, color, x, y, r);
    OneByteOn(t, u, color, s, b, input, q);
  }

  lemma EdgesAgree(t: Table, u: Table, live: Live, g: Graph, color: seq<nat>, n: nat, s: int, b: int)
    requires IsRenamed(t, u, color) && Colouring(t, live, g, color, n)
    requires t.IsState(s) && 0 <= b < BYTES && t.Next(s, b) >= 0
    ensures Needed(t.Ops(s, b), Agreed(t, u, color, live)[t.Next(s, b)]) <= Agreed(t, u, color, live)[s]
  {
    var a, ops, next := Agreed(t, u, color, live), t.Ops(s, b), t.Next(s, b);
    EdgeFollows(t, live, g, color, n, a, s, b);
    ClosedIsNeedClosed(t, live);
    assert NeedEdge(t, live, s, b);
    NeededGrows(ops, a[next], live[next]);
    NeededWithin(t, ops, a[next]);
    forall r, input: seq<Byte> | r in Needed(ops, a[next]) ensures AgreesOn(t, u, color, s, r, input) {
      if BothAt(t, u, s, input) {
        FlowsBack(t, u, live[next], a[next], color, s, b, input, r);
      }
    }
  }

  lemma AgreedClosed(t: Table, u: Table, live: Live, g: Graph, color: seq<nat>, n: nat)
    requires IsRenamed(t, u, color) && Colouring(t, live, g, color, n) && SameAnswers(t, u)
    ensures NeedClosed(t, Agreed(t, u, color, live))
  {
    var a := Agreed(t, u, color, live);
    forall s | t.IsState(s) ensures Named(t.acceptRegMap[s]) <= a[s] {
      AcceptsAgree(t, u, live, color, s);
    }
    forall s, b | t.IsState(s) && 0 <= b < BYTES ensures NeedEdge(t, a, s, b) {
      if t.Next(s, b) >= 0 {
        EdgesAgree(t, u, live, g, color, n, s, b);
      }
    }
  }

  lemma SameAnswersKeep(t: Table, u: Table, live: Live, g: Graph, color: seq<nat>, n: nat)
    requires IsRenamed(t, u, color) && Colouring(t, live, g, color, n) && SameAnswers(t, u)
    ensures EntryKeeps(t, u, color)
  {
    var a := Agreed(t, u, color, live);
    AgreedClosed(t, u, live, g, color, n);
    WantedBelow(t, a);
    StartPos(t);
    StartPos(u);
    forall r | r in Wanted(t)[0] ensures Start(u).regs(color[r]) == Start(t).regs(r) {
      assert r in a[0] && AgreesOn(t, u, color, 0, r, []);
    }
  }

  lemma StartPos(t: Table)
    requires t.Valid()
    ensures Start(t).regs(POS) == 0
  {
    ExecPos(t.entryOps, Set(_ => -1, POS, 0));
  }

  // ---- The exact condition ----

  // A proper colouring of the interference graph keeps every answer exactly when the entry operations leave whatever
  // will be read in its colour.
  lemma RenameSameAnswers(t: Table, live: Live, g: Graph, color: seq<nat>, n: nat)
    requires t.Valid() && Colouring(t, live, g, color, n)
    ensures SameAnswers(t, RenameTable(t, color, n)) <==> EntryKeeps(t, RenameTable(t, color, n), color)
  {
    var u := RenameTable(t, color, n);
    TableIsRenamed(t, color, n);
    if EntryKeeps(t, u, color) {
      KeptSameAnswers(t, u, live, g, color, n);
    }
    if SameAnswers(t, u) {
      SameAnswersKeep(t, u, live, g, color, n);
    }
  }

  // When no entry operation reads a register an earlier one wrote, they always do.
  lemma NoReadBackKeeps(t: Table, live: Live, g: Graph, color: seq<nat>, n: nat)
    requires t.Valid() && Colouring(t, live, g, color, n) && NoReadBack(t.entryOps)
    ensures EntryKeeps(t, RenameTable(t, color, n), color)
  {
    var w, a := Wanted(t), Set(_ => -1, POS, 0);
    EntrySeparated(t, live, g, color, n);
    WantedClosed(t);
    ClosedIsNeedClosed(t, live);
    WantedBelow(t, live);
    NeededGrows(t.entryOps, w[0], live[0]);
    NeededHeld(t.entryOps, live[0], w[0], color, a, a);
  }
}
