/** minimizeTDFARegisters: dead writes out, registers merged, no answer changed. */
module RegisterMinimize {
  import opened TagOps
  import opened Tdfa
  import opened RegisterLiveness
  import opened RegisterColouring
  import opened RegisterNeed

  class TaggedAutomaton {
    var table: Table

    constructor (t: Table)
      ensures table == t
    {
      table := t;
    }
  }

  // Why a colouring is one the minimiser may use: no write is dead for the least live sets, the graph joins exactly
  // what conflicts, and no colour is wasted.
  ghost predicate Justified(t: Table, live: Live, g: Graph, color: seq<nat>, colors: nat)
    requires t.Valid()
  {
    && Least(t, live) && Colouring(t, live, g, color, colors) && NoSpare(t, live, g) && AllTight(g, color)
    && (colors > 0 ==> exists r :: 0 <= r < |color| && color[r] == colors - 1)
  }

  // One state, accepting; its entry operations set register 0, copy it to register 1, and leave register 2 unset.
  const READ_BACK := Table(1, 3, seq(BYTES, _ => -1), seq(BYTES, _ => []), [TagOp(0, POS), TagOp(1, 0)], [[2, 1]], {0},
                           {0}, {})

  const READ_BACK_GRAPH: Graph := [{1}, {0, 2}, {1}]

  lemma ReadBackLive()
    ensures READ_BACK.Valid() && Closed(READ_BACK, [{1, 2}]) && Least(READ_BACK, [{1, 2}])
    ensures NoDeadWrites(READ_BACK, [{1, 2}])
  {
    var t, live := READ_BACK, [{1, 2}];
    assert t.acceptRegMap[0] == [2, 1];
    assert Named([2, 1]) == {1, 2} by {
      assert [2, 1][0] == 2 && [2, 1][1] == 1;
    }
    var ops := [TagOp(0, POS), TagOp(1, 0)];
    assert ops[1..] == [TagOp(1, 0)] && DropDead([TagOp(1, 0)], {1, 2}) == [TagOp(1, 0)];
    assert !DeadHead(ops, {1, 2}) by {
      assert ops[1].src == ops[0].dst;
    }
    assert DropAll(t, live).tagOps == t.tagOps;
  }

  lemma ReadBackGraph()
    ensures READ_BACK.Valid() && Interferences(READ_BACK, [{1, 2}], READ_BACK_GRAPH)
    ensures NoSpare(READ_BACK, [{1, 2}], READ_BACK_GRAPH)
  {
    var t, live, g := READ_BACK, [{1, 2}], READ_BACK_GRAPH;
    assert t.entryOps[0] == TagOp(0, POS) && t.entryOps[1] == TagOp(1, 0);
    forall a, b | 0 <= a < |g| && b in g[a] ensures Conflict(t, live, a, b) {
      if a != 0 && b != 0 {
        assert a in live[0] && b in live[0];
      } else if a == 0 {
        assert PairConflict(t.entryOps[0], t.entryOps[1], a, b);
      } else {
        assert PairConflict(t.entryOps[1], t.entryOps[0], a, b);
      }
    }
  }

  lemma ReadBackColours()
    ensures Proper(READ_BACK_GRAPH, [1, 0, 1]) && AllTight(READ_BACK_GRAPH, [1, 0, 1])
  {
    var g, color := READ_BACK_GRAPH, [1, 0, 1];
    assert g[1] == {0, 2} && |g[1]| == 2 && |g[0]| == 1 && |g[2]| == 1;
    forall r | 0 <= r < |g| ensures Tight(g, color, r) {
      forall k | 0 <= k < color[r] ensures TakenEarlier(g, color, r, k) {
        assert 1 in g[r] && color[1] == k && Earlier(g, 1, r);
      }
    }
  }

  lemma TwoExecuted(a: TagOp, b: TagOp, regs: Regs)
    ensures var one := Set(regs, a.dst, regs(a.src)); Exec([a, b], regs) == Set(one, b.dst, one(b.src))
  {
    var one := Set(regs, a.dst, regs(a.src));
    assert [a, b][1..] == [b] && [b][1..] == [];
    assert Exec([b], one) == Exec([], Set(one, b.dst, one(b.src)));
  }

  lemma ReadBackBefore()
    ensures READ_BACK.Valid() && Captures(READ_BACK, Run(READ_BACK, [])) == [-1, 0]
  {
    TwoExecuted(TagOp(0, POS), TagOp(1, 0), Set(_ => -1, POS, 0));
    assert READ_BACK.acceptRegMap[0] == [2, 1];
  }

  lemma ReadBackAfter()
    ensures READ_BACK.Valid() && Bounded([1, 0, 1], 2)
    ensures var u := RenameTable(READ_BACK, [1, 0, 1], 2); u.Valid() && Captures(u, Run(u, [])) == [0, 0]
  {
    var color := [1, 0, 1];
    assert color[0] == 1;
    var u, ops := RenameTable(READ_BACK, color, 2), READ_BACK.entryOps;
    assert ops[1..] == [TagOp(1, 0)] && RenameOps([TagOp(1, 0)], color) == [TagOp(0, 1)];
    assert u.entryOps == [TagOp(1, POS), TagOp(0, 1)];
    TwoExecuted(TagOp(1, POS), TagOp(0, 1), Set(_ => -1, POS, 0));
    assert READ_BACK.acceptRegMap[0] == [2, 1] && u.acceptRegMap[0] == [1, 0];
  }

  // Registers 0 and 2 are never live together, so the only colouring the minimiser can choose merges them: the answer
  // for the empty input then gives the unset tag the position.
  lemma ReadBackBreaks()
    ensures READ_BACK.Valid() && Justified(READ_BACK, [{1, 2}], READ_BACK_GRAPH, [1, 0, 1], 2)
    ensures Captures(READ_BACK, Run(READ_BACK, [])) == [-1, 0]
    ensures var u := RenameTable(READ_BACK, [1, 0, 1], 2);
            u.Valid() && Captures(u, Run(u, [])) == [0, 0] && !SameAnswers(READ_BACK, u)
  {
    ReadBackLive();
    ReadBackGraph();
    ReadBackColours();
    ReadBackBefore();
    ReadBackAfter();
    var u := RenameTable(READ_BACK, [1, 0, 1], 2);
    assert [-1, 0][0] != [0, 0][0];
    assert Captures(READ_BACK, Run(READ_BACK, [])) != Captures(u, Run(u, []));
    assert [1, 0, 1][0] == 1;
  }

  // The entry operations a first state has: newTDFA's start threads name no register, so each records the position.
  ghost predicate Positional(ops: seq<TagOp>) {
    forall i :: 0 <= i < |ops| ==> ops[i].dst >= 0 && ops[i].src == POS
  }

  // The whole match body answers alike, on every input.
  ghost predicate SameMatches(t: Table, u: Table)
    requires t.Valid() && u.Valid()
  {
    forall input: seq<Byte> :: MatchFrom(t, input, 0, NoMatch) == MatchFrom(u, input, 0, NoMatch)
  }

  lemma AnswersMatch(t: Table, u: Table)
    requires t.Valid() && u.Valid() && SameAnswers(t, u)
    requires t.eofAccept == u.eofAccept && t.midAccept == u.midAccept && t.immediateAccept == u.immediateAccept
    ensures SameMatches(t, u)
  {
    forall input: seq<Byte> ensures MatchFrom(t, input, 0, NoMatch) == MatchFrom(u, input, 0, NoMatch) {
      SameMatch(t, u, input, 0, NoMatch);
    }
  }

  lemma SameAnswersSym(t: Table, u: Table)
    requires t.Valid() && u.Valid() && SameAnswers(t, u)
    ensures SameAnswers(u, t)
  {
  }

  // t is what the given table became, u the renamed copy.
  lemma CopyAnswers(given: Table, t: Table, live: Live, g: Graph, color: seq<nat>, n: nat)
    requires given.Valid() && t.Valid() && SameAnswers(given, t) && Colouring(t, live, g, color, n)
    ensures var u := RenameTable(t, color, n); SameAnswers(given, u) <==> EntryKeeps(t, u, color)
    ensures NoReadBack(t.entryOps) ==> SameAnswers(given, RenameTable(t, color, n))
  {
    var u := RenameTable(t, color, n);
    RenameSameAnswers(t, live, g, color, n);
    if SameAnswers(t, u) {
      SameAnswersTrans(given, t, u);
    }
    if SameAnswers(given, u) {
      SameAnswersSym(given, t);
      SameAnswersTrans(t, given, u);
    }
    if NoReadBack(t.entryOps) {
      NoReadBackKeeps(t, live, g, color, n);
    }
  }

  // Dead writes are removed from the caller's table in place; a renamed copy is returned when it needs fewer registers.
  // The copy keeps every answer exactly when its entry operations leave in its colour whatever will be read, and always
  // when the given ones only record the position.
  method MinimizeRegisters(tt: TaggedAutomaton)
    returns (out: TaggedAutomaton, ghost live: Live, ghost g: Graph, ghost color: seq<nat>, ghost colors: nat)
    requires tt.table.Valid()
    modifies tt
    ensures tt.table.Valid() && out.table.Valid()
    ensures SameAnswers(old(tt.table), tt.table) && SameMatches(old(tt.table), tt.table)
    ensures out != tt ==>
              |color| == tt.table.numRegs && Bounded(color, colors) &&
              (SameAnswers(old(tt.table), out.table) <==> EntryKeeps(tt.table, out.table, color))
    ensures Positional(old(tt.table.entryOps)) || NoReadBack(old(tt.table.entryOps)) ==>
              SameAnswers(old(tt.table), out.table) && SameMatches(old(tt.table), out.table)
    ensures out == tt || (fresh(out) && out.table.numRegs < old(tt.table.numRegs))
    ensures old(tt.table.numRegs) <= 1 ==> out == tt && tt.table == old(tt.table)
    ensures old(tt.table.numRegs) > 1 ==>
              && Justified(tt.table, live, g, color, colors)
              && (out == tt <==> colors >= tt.table.numRegs)
              && (out != tt ==> out.table == RenameTable(tt.table, color, colors))
    ensures tt.table == old(tt.table).(tagOps := tt.table.tagOps, entryOps := tt.table.entryOps)
    ensures out.table.eofAccept == old(tt.table.eofAccept) && out.table.midAccept == old(tt.table.midAccept)
    ensures out.table.immediateAccept == old(tt.table.immediateAccept)
  {
    live, g, color, colors := [], [], [], 0;
    if tt.table.numRegs <= 1 {
      return tt, live, g, color, colors;
    }
    ghost var given := tt.table;
    var t, lives := RemoveDeadWrites(tt.table);
    AnswersMatch(given, t);
    tt.table := t;
    var graph := BuildInterference(t, lives);
    var chosen, used := GreedyColour(graph);
    live, g, color, colors := lives, graph, chosen, used;
    if used >= t.numRegs {
      return tt, live, g, color, colors;
    }
    CopyAnswers(given, t, lives, graph, chosen, used);
    out := new TaggedAutomaton(RenameTable(t, chosen, used));
    if SameAnswers(given, out.table) {
      AnswersMatch(given, out.table);
    }
  }
}
