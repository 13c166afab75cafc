/** Backwards liveness over a tagged automaton's registers, and the removal of dead writes. */
module RegisterLiveness {
  import opened FiniteSets
  import opened TagOps
  import opened Tdfa

  type Live = seq<set<int>>

  function Dsts(ops: seq<TagOp>): set<int> {
    set i | 0 <= i < |ops| :: ops[i].dst
  }

  function Srcs(ops: seq<TagOp>): set<int> {
    set i | 0 <= i < |ops| && ops[i].src >= 0 :: ops[i].src
  }

  function Named(regMap: seq<int>): set<int> {
    set k | 0 <= k < |regMap| && regMap[k] >= 0 :: regMap[k]
  }

  // live is a solution of the dataflow equations, read as inclusions.
  ghost predicate EdgeClosed(t: Table, live: Live, s: int, b: int)
    requires t.Valid() && |live| == t.numStates && t.IsState(s) && 0 <= b < BYTES
  {
    t.Next(s, b) >= 0 ==> (live[t.Next(s, b)] - Dsts(t.Ops(s, b))) + Srcs(t.Ops(s, b)) <= live[s]
  }

  ghost predicate Closed(t: Table, live: Live)
    requires t.Valid()
  {
    && |live| == t.numStates
    && (forall s :: t.IsState(s) ==> Named(t.acceptRegMap[s]) <= live[s])
    && (forall s, b :: t.IsState(s) && 0 <= b < BYTES ==> EdgeClosed(t, live, s, b))
  }

  // ---- The meaning of liveness inside a batch ----

  // What must be right before the batch for the registers in after to be right behind it.
  function LiveBefore(ops: seq<TagOp>, after: set<int>): set<int> {
    if ops == [] then after
    else
      var rest := LiveBefore(ops[1..], after) - {ops[0].dst};
      if ops[0].src >= 0 then rest + {ops[0].src} else rest
  }

  lemma BatchCons(ops: seq<TagOp>)
    requires ops != []
    ensures Dsts(ops) == {ops[0].dst} + Dsts(ops[1..])
    ensures Srcs(ops) == (if ops[0].src >= 0 then {ops[0].src} else {}) + Srcs(ops[1..])
  {
    assert forall i :: 0 <= i < |ops[1..]| ==> ops[1..][i] == ops[i + 1];
    assert forall i :: 1 <= i < |ops| ==> ops[i] == ops[1..][i - 1];
  }

  lemma {:induction false} LiveBeforeBound(ops: seq<TagOp>, after: set<int>)
    ensures LiveBefore(ops, after) <= (after - Dsts(ops)) + Srcs(ops)
  {
    if ops != [] {
      LiveBeforeBound(ops[1..], after);
      BatchCons(ops);
    }
  }

  ghost predicate Agree(live: set<int>, a: Regs, b: Regs) {
    a(POS) == b(POS) && forall r :: r in live ==> a(r) == b(r)
  }

  // ---- Dead writes ----

  predicate DeadHead(ops: seq<TagOp>, after: set<int>)
    requires ops != []
  {
    ops[0].dst !in after && forall i :: 1 <= i < |ops| ==> ops[i].src != ops[0].dst
  }

  // The batch without its dead writes; deadness is judged against the whole original batch.
  function DropDead(ops: seq<TagOp>, after: set<int>): (kept: seq<TagOp>)
    ensures |kept| <= |ops|
  {
    if ops == [] then []
    else
      var rest := DropDead(ops[1..], after);
      if DeadHead(ops, after) then rest else [ops[0]] + rest
  }

  lemma DeadHeadNotNeeded(ops: seq<TagOp>, after: set<int>)
    requires ops != [] && ops[0].dst >= 0 && DeadHead(ops, after)
    ensures ops[0].dst !in LiveBefore(ops[1..], after)
  {
    LiveBeforeBound(ops[1..], after);
    assert forall i :: 0 <= i < |ops[1..]| ==> ops[1..][i] == ops[i + 1];
  }

  lemma {:induction false} DropDeadAgrees(ops: seq<TagOp>, after: set<int>, a: Regs, b: Regs)
    requires forall i :: 0 <= i < |ops| ==> ops[i].dst >= 0 && ops[i].src >= POS
    requires Agree(LiveBefore(ops, after), a, b)
    ensures Agree(after, Exec(ops, a), Exec(DropDead(ops, after), b))
  {
    if ops != [] {
      var op, rest := ops[0], ops[1..];
      var a' := Set(a, op.dst, a(op.src));
      if DeadHead(ops, after) {
        DeadHeadNotNeeded(ops, after);
        DropDeadAgrees(rest, after, a', b);
      } else {
        var b' := Set(b, op.dst, b(op.src));
        DropDeadAgrees(rest, after, a', b');
        assert ([op] + DropDead(rest, after))[1..] == DropDead(rest, after);
      }
    }
  }

  function Kept(t: Table, live: Live, k: nat): (kept: seq<TagOp>)
    requires t.Valid() && |live| == t.numStates && k < |t.tagOps|
    ensures |kept| <= |t.tagOps[k]|
  {
    if t.IsState(t.transitions[k]) then DropDead(t.tagOps[k], live[t.transitions[k]]) else t.tagOps[k]
  }

  // The same table with every batch's dead writes removed.
  function DropAll(t: Table, live: Live): (u: Table)
    requires t.Valid() && |live| == t.numStates
    ensures u.Valid() && u.numRegs == t.numRegs && u.numStates == t.numStates
    ensures forall s, b :: t.IsState(s) && 0 <= b < BYTES ==> u.Next(s, b) == t.Next(s, b)
    ensures forall s, b :: t.IsState(s) && 0 <= b < BYTES && t.Next(s, b) >= 0 ==>
              u.Ops(s, b) == DropDead(t.Ops(s, b), live[t.Next(s, b)])
    ensures u.acceptRegMap == t.acceptRegMap && u.entryOps == DropDead(t.entryOps, live[0])
  {
    var ops := seq(|t.tagOps|, k requires 0 <= k < |t.tagOps| => Kept(t, live, k));
    DropDeadValid(t, live);
    t.(tagOps := ops, entryOps := DropDead(t.entryOps, live[0]))
  }

  lemma DropDeadKeeps(t: Table, ops: seq<TagOp>, after: set<int>)
    requires t.ValidOps(ops)
    ensures t.ValidOps(DropDead(ops, after))
  {
    if ops != [] {
      DropDeadKeeps(t, ops[1..], after);
    }
  }

  // No operation reads a register that an earlier one of the batch wrote.
  ghost predicate NoReadBack(ops: seq<TagOp>) {
    forall i, j :: 0 <= i < j < |ops| ==> ops[j].src != ops[i].dst
  }

  lemma {:induction false} DropDeadPicks(ops: seq<TagOp>, after: set<int>)
    ensures forall op :: op in DropDead(ops, after) ==> op in ops
    ensures NoReadBack(ops) ==> NoReadBack(DropDead(ops, after))
  {
    if ops != [] {
      var rest := ops[1..];
      DropDeadPicks(rest, after);
      assert forall op :: op in rest ==> op in ops;
      if NoReadBack(ops) {
        assert forall i :: 0 <= i < |rest| ==> rest[i] == ops[i + 1];
        var kept := DropDead(rest, after);
        forall j | 0 <= j < |kept| ensures kept[j].src != ops[0].dst {
          assert kept[j] in kept;
        }
      }
    }
  }

  lemma DropDeadValid(t: Table, live: Live)
    requires t.Valid() && |live| == t.numStates
    ensures forall k :: 0 <= k < |t.tagOps| && t.IsState(t.transitions[k]) ==>
              t.ValidOps(DropDead(t.tagOps[k], live[t.transitions[k]]))
    ensures t.ValidOps(DropDead(t.entryOps, live[0]))
  {
    forall k | 0 <= k < |t.tagOps| && t.IsState(t.transitions[k])
      ensures t.ValidOps(DropDead(t.tagOps[k], live[t.transitions[k]]))
    {
      DropDeadKeeps(t, t.tagOps[k], live[t.transitions[k]]);
    }
    DropDeadKeeps(t, t.entryOps, live[0]);
  }

  // The simulation: the same state, and the same value in every register live there.
  ghost predicate Alike(live: Live, c: Config, d: Config) {
    && (c.Dead? <==> d.Dead?)
    && (c.At? ==> 0 <= c.state < |live| && c.state == d.state && Agree(live[c.state], c.regs, d.regs))
  }

  lemma DropStep(t: Table, live: Live, c: Config, d: Config, b: Byte)
    requires t.Valid() && Closed(t, live) && Alike(live, c, d)
    ensures Alike(live, Step(t, c, b), Step(DropAll(t, live), d, b))
  {
    if c.At? && t.Next(c.state, b) >= 0 {
      var ops, after := t.Ops(c.state, b), live[t.Next(c.state, b)];
      assert EdgeClosed(t, live, c.state, b);
      LiveBeforeBound(ops, after);
      DropDeadAgrees(ops, after, Set(c.regs, POS, c.regs(POS) + 1), Set(d.regs, POS, d.regs(POS) + 1));
    }
  }

  lemma {:induction false} DropAllSimulates(t: Table, live: Live, input: seq<Byte>)
    requires t.Valid() && Closed(t, live)
    ensures Alike(live, Run(t, input), Run(DropAll(t, live), input))
  {
    if input == [] {
      DropDeadAgrees(t.entryOps, live[0], Set(_ => -1, POS, 0), Set(_ => -1, POS, 0));
    } else {
      var init := input[..|input| - 1];
      DropAllSimulates(t, live, init);
      DropStep(t, live, Run(t, init), Run(DropAll(t, live), init), input[|input| - 1]);
    }
  }

  // Removing dead writes changes no answer.
  lemma DropAllSameAnswers(t: Table, live: Live)
    requires t.Valid() && Closed(t, live)
    ensures SameAnswers(t, DropAll(t, live))
  {
    forall input: seq<Byte>
      ensures var c, d := Run(t, input), Run(DropAll(t, live), input);
              && (c.Dead? <==> d.Dead?)
              && (c.At? ==> c.state == d.state && Captures(t, c) == Captures(DropAll(t, live), d))
    {
      DropAllSimulates(t, live, input);
      var c := Run(t, input);
      if c.At? {
        assert forall k :: 0 <= k < |t.acceptRegMap[c.state]| && t.acceptRegMap[c.state][k] >= 0 ==>
            t.acceptRegMap[c.state][k] in Named(t.acceptRegMap[c.state]);
      }
    }
  }

  // ---- The dataflow loop ----

  function AllRegs(n: nat): (all: set<int>)
    ensures (forall r :: r in all <==> 0 <= r < n) && |all| == n
  {
    if n == 0 then {} else AllRegs(n - 1) + {n - 1}
  }

  ghost predicate Inside(a: Live, b: Live) {
    |a| == |b| && forall s :: 0 <= s < |a| ==> a[s] <= b[s]
  }

  ghost predicate Within(live: Live, n: nat) {
    forall s :: 0 <= s < |live| ==> live[s] <= AllRegs(n)
  }

  // How far the sets can still grow.
  ghost function Slack(live: Live, n: nat): int {
    if live == [] then 0 else n - |live[0]| + Slack(live[1..], n)
  }

  lemma {:induction false} SlackBound(live: Live, n: nat)
    requires Within(live, n)
    ensures Slack(live, n) >= 0
  {
    if live != [] {
      SubsetSize(live[0], AllRegs(n));
      SlackBound(live[1..], n);
    }
  }

  lemma {:induction false} SlackDrops(live: Live, s: nat, grown: set<int>, n: nat)
    requires s < |live| && live[s] <= grown && live[s] != grown
    ensures Slack(live[s := grown], n) < Slack(live, n)
  {
    if s == 0 {
      ProperSubsetSize(live[0], grown);
      assert live[0 := grown][1..] == live[1..];
    } else {
      SlackDrops(live[1..], s - 1, grown, n);
      assert live[s := grown][1..] == live[1..][s - 1 := grown];
    }
  }

  lemma InRange(t: Table, s: int, b: int)
    requires t.Valid() && t.IsState(s) && 0 <= b < BYTES
    ensures Srcs(t.Ops(s, b)) <= AllRegs(t.numRegs) && Named(t.acceptRegMap[s]) <= AllRegs(t.numRegs)
  {
    assert t.ValidOps(t.Ops(s, b));
  }

  ghost predicate Least(t: Table, live: Live)
    requires t.Valid()
  {
    forall other :: Closed(t, other) ==> Inside(live, other)
  }

  // The least sets of registers a future accept may need, states visited high to low until nothing changes.
  method ComputeLive(t: Table) returns (live: Live)
    requires t.Valid()
    ensures Closed(t, live) && Within(live, t.numRegs)
    ensures Least(t, live)
  {
    var n := t.numStates;
    live := [];
    for s := 0 to n
      invariant |live| == s && Within(live, t.numRegs)
      invariant forall k :: 0 <= k < s ==> live[k] == Named(t.acceptRegMap[k])
    {
      InRange(t, s, 0);
      live := live + [Named(t.acceptRegMap[s])];
    }
    var changed := true;
    while changed
      invariant Seeded(t, live)
      invariant !changed ==> Closed(t, live)
      decreases Slack(live, t.numRegs), changed
    {
      SlackBound(live, t.numRegs);
      live, changed := LivePass(t, live);
    }
  }

  // What every intermediate solution keeps: above the accept seeds, below every solution.
  ghost predicate Seeded(t: Table, live: Live)
    requires t.Valid()
  {
    && |live| == t.numStates && Within(live, t.numRegs)
    && (forall s :: t.IsState(s) ==> Named(t.acceptRegMap[s]) <= live[s])
    && Least(t, live)
  }

  method LivePass(t: Table, start: Live) returns (live: Live, changed: bool)
    requires t.Valid() && Seeded(t, start)
    ensures Seeded(t, live)
    ensures if changed then 0 <= Slack(live, t.numRegs) < Slack(start, t.numRegs) else live == start && Closed(t, live)
  {
    live, changed := start, false;
    SlackBound(live, t.numRegs);
    for s := t.numStates downto 0
      invariant Seeded(t, live)
      invariant if changed then Slack(live, t.numRegs) < Slack(start, t.numRegs) else live == start
      invariant !changed ==> forall s', b :: s <= s' < t.numStates && 0 <= b < BYTES ==> EdgeClosed(t, live, s', b)
    {
      for b := 0 to BYTES
        invariant Seeded(t, live)
        invariant if changed then Slack(live, t.numRegs) < Slack(start, t.numRegs) else live == start
        invariant !changed ==> forall s', b' :: s < s' < t.numStates && 0 <= b' < BYTES ==> EdgeClosed(t, live, s', b')
        invariant !changed ==> forall b' :: 0 <= b' < b ==> EdgeClosed(t, live, s, b')
      {
        var next := t.Next(s, b);
        if next >= 0 {
          var ops := t.Ops(s, b);
          var grown := live[s] + (live[next] - Dsts(ops)) + Srcs(ops);
          if grown != live[s] {
            GrowKeeps(t, live, s, b);
            SlackDrops(live, s, grown, t.numRegs);
            live, changed := live[s := grown], true;
          }
        }
      }
    }
    SlackBound(live, t.numRegs);
  }

  lemma GrowKeeps(t: Table, live: Live, s: int, b: int)
    requires t.Valid() && Seeded(t, live) && t.IsState(s) && 0 <= b < BYTES && t.Next(s, b) >= 0
    ensures Seeded(t, live[s := live[s] + (live[t.Next(s, b)] - Dsts(t.Ops(s, b))) + Srcs(t.Ops(s, b))])
  {
    InRange(t, s, b);
    forall other | Closed(t, other)
      ensures Inside(live[s := live[s] + (live[t.Next(s, b)] - Dsts(t.Ops(s, b))) + Srcs(t.Ops(s, b))], other)
    {
      assert EdgeClosed(t, other, s, b);
    }
  }

  // ---- Removing dead writes until none is left ----

  function OpCount(batches: seq<seq<TagOp>>): nat {
    if batches == [] then 0 else OpCount(batches[..|batches| - 1]) + |batches[|batches| - 1]|
  }

  // dropDead: the kept operations, and whether any was dropped.
  method DropDeadLoop(ops: seq<TagOp>, after: set<int>) returns (kept: seq<TagOp>, dropped: bool)
    ensures kept == DropDead(ops, after) && (dropped <==> kept != ops) && (dropped ==> |kept| < |ops|)
  {
    kept, dropped := [], false;
    for i := |ops| downto 0
      invariant kept == DropDead(ops[i..], after) && (dropped <==> |kept| < |ops[i..]|)
      invariant !dropped ==> kept == ops[i..]
    {
      assert ops[i..][1..] == ops[i + 1..];
      var dead := ops[i].dst !in after;
      if dead {
        for j := i + 1 to |ops|
          invariant dead == forall k :: i < k < j ==> ops[k].src != ops[i].dst
        {
          dead := dead && ops[j].src != ops[i].dst;
        }
      }
      assert dead == DeadHead(ops[i..], after) by {
        assert forall k :: 1 <= k < |ops[i..]| ==> ops[i..][k] == ops[i + k];
      }
      if dead {
        dropped := true;
      } else {
        kept := [ops[i]] + kept;
      }
    }
    assert ops[0..] == ops;
  }

  // One sweep over every transition and the entry operations.
  method DropPass(t: Table, live: Live) returns (u: Table, removed: bool)
    requires t.Valid() && |live| == t.numStates
    ensures u == DropAll(t, live) && (removed <==> u != t)
    ensures removed ==> OpCount(u.tagOps) + |u.entryOps| < OpCount(t.tagOps) + |t.entryOps|
  {
    var ops: seq<seq<TagOp>> := [];
    removed := false;
    for k := 0 to |t.tagOps|
      invariant |ops| == k && forall j :: 0 <= j < k ==> ops[j] == Kept(t, live, j)
      invariant removed <==> exists j :: 0 <= j < k && |ops[j]| < |t.tagOps[j]|
      invariant !removed ==> forall j :: 0 <= j < k ==> ops[j] == t.tagOps[j]
    {
      var kept, dropped := t.tagOps[k], false;
      if t.IsState(t.transitions[k]) {
        kept, dropped := DropDeadLoop(kept, live[t.transitions[k]]);
      }
      ops, removed := ops + [kept], removed || dropped;
    }
    var entry, dropped := DropDeadLoop(t.entryOps, live[0]);
    assert ops == DropAll(t, live).tagOps;
    FewerOps(ops, t.tagOps);
    removed := removed || dropped;
    u := t.(tagOps := ops, entryOps := entry);
  }

  lemma {:induction false} FewerOps(a: seq<seq<TagOp>>, b: seq<seq<TagOp>>)
    requires |a| == |b| && forall k :: 0 <= k < |a| ==> |a[k]| <= |b[k]|
    ensures OpCount(a) <= OpCount(b)
    ensures (exists k :: 0 <= k < |a| && |a[k]| < |b[k]|) ==> OpCount(a) < OpCount(b)
  {
    if a != [] {
      var n := |a| - 1;
      FewerOps(a[..n], b[..n]);
      if k :| 0 <= k < |a| && |a[k]| < |b[k]| && k < n {
        assert |a[..n][k]| < |b[..n][k]|;
      }
    }
  }

  // No write in the table is dead for live.
  ghost predicate NoDeadWrites(t: Table, live: Live)
    requires t.Valid() && |live| == t.numStates
  {
    DropAll(t, live) == t
  }

  method RemoveDeadWrites(t: Table) returns (u: Table, live: Live)
    requires t.Valid()
    ensures u.Valid() && u == t.(tagOps := u.tagOps, entryOps := u.entryOps)
    ensures SameAnswers(t, u) && (NoReadBack(t.entryOps) ==> NoReadBack(u.entryOps))
    ensures Closed(u, live) && Least(u, live) && Within(live, u.numRegs) && NoDeadWrites(u, live)
  {
    u, live := t, [];
    var removed := true;
    while removed
      invariant u.Valid() && u == t.(tagOps := u.tagOps, entryOps := u.entryOps) && SameAnswers(t, u)
      invariant NoReadBack(t.entryOps) ==> NoReadBack(u.entryOps)
      invariant !removed ==> Closed(u, live) && Least(u, live) && Within(live, u.numRegs) && NoDeadWrites(u, live)
      decreases OpCount(u.tagOps) + |u.entryOps|, removed
    {
      live := ComputeLive(u);
      ghost var before := u;
      DropAllSameAnswers(u, live);
      DropDeadPicks(u.entryOps, live[0]);
      u, removed := DropPass(u, live);
      SameAnswersTrans(t, before, u);
    }
  }

  lemma SameAnswersTrans(t: Table, u: Table, w: Table)
    requires t.Valid() && u.Valid() && w.Valid() && SameAnswers(t, u) && SameAnswers(u, w)
    ensures SameAnswers(t, w)
  {
  }
}
