/** The graph of registers that may not share a colour, its greedy colouring, and the renamed table: the middle of
    minimizeTDFARegisters. */
module RegisterColouring {
  import opened FiniteSets
  import opened TagOps
  import opened Tdfa
  import opened RegisterLiveness

  type Graph = seq<set<int>>

  ghost predicate Edge(g: Graph, a: int, b: int) {
    0 <= a < |g| && 0 <= b < |g| && b in g[a] && a in g[b]
  }

  // ---- What the graph must contain ----

  ghost predicate Clique(g: Graph, regs: set<int>) {
    forall a, b :: a in regs && b in regs && a != b ==> Edge(g, a, b)
  }

  // Two registers written by one batch, or written by one operation and read by another.
  ghost predicate BatchEdges(g: Graph, ops: seq<TagOp>) {
    forall i, j :: 0 <= i < |ops| && 0 <= j < |ops| && i != j ==>
      && (ops[i].dst != ops[j].dst ==> Edge(g, ops[i].dst, ops[j].dst))
      && (ops[j].src >= 0 && ops[i].dst != ops[j].src ==> Edge(g, ops[i].dst, ops[j].src))
  }

  // Rows name registers in range, and never their own.
  ghost predicate Simple(g: Graph) {
    forall r :: 0 <= r < |g| ==> g[r] <= AllRegs(|g|) - {r}
  }

  ghost predicate Interferences(t: Table, live: Live, g: Graph)
    requires t.Valid() && |live| == t.numStates
  {
    && |g| == t.numRegs
    && (forall s :: 0 <= s < |live| ==> Clique(g, live[s]))
    && (forall k :: 0 <= k < |t.tagOps| ==> BatchEdges(g, t.tagOps[k]))
    && BatchEdges(g, t.entryOps)
  }

  // Two operations of one batch name a and b, a destination on one side at least.
  ghost predicate BatchConflict(ops: seq<TagOp>, a: int, b: int) {
    exists i, j :: 0 <= i < |ops| && 0 <= j < |ops| && i != j && PairConflict(ops[i], ops[j], a, b)
  }

  ghost predicate PairConflict(op: TagOp, other: TagOp, a: int, b: int) {
    (op.dst == a && (other.dst == b || other.src == b)) || (op.src == a && other.dst == b)
  }

  ghost predicate CoLive(live: Live, a: int, b: int) {
    exists s :: 0 <= s < |live| && a in live[s] && b in live[s]
  }

  // Why two registers may not share a colour.
  ghost predicate Conflict(t: Table, live: Live, a: int, b: int) {
    || CoLive(live, a, b)
    || (exists k :: 0 <= k < |t.tagOps| && BatchConflict(t.tagOps[k], a, b))
    || BatchConflict(t.entryOps, a, b)
  }

  // The graph holds no edge without a reason.
  ghost predicate NoSpare(t: Table, live: Live, g: Graph) {
    forall a, b :: 0 <= a < |g| && b in g[a] ==> Conflict(t, live, a, b)
  }

  ghost predicate Proper(g: Graph, color: seq<nat>) {
    |color| == |g| && forall a, b :: Edge(g, a, b) && a != b ==> color[a] != color[b]
  }

  // ---- Renaming ----

  function Rename(color: seq<nat>, r: int): int
    requires r < |color|
  {
    if r < 0 then r else color[r]
  }

  function RenameOps(ops: seq<TagOp>, color: seq<nat>): (out: seq<TagOp>)
    requires forall i :: 0 <= i < |ops| ==> 0 <= ops[i].dst < |color| && ops[i].src < |color|
  {
    if ops == [] then []
    else
      var op := TagOp(color[ops[0].dst], Rename(color, ops[0].src));
      var rest := RenameOps(ops[1..], color);
      if op.src == op.dst then rest else [op] + rest
  }

  lemma {:induction false} RenameOpsValid(t: Table, ops: seq<TagOp>, color: seq<nat>, n: nat)
    requires t.ValidOps(ops) && |color| == t.numRegs && Bounded(color, n)
    ensures t.(numRegs := n).ValidOps(RenameOps(ops, color))
  {
    if ops != [] {
      RenameOpsValid(t, ops[1..], color, n);
    }
  }

  function RenameMap(regMap: seq<int>, color: seq<nat>): (rm: seq<int>)
    requires forall k :: 0 <= k < |regMap| ==> regMap[k] < |color|
    ensures |rm| == |regMap| && forall k :: 0 <= k < |rm| ==> rm[k] == Rename(color, regMap[k])
  {
    seq(|regMap|, k requires 0 <= k < |regMap| => Rename(color, regMap[k]))
  }

  ghost predicate Bounded(color: seq<nat>, n: nat) {
    forall r :: 0 <= r < |color| ==> color[r] < n
  }

  function RenameTable(t: Table, color: seq<nat>, n: nat): (u: Table)
    requires t.Valid() && |color| == t.numRegs && Bounded(color, n)
    ensures u.Valid() && u.numRegs == n && u.numStates == t.numStates
    ensures u.eofAccept == t.eofAccept && u.midAccept == t.midAccept && u.immediateAccept == t.immediateAccept
    ensures forall s, b :: t.IsState(s) && 0 <= b < BYTES ==>
              u.Next(s, b) == t.Next(s, b) && u.Ops(s, b) == RenameOps(t.Ops(s, b), color)
    ensures u.entryOps == RenameOps(t.entryOps, color)
    ensures forall s :: t.IsState(s) ==> u.acceptRegMap[s] == RenameMap(t.acceptRegMap[s], color)
  {
    RenameTableValid(t, color, n);
    var ops := seq(|t.tagOps|, k requires 0 <= k < |t.tagOps| =>
      assert t.ValidOps(t.tagOps[k]); RenameOps(t.tagOps[k], color));
    var maps := seq(|t.acceptRegMap|, s requires 0 <= s < |t.acceptRegMap| => RenameMap(t.acceptRegMap[s], color));
    t.(numRegs := n, tagOps := ops, entryOps := RenameOps(t.entryOps, color), acceptRegMap := maps)
  }

  lemma RenameTableValid(t: Table, color: seq<nat>, n: nat)
    requires t.Valid() && |color| == t.numRegs && Bounded(color, n)
    ensures forall k :: 0 <= k < |t.tagOps| ==>
              t.ValidOps(t.tagOps[k]) && t.(numRegs := n).ValidOps(RenameOps(t.tagOps[k], color))
    ensures t.(numRegs := n).ValidOps(RenameOps(t.entryOps, color))
  {
    forall k | 0 <= k < |t.tagOps|
      ensures t.ValidOps(t.tagOps[k]) && t.(numRegs := n).ValidOps(RenameOps(t.tagOps[k], color))
    {
      RenameOpsValid(t, t.tagOps[k], color, n);
    }
    RenameOpsValid(t, t.entryOps, color, n);
  }

  // ---- The simulation ----

  // The renamed machine holds, in each live register's colour, that register's value.
  ghost predicate Held(live: set<int>, color: seq<nat>, start: Regs, end: Regs) {
    start(POS) == end(POS) && forall r :: r in live && 0 <= r < |color| ==> end(color[r]) == start(r)
  }

  // An operation's destination shares its colour with nothing needed after it, but its own source.
  ghost predicate Separated(ops: seq<TagOp>, after: set<int>, color: seq<nat>) {
    ops != [] ==>
      && 0 <= ops[0].dst < |color|
      && (forall r :: r in LiveBefore(ops[1..], after) && r != ops[0].dst && r != ops[0].src && 0 <= r < |color| ==>
            color[r] != color[ops[0].dst])
      && Separated(ops[1..], after, color)
  }

  // Whatever survives the whole batch is joined to each of its destinations.
  ghost predicate Survives(g: Graph, ops: seq<TagOp>, rest: set<int>) {
    forall i, r :: 0 <= i < |ops| && r in rest ==> Edge(g, ops[i].dst, r)
  }

  // The batch's own edges and the survivors' separate it: the heart of the colouring. done are the operations passed.
  lemma {:induction false} BatchSeparated(done: seq<TagOp>, ops: seq<TagOp>, after: set<int>, g: Graph,
                                          color: seq<nat>)
    requires Proper(g, color) && BatchEdges(g, done + ops) && Survives(g, ops, after - Dsts(done + ops))
    requires forall i :: 0 <= i < |ops| ==> 0 <= ops[i].dst < |color| && POS <= ops[i].src < |color|
    ensures Separated(ops, after, color)
    decreases |ops|
  {
    if ops != [] {
      var d, rest, all := ops[0].dst, ops[1..], done + ops;
      assert done + [ops[0]] + rest == all;
      assert forall i :: 0 <= i < |rest| ==> rest[i] == ops[i + 1];
      BatchSeparated(done + [ops[0]], rest, after, g, color);
      LiveBeforeBound(rest, after);
      var h := |done|;
      assert all[h] == ops[0];
      forall r | r in LiveBefore(rest, after) && r != d && r != ops[0].src && 0 <= r < |color|
        ensures color[r] != color[d] {
        if r in Srcs(rest) {
          var j :| 0 <= j < |rest| && rest[j].src == r;
          assert all[h + 1 + j] == rest[j];
        } else if r in Dsts(all) {
          var j :| 0 <= j < |all| && all[j].dst == r;
          assert Edge(g, all[h].dst, all[j].dst);
        } else {
          assert r in after - Dsts(all) && Edge(g, ops[0].dst, r);
        }
      }
    }
  }

  lemma {:induction false} NoDeadHeads(ops: seq<TagOp>, after: set<int>)
    requires DropDead(ops, after) == ops
    ensures forall i :: 0 <= i < |ops| ==> !DeadHead(ops[i..], after)
  {
    if ops != [] {
      assert DropDead(ops, after)[1..] == ops[1..];
      NoDeadHeads(ops[1..], after);
      assert forall i :: 1 <= i < |ops| ==> ops[i..] == ops[1..][i - 1..];
      assert ops[0..] == ops;
    }
  }

  // A write that is not dead is live after the batch, or read later in it: and then before holds it.
  lemma EdgeSurvives(ops: seq<TagOp>, before: set<int>, after: set<int>, g: Graph)
    requires Clique(g, before) && Clique(g, after) && (after - Dsts(ops)) + Srcs(ops) <= before
    requires forall i :: 0 <= i < |ops| ==> ops[i].dst >= 0 && !DeadHead(ops[i..], after)
    ensures Survives(g, ops, after - Dsts(ops))
  {
    forall i, r | 0 <= i < |ops| && r in after - Dsts(ops) ensures Edge(g, ops[i].dst, r) {
      if ops[i].dst !in after {
        var j :| 1 <= j < |ops[i..]| && ops[i..][j].src == ops[i].dst;
        assert ops[i + j].src in Srcs(ops);
      }
    }
  }

  // On entry nothing lives before the batch; a write nothing in it reads back is live after it, if not dead.
  lemma EntrySurvives(ops: seq<TagOp>, after: set<int>, g: Graph)
    requires Clique(g, after) && NoReadBack(ops)
    requires forall i :: 0 <= i < |ops| ==> !DeadHead(ops[i..], after)
    ensures Survives(g, ops, after - Dsts(ops))
  {
    forall i, r | 0 <= i < |ops| && r in after - Dsts(ops) ensures Edge(g, ops[i].dst, r) {
      assert forall j :: 1 <= j < |ops[i..]| ==> ops[i..][j] == ops[i + j];
    }
  }

  ghost predicate Colouring(t: Table, live: Live, g: Graph, color: seq<nat>, n: nat)
    requires t.Valid()
  {
    Closed(t, live) && NoDeadWrites(t, live) && Interferences(t, live, g) && Proper(g, color) && Bounded(color, n)
  }

  lemma EdgeSeparated(t: Table, live: Live, g: Graph, color: seq<nat>, n: nat, s: int, b: int)
    requires t.Valid() && Colouring(t, live, g, color, n)
    requires t.IsState(s) && 0 <= b < BYTES && t.Next(s, b) >= 0
    ensures Separated(t.Ops(s, b), live[t.Next(s, b)], color)
    ensures LiveBefore(t.Ops(s, b), live[t.Next(s, b)]) <= live[s]
  {
    var ops, after := t.Ops(s, b), live[t.Next(s, b)];
    assert EdgeClosed(t, live, s, b);
    assert DropAll(t, live).Ops(s, b) == DropDead(ops, after);
    NoDeadHeads(ops, after);
    EdgeSurvives(ops, live[s], after, g);
    assert [] + ops == ops;
    BatchSeparated([], ops, after, g, color);
    LiveBeforeBound(ops, after);
  }

  lemma EntrySeparated(t: Table, live: Live, g: Graph, color: seq<nat>, n: nat)
    requires t.Valid() && Colouring(t, live, g, color, n) && NoReadBack(t.entryOps)
    ensures Separated(t.entryOps, live[0], color)
  {
    assert DropAll(t, live).entryOps == DropDead(t.entryOps, live[0]);
    NoDeadHeads(t.entryOps, live[0]);
    EntrySurvives(t.entryOps, live[0], g);
    assert [] + t.entryOps == t.entryOps;
    BatchSeparated([], t.entryOps, live[0], g, color);
  }

  // ---- Building the graph: whole rows at a time ----

  function Join(g: Graph, r: int, row: set<int>): (h: Graph)
    requires 0 <= r < |g|
    ensures |h| == |g| && Grown(g, h)
    ensures forall x :: x in row && x != r ==> x in h[r]
    ensures Simple(g) && row <= AllRegs(|g|) ==> Simple(h)
  {
    g[r := g[r] + (row - {r})]
  }

  ghost predicate Grown(g: Graph, h: Graph) {
    |g| == |h| && forall r :: 0 <= r < |g| ==> g[r] <= h[r]
  }

  // Rows grew only by what a batch justifies, or by what a clique does.
  ghost predicate BatchGrown(g: Graph, h: Graph, ops: seq<TagOp>) {
    |g| == |h| && forall a, b :: 0 <= a < |g| && b in h[a] ==> b in g[a] || BatchConflict(ops, a, b)
  }

  ghost predicate CliqueGrown(g: Graph, h: Graph, regs: set<int>) {
    |g| == |h| && forall a :: 0 <= a < |g| ==> h[a] <= g[a] + if a in regs then regs else {}
  }

  // Rows of the registers done so far name every other register of the clique.
  ghost predicate CliqueRows(h: Graph, regs: set<int>, done: set<int>) {
    forall a :: a in done && 0 <= a < |h| ==> regs - {a} <= h[a]
  }

  // The clique is built for the registers done.
  ghost predicate CliqueSoFar(g: Graph, h: Graph, regs: set<int>, done: set<int>) {
    Simple(h) && Grown(g, h) && CliqueGrown(g, h, regs) && CliqueRows(h, regs, done)
  }

  lemma RowFilled(h: Graph, r: int, regs: set<int>, done: set<int>)
    requires 0 <= r < |h| && CliqueRows(h, regs, done)
    ensures CliqueRows(Join(h, r, regs), regs, done + {r})
  {
    forall a | a in done + {r} && 0 <= a < |h| ensures regs - {a} <= Join(h, r, regs)[a] {
      if a != r {
        assert a in done;
      }
    }
  }

  lemma RowGrown(g: Graph, h: Graph, r: int, regs: set<int>)
    requires 0 <= r < |h| && r in regs && CliqueGrown(g, h, regs) && Grown(g, h)
    ensures CliqueGrown(g, Join(h, r, regs), regs) && Grown(g, Join(h, r, regs))
  {
  }

  // One register's row is filled.
  lemma FillRow(g: Graph, h: Graph, r: int, regs: set<int>, done: set<int>)
    requires 0 <= r < |h| && r in regs && regs <= AllRegs(|h|) && CliqueSoFar(g, h, regs, done)
    ensures CliqueSoFar(g, Join(h, r, regs), regs, done + {r})
  {
    RowFilled(h, r, regs, done);
    RowGrown(g, h, r, regs);
  }

  // The registers live at one state form a clique.
  method AddClique(g: Graph, regs: set<int>) returns (h: Graph)
    requires Simple(g) && regs <= AllRegs(|g|)
    ensures Grown(g, h) && Clique(h, regs) && Simple(h) && CliqueGrown(g, h, regs)
  {
    h := g;
    var todo := regs;
    ghost var done: set<int> := {};
    while todo != {}
      invariant todo <= regs && regs <= done + todo && CliqueSoFar(g, h, regs, done)
    {
      var r := Pick(todo);
      assert r in AllRegs(|g|);
      FillRow(g, h, r, regs, done);
      h, todo, done := Join(h, r, regs), todo - {r}, done + {r};
    }
    RowsAreClique(g, h, regs, done);
  }

  lemma RowsAreClique(g: Graph, h: Graph, regs: set<int>, done: set<int>)
    requires CliqueSoFar(g, h, regs, done) && regs <= done && regs <= AllRegs(|h|)
    ensures Clique(h, regs)
  {
  }

  function Count(xs: seq<int>, x: int): (n: nat)
    ensures n >= 1 <==> x in xs
    ensures n >= 2 <==> exists i, j :: 0 <= i < j < |xs| && xs[i] == x && xs[j] == x
  {
    if xs == [] then 0
    else
      var rest := Count(xs[..|xs| - 1], x);
      assert forall i :: 0 <= i < |xs| - 1 ==> xs[i] == xs[..|xs| - 1][i];
      if xs[|xs| - 1] == x then rest + 1 else rest
  }

  function DstList(ops: seq<TagOp>): seq<int> {
    seq(|ops|, i requires 0 <= i < |ops| => ops[i].dst)
  }

  function SrcList(ops: seq<TagOp>): seq<int> {
    seq(|ops|, i requires 0 <= i < |ops| => ops[i].src)
  }

  // The row a destination gets from the sources: every source but its own, unless another operation reads that too.
  function OthersSrcs(ops: seq<TagOp>, i: nat): (row: set<int>)
    requires i < |ops|
    ensures row <= Srcs(ops) && forall j :: 0 <= j < |ops| && j != i && ops[j].src >= 0 ==> ops[j].src in row
  {
    var srcs := SrcList(ops);
    if ops[i].src >= 0 && Count(srcs, ops[i].src) == 1 then
      assert forall j :: 0 <= j < |ops| ==> srcs[j] == ops[j].src;
      Srcs(ops) - {ops[i].src}
    else Srcs(ops)
  }

  // The symmetric half: every destination but the operation's own, unless another operation shares either register.
  function OthersDsts(ops: seq<TagOp>, i: nat): (row: set<int>)
    requires i < |ops|
    ensures row <= Dsts(ops) && forall j :: 0 <= j < |ops| && j != i ==> ops[j].dst in row
  {
    var srcs, dsts := SrcList(ops), DstList(ops);
    if Count(srcs, ops[i].src) == 1 && Count(dsts, ops[i].dst) == 1 then
      assert forall j :: 0 <= j < |ops| ==> dsts[j] == ops[j].dst;
      Dsts(ops) - {ops[i].dst}
    else Dsts(ops)
  }

  // Each row names only conflicts.
  lemma DstRowConflicts(ops: seq<TagOp>, i: nat, b: int)
    requires i < |ops|
    ensures b in Dsts(ops) && b != ops[i].dst ==> BatchConflict(ops, ops[i].dst, b)
    ensures b in OthersSrcs(ops, i) && b != ops[i].dst ==> BatchConflict(ops, ops[i].dst, b)
  {
    if b in Dsts(ops) && b != ops[i].dst {
      var j :| 0 <= j < |ops| && ops[j].dst == b;
      assert PairConflict(ops[i], ops[j], ops[i].dst, b);
    }
    if b in OthersSrcs(ops, i) && b != ops[i].dst {
      var j := OtherReader(ops, i, b);
      assert PairConflict(ops[i], ops[j], ops[i].dst, b);
    }
  }

  lemma OtherReader(ops: seq<TagOp>, i: nat, b: int) returns (j: nat)
    requires i < |ops| && b in OthersSrcs(ops, i)
    ensures j < |ops| && j != i && ops[j].src == b
  {
    var srcs := SrcList(ops);
    assert forall k :: 0 <= k < |ops| ==> srcs[k] == ops[k].src;
    j :| 0 <= j < |ops| && ops[j].src == b;
    if j == i {
      assert srcs[i] in srcs && Count(srcs, b) >= 2;
      var x, y :| 0 <= x < y < |srcs| && srcs[x] == b && srcs[y] == b;
      j := if x == i then y else x;
    }
  }

  lemma SrcRowConflicts(ops: seq<TagOp>, i: nat, b: int)
    requires i < |ops| && ops[i].src >= 0 && b in OthersDsts(ops, i)
    ensures b != ops[i].src ==> BatchConflict(ops, ops[i].src, b)
  {
    var srcs, dsts := SrcList(ops), DstList(ops);
    assert forall k :: 0 <= k < |ops| ==> srcs[k] == ops[k].src && dsts[k] == ops[k].dst;
    var j :| 0 <= j < |ops| && ops[j].dst == b;
    if j != i {
      assert PairConflict(ops[i], ops[j], ops[i].src, b);
    } else {
      assert srcs[i] in srcs && dsts[i] in dsts;
      if Count(srcs, ops[i].src) >= 2 {
        var x, y :| 0 <= x < y < |srcs| && srcs[x] == ops[i].src && srcs[y] == ops[i].src;
        var k := if x == i then y else x;
        assert PairConflict(ops[k], ops[i], ops[i].src, b);
      } else {
        var x, y :| 0 <= x < y < |dsts| && dsts[x] == ops[i].dst && dsts[y] == ops[i].dst;
        var k := if x == i then y else x;
        assert PairConflict(ops[i], ops[k], ops[i].src, b);
      }
    }
  }

  ghost predicate InRange(ops: seq<TagOp>, n: nat) {
    forall i :: 0 <= i < |ops| ==> 0 <= ops[i].dst < n && POS <= ops[i].src < n
  }

  // The rows of the first n destinations name every other destination and every other operation's source.
  ghost predicate DstRows(h: Graph, ops: seq<TagOp>, n: nat) {
    forall k :: 0 <= k < n && k < |ops| && 0 <= ops[k].dst < |h| ==>
      Dsts(ops) - {ops[k].dst} <= h[ops[k].dst] && OthersSrcs(ops, k) - {ops[k].dst} <= h[ops[k].dst]
  }

  method FillDstRow(ghost g: Graph, h: Graph, ops: seq<TagOp>, i: nat) returns (h': Graph)
    requires i < |ops| && InRange(ops, |g|)
    requires Grown(g, h) && Simple(h) && BatchGrown(g, h, ops) && DstRows(h, ops, i)
    ensures Grown(g, h') && Simple(h') && BatchGrown(g, h', ops) && DstRows(h', ops, i + 1)
  {
    assert Dsts(ops) <= AllRegs(|g|) && Srcs(ops) <= AllRegs(|g|);
    forall b ensures b in (Dsts(ops) - {ops[i].dst}) + (OthersSrcs(ops, i) - {ops[i].dst}) ==>
                       BatchConflict(ops, ops[i].dst, b) {
      DstRowConflicts(ops, i, b);
    }
    h' := Join(Join(h, ops[i].dst, Dsts(ops)), ops[i].dst, OthersSrcs(ops, i));
  }

  // dst rows: the other destinations, and the other operations' sources.
  method AddDstRows(g: Graph, ops: seq<TagOp>) returns (h: Graph)
    requires Simple(g) && InRange(ops, |g|)
    ensures Grown(g, h) && Simple(h) && BatchGrown(g, h, ops)
    ensures forall i, j :: 0 <= i < |ops| && 0 <= j < |ops| && i != j ==>
              && (ops[j].dst != ops[i].dst ==> ops[j].dst in h[ops[i].dst])
              && (ops[j].src >= 0 && ops[j].src != ops[i].dst ==> ops[j].src in h[ops[i].dst])
  {
    h := g;
    for i := 0 to |ops|
      invariant Grown(g, h) && Simple(h) && BatchGrown(g, h, ops) && DstRows(h, ops, i)
    {
      h := FillDstRow(g, h, ops, i);
    }
    DstRowsMembers(h, ops);
  }

  lemma DstRowsMembers(h: Graph, ops: seq<TagOp>)
    requires InRange(ops, |h|) && DstRows(h, ops, |ops|)
    ensures forall i, j :: 0 <= i < |ops| && 0 <= j < |ops| && i != j ==>
              && (ops[j].dst != ops[i].dst ==> ops[j].dst in h[ops[i].dst])
              && (ops[j].src >= 0 && ops[j].src != ops[i].dst ==> ops[j].src in h[ops[i].dst])
  {
  }

  // src rows: the symmetric half.
  method AddSrcRows(g: Graph, ops: seq<TagOp>) returns (h: Graph)
    requires Simple(g) && InRange(ops, |g|)
    ensures Grown(g, h) && Simple(h) && BatchGrown(g, h, ops)
    ensures forall i, j :: 0 <= i < |ops| && 0 <= j < |ops| && i != j && ops[j].src >= 0 && ops[j].src != ops[i].dst ==>
              ops[i].dst in h[ops[j].src]
  {
    assert Dsts(ops) <= AllRegs(|g|);
    h := g;
    for i := 0 to |ops|
      invariant Grown(g, h) && Simple(h) && BatchGrown(g, h, ops)
      invariant forall k :: 0 <= k < i && ops[k].src >= 0 ==> OthersDsts(ops, k) - {ops[k].src} <= h[ops[k].src]
    {
      if ops[i].src >= 0 {
        forall b | b in OthersDsts(ops, i) && b != ops[i].src ensures BatchConflict(ops, ops[i].src, b) {
          SrcRowConflicts(ops, i, b);
        }
        h := Join(h, ops[i].src, OthersDsts(ops, i));
      }
    }
  }

  method AddBatchEdges(g: Graph, ops: seq<TagOp>) returns (h: Graph)
    requires Simple(g) && InRange(ops, |g|)
    ensures Grown(g, h) && BatchEdges(h, ops) && Simple(h) && BatchGrown(g, h, ops)
  {
    if |ops| < 2 {
      return g;
    }
    var half := AddDstRows(g, ops);
    h := AddSrcRows(half, ops);
  }

  lemma EdgesGrow(g: Graph, h: Graph, regs: set<int>, ops: seq<TagOp>)
    requires Grown(g, h)
    ensures Clique(g, regs) ==> Clique(h, regs)
    ensures BatchEdges(g, ops) ==> BatchEdges(h, ops)
  {
    assert forall a, b :: Edge(g, a, b) ==> Edge(h, a, b);
  }

  lemma BatchNoSpare(t: Table, live: Live, g: Graph, h: Graph, ops: seq<TagOp>)
    requires NoSpare(t, live, g) && BatchGrown(g, h, ops)
    requires ops == t.entryOps || exists k :: 0 <= k < |t.tagOps| && t.tagOps[k] == ops
    ensures NoSpare(t, live, h)
  {
    forall a, b | 0 <= a < |h| && b in h[a] ensures Conflict(t, live, a, b) {
      assert b in g[a] || BatchConflict(ops, a, b);
    }
  }

  ghost predicate Cliques(g: Graph, live: Live, n: nat) {
    forall k :: 0 <= k < n && k < |live| ==> Clique(g, live[k])
  }

  ghost predicate AllBatchEdges(g: Graph, batches: seq<seq<TagOp>>, n: nat) {
    forall k :: 0 <= k < n && k < |batches| ==> BatchEdges(g, batches[k])
  }

  lemma GraphGrows(g: Graph, h: Graph, live: Live, m: nat, batches: seq<seq<TagOp>>, n: nat)
    requires Grown(g, h)
    ensures Cliques(g, live, m) ==> Cliques(h, live, m)
    ensures AllBatchEdges(g, batches, n) ==> AllBatchEdges(h, batches, n)
  {
    if Cliques(g, live, m) {
      forall k | 0 <= k < m && k < |live| ensures Clique(h, live[k]) {
        EdgesGrow(g, h, live[k], []);
      }
    }
    if AllBatchEdges(g, batches, n) {
      forall k | 0 <= k < n && k < |batches| ensures BatchEdges(h, batches[k]) {
        EdgesGrow(g, h, {}, batches[k]);
      }
    }
  }

  // Every row names only registers live together with it.
  ghost predicate OnlyCoLive(live: Live, g: Graph) {
    forall a, b :: 0 <= a < |g| && b in g[a] ==> CoLive(live, a, b)
  }

  lemma OneMoreClique(live: Live, g: Graph, h: Graph, s: nat)
    requires OnlyCoLive(live, g) && s < |live| && CliqueGrown(g, h, live[s])
    ensures OnlyCoLive(live, h)
  {
    forall a, b | 0 <= a < |h| && b in h[a] ensures CoLive(live, a, b) {
      assert b in g[a] + if a in live[s] then live[s] else {};
    }
  }

  lemma OneMoreState(h: Graph, live: Live, s: nat)
    requires s < |live| && Cliques(h, live, s) && Clique(h, live[s])
    ensures Cliques(h, live, s + 1)
  {
    forall k | 0 <= k < s + 1 && k < |live| ensures Clique(h, live[k]) {
      assert k < s || k == s;
    }
  }

  // The registers live together, state by state.
  method LiveEdges(live: Live, n: nat) returns (g: Graph)
    requires Within(live, n)
    ensures |g| == n && Simple(g) && OnlyCoLive(live, g) && Cliques(g, live, |live|)
  {
    g := seq(n, _ => {});
    for s := 0 to |live|
      invariant |g| == n && Simple(g) && OnlyCoLive(live, g) && Cliques(g, live, s)
    {
      var h := AddClique(g, live[s]);
      OneMoreClique(live, g, h, s);
      GraphGrows(g, h, live, s, [], 0);
      OneMoreState(h, live, s);
      g := h;
    }
  }

  lemma CoLiveNoSpare(t: Table, live: Live, g: Graph)
    requires OnlyCoLive(live, g)
    ensures NoSpare(t, live, g)
  {
    forall a, b | 0 <= a < |g| && b in g[a] ensures Conflict(t, live, a, b) {
      assert CoLive(live, a, b);
    }
  }

  // Every edge's batch.
  method OpEdges(t: Table, live: Live, g0: Graph) returns (g: Graph)
    requires t.Valid() && |g0| == t.numRegs && Simple(g0) && NoSpare(t, live, g0)
    ensures Grown(g0, g) && Simple(g) && NoSpare(t, live, g) && AllBatchEdges(g, t.tagOps, |t.tagOps|)
  {
    g := g0;
    for k := 0 to |t.tagOps|
      invariant Grown(g0, g) && Simple(g) && NoSpare(t, live, g) && AllBatchEdges(g, t.tagOps, k)
    {
      assert t.ValidOps(t.tagOps[k]);
      var h := AddBatchEdges(g, t.tagOps[k]);
      BatchNoSpare(t, live, g, h, t.tagOps[k]);
      GraphGrows(g, h, [], 0, t.tagOps, k);
      g := h;
    }
  }

  method BuildInterference(t: Table, live: Live) returns (g: Graph)
    requires t.Valid() && |live| == t.numStates && Within(live, t.numRegs)
    ensures Interferences(t, live, g) && Simple(g) && NoSpare(t, live, g)
  {
    var cliques := LiveEdges(live, t.numRegs);
    CoLiveNoSpare(t, live, cliques);
    var edges := OpEdges(t, live, cliques);
    g := AddBatchEdges(edges, t.entryOps);
    BatchNoSpare(t, live, edges, g, t.entryOps);
    GraphGrows(cliques, edges, live, |live|, [], 0);
    GraphGrows(edges, g, live, |live|, t.tagOps, |t.tagOps|);
  }

  // ---- Greedy colouring, most constrained register first ----

  // Sorted insertion by descending degree, ties by register index.
  function Place(order: seq<nat>, r: nat, g: Graph): (o: seq<nat>)
    requires r < |g| && forall x :: x in order ==> x < |g|
    ensures forall x :: x in o <==> x == r || x in order
  {
    if order == [] then [r]
    else if assert order[0] in order;
    |g[order[0]]| < |g[r]| || (|g[order[0]]| == |g[r]| && r < order[0]) then [r] + order
    else
      assert forall x :: x in order <==> x == order[0] || x in order[1..];
      [order[0]] + Place(order[1..], r, g)
  }

  // a is coloured before b.
  predicate Earlier(g: Graph, a: int, b: int) {
    0 <= a < |g| && 0 <= b < |g| && (|g[b]| < |g[a]| || (|g[a]| == |g[b]| && a < b))
  }

  ghost predicate InOrder(g: Graph, order: seq<nat>) {
    && (forall x :: x in order ==> x < |g|)
    && forall i, j :: 0 <= i < j < |order| ==> Earlier(g, order[i], order[j])
  }

  lemma {:induction false} PlaceInOrder(g: Graph, order: seq<nat>, r: nat)
    requires InOrder(g, order) && r < |g| && r !in order
    ensures InOrder(g, Place(order, r, g))
  {
    if order != [] {
      var rest := order[1..];
      assert order[0] in order && (forall x :: x in rest ==> x in order);
      var placed := Place(order, r, g);
      if placed == [r] + order {
        forall i, j | 0 <= i < j < |placed| ensures Earlier(g, placed[i], placed[j]) {
          assert i == 0 && j > 1 ==> Earlier(g, order[0], order[j - 1]);
        }
      } else {
        PlaceInOrder(g, rest, r);
        var tail := Place(rest, r, g);
        forall j | 0 <= j < |tail| ensures Earlier(g, order[0], tail[j]) {
          assert tail[j] in tail;
          if tail[j] != r {
            var k :| 0 <= k < |rest| && rest[k] == tail[j];
            assert Earlier(g, order[0], order[k + 1]);
          }
        }
      }
    }
  }

  lemma {:induction false} DegreeInOrder(g: Graph, n: nat)
    requires n <= |g|
    ensures InOrder(g, ByDegree(g, n))
  {
    if n > 0 {
      DegreeInOrder(g, n - 1);
      PlaceInOrder(g, ByDegree(g, n - 1), n - 1);
    }
  }

  function ByDegree(g: Graph, n: nat): (order: seq<nat>)
    requires n <= |g|
    ensures forall x :: x in order <==> 0 <= x < n
  {
    if n == 0 then [] else Place(ByDegree(g, n - 1), n - 1, g)
  }

  // The colours r's coloured neighbours already use.
  function Forbidden(row: set<int>, color: seq<int>): set<int> {
    set r | r in row && 0 <= r < |color| && color[r] >= 0 :: color[r]
  }

  lemma {:induction false} ForbiddenSize(row: set<int>, color: seq<int>, n: nat)
    requires row <= AllRegs(n)
    ensures |Forbidden(row, color)| <= |row|
  {
    if n == 0 {
      assert Forbidden(row, color) == {};
    } else {
      var r := n - 1;
      ForbiddenSize(row - {r}, color, n - 1);
      if r in row {
        var one := if r < |color| && color[r] >= 0 then {color[r]} else {};
        assert Forbidden(row, color) == Forbidden(row - {r}, color) + one;
      } else {
        assert row - {r} == row;
      }
    }
  }

  ghost predicate PartlyProper(g: Graph, color: seq<int>) {
    |color| == |g| && forall a, b :: Edge(g, a, b) && a != b && color[a] >= 0 ==> color[a] != color[b]
  }

  // The lowest colour no coloured neighbour uses; a register has fewer neighbours than there are colours.
  method LowestFree(g: Graph, r: nat, color: seq<int>) returns (k: nat)
    requires Simple(g) && r < |g|
    ensures k !in Forbidden(g[r], color) && k < |g| && forall j :: 0 <= j < k ==> j in Forbidden(g[r], color)
  {
    var forbidden := Forbidden(g[r], color);
    ForbiddenSize(g[r], color, |g|);
    SubsetSize(g[r], AllRegs(|g|) - {r});
    k := 0;
    while k < |g| && k in forbidden
      invariant AllRegs(k) <= forbidden && k < |g| && forall j :: 0 <= j < k ==> j in forbidden
    {
      SubsetSize(AllRegs(k + 1), forbidden);
      k := k + 1;
    }
  }

  lemma ColourKeeps(g: Graph, c: seq<int>, r: nat, k: nat)
    requires PartlyProper(g, c) && r < |g| && k !in Forbidden(g[r], c)
    ensures PartlyProper(g, c[r := k])
  {
    forall a, b | Edge(g, a, b) && a != b && c[r := k][a] >= 0 ensures c[r := k][a] != c[r := k][b] {
      if a == r && c[b] >= 0 {
        assert c[b] in Forbidden(g[r], c);
      } else if b == r {
        assert c[a] in Forbidden(g[r], c);
      }
    }
  }

  // No register could have had a lower colour: each is taken by a neighbour coloured before it.
  ghost predicate Tight(g: Graph, color: seq<int>, r: nat)
    requires r < |g| == |color|
  {
    forall k :: 0 <= k < color[r] ==> TakenEarlier(g, color, r, k)
  }

  ghost predicate TakenEarlier(g: Graph, color: seq<int>, r: nat, k: nat)
    requires r < |g| == |color|
  {
    exists s :: s in g[r] && 0 <= s < |g| && color[s] == k && Earlier(g, s, r)
  }

  ghost predicate AllTight(g: Graph, color: seq<int>) {
    |color| == |g| && forall r :: 0 <= r < |g| ==> Tight(g, color, r)
  }

  // Exactly the first i registers in order are coloured.
  ghost predicate ColouredTo(g: Graph, order: seq<nat>, c: seq<int>, i: nat) {
    |c| == |g| && i <= |order| && forall r :: 0 <= r < |g| ==> (c[r] >= 0 <==> r in order[..i])
  }

  lemma ColourTight(g: Graph, order: seq<nat>, c: seq<int>, i: nat, k: nat)
    requires InOrder(g, order) && i < |order| && ColouredTo(g, order, c, i) && order[i] < |g| && AllTight(g, c)
    requires k !in Forbidden(g[order[i]], c) && forall j :: 0 <= j < k ==> j in Forbidden(g[order[i]], c)
    ensures ColouredTo(g, order, c[order[i] := k], i + 1) && AllTight(g, c[order[i] := k])
  {
    var r := order[i];
    var after := c[r := k];
    assert order[..i + 1] == order[..i] + [r];
    forall j | 0 <= j < i ensures order[j] != r {
      assert Earlier(g, order[j], order[i]);
    }
    forall q | 0 <= q < |g| ensures Tight(g, after, q) {
      forall j | 0 <= j < after[q] ensures TakenEarlier(g, after, q, j) {
        if q == r {
          TakenBefore(g, order, c, i, j);
        } else {
          assert Tight(g, c, q) && TakenEarlier(g, c, q, j);
        }
        var s :| s in g[q] && 0 <= s < |g| && c[s] == j && Earlier(g, s, q);
        assert after[s] == j;
      }
    }
  }

  lemma TakenBefore(g: Graph, order: seq<nat>, c: seq<int>, i: nat, j: nat)
    requires InOrder(g, order) && i < |order| && ColouredTo(g, order, c, i) && order[i] < |g|
    requires j in Forbidden(g[order[i]], c)
    ensures TakenEarlier(g, c, order[i], j)
  {
    var s :| s in g[order[i]] && 0 <= s < |c| && c[s] >= 0 && c[s] == j;
    var k :| 0 <= k < i && order[k] == s;
    assert Earlier(g, order[k], order[i]);
  }

  method GreedyColour(g: Graph) returns (color: seq<nat>, colors: nat)
    requires Simple(g)
    ensures Proper(g, color) && Bounded(color, colors) && colors <= |g| && AllTight(g, color)
    ensures colors > 0 ==> exists r :: 0 <= r < |color| && color[r] == colors - 1
  {
    var order := ByDegree(g, |g|);
    DegreeInOrder(g, |g|);
    assert forall j :: 0 <= j < |order| ==> order[j] in order;
    var c: seq<int> := seq(|g|, _ => -1);
    for i := 0 to |order|
      invariant PartlyProper(g, c) && forall r :: 0 <= r < |g| ==> -1 <= c[r] < |g|
      invariant ColouredTo(g, order, c, i) && AllTight(g, c)
    {
      var r := order[i];
      assert r in order;
      var k := LowestFree(g, r, c);
      ColourKeeps(g, c, r, k);
      ColourTight(g, order, c, i, k);
      c := c[r := k];
    }
    assert order[..|order|] == order;
    color, colors := [], 0;
    for r := 0 to |g|
      invariant |color| == r && colors <= |g| && forall j :: 0 <= j < r ==> color[j] == c[j] && color[j] < colors
      invariant colors > 0 ==> exists j :: 0 <= j < r && color[j] == colors - 1
    {
      assert r in order;
      color := color + [c[r]];
      if c[r] + 1 > colors {
        colors := c[r] + 1;
      }
    }
    assert color == c;
  }
}
