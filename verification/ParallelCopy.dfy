/** Sequencing a parallel copy. */
module ParallelCopy {
  // The round-wise reference, written as the function Sequence; the counter-keeping sequentializeCopies, proved to
  // return the same list; and the atomic parallel assignment that list computes.

  import opened FiniteSets
  import opened TagOps

  // ---- The reference: one round at a time over sorted destinations ----
  // dsts is sorted; src[i] is the register dsts[i] is to be copied from; rem[i] says that copy is still pending.

  predicate Sorted(s: seq<int>) {
    forall i, j :: 0 <= i < j < |s| ==> s[i] < s[j]
  }

  ghost predicate State(dsts: seq<int>, src: seq<int>, rem: seq<bool>) {
    |dsts| == |src| == |rem| && Sorted(dsts) && forall i :: 0 <= i < |dsts| ==> dsts[i] >= 0
  }

  // How many pending copies read register r.
  function Reads(src: seq<int>, rem: seq<bool>, r: int): nat
    requires |src| == |rem|
  {
    if src == [] then 0
    else (if rem[|rem| - 1] && src[|src| - 1] == r then 1 else 0) + Reads(src[..|src| - 1], rem[..|rem| - 1], r)
  }

  function Pending(rem: seq<bool>): nat {
    if rem == [] then 0 else (if rem[|rem| - 1] then 1 else 0) + Pending(rem[..|rem| - 1])
  }

  // The copies among the first k that nothing pending still reads, in destination order.
  function ReadyBelow(dsts: seq<int>, src: seq<int>, rem: seq<bool>, k: nat): (idx: seq<nat>)
    requires |dsts| == |src| == |rem| && k <= |dsts|
    ensures forall p :: 0 <= p < |idx| ==> idx[p] < k && rem[idx[p]]
  {
    if k == 0 then []
    else
      var before := ReadyBelow(dsts, src, rem, k - 1);
      if rem[k - 1] && Reads(src, rem, dsts[k - 1]) == 0 then before + [k - 1] else before
  }

  lemma {:induction false} ReadyFacts(dsts: seq<int>, src: seq<int>, rem: seq<bool>, k: nat)
    requires |dsts| == |src| == |rem| && k <= |dsts|
    ensures var idx := ReadyBelow(dsts, src, rem, k);
            && (forall p :: 0 <= p < |idx| ==> Reads(src, rem, dsts[idx[p]]) == 0)
            && (forall p, q :: 0 <= p < q < |idx| ==> idx[p] < idx[q])
            && (forall i :: 0 <= i < k && rem[i] && i !in idx ==> Reads(src, rem, dsts[i]) != 0)
  {
    if k > 0 {
      ReadyFacts(dsts, src, rem, k - 1);
    }
  }

  function CopiesAt(dsts: seq<int>, src: seq<int>, idx: seq<nat>): (ops: seq<TagOp>)
    requires |dsts| == |src| && forall p :: 0 <= p < |idx| ==> idx[p] < |dsts|
    ensures |ops| == |idx|
  {
    if idx == [] then []
    else CopiesAt(dsts, src, idx[..|idx| - 1]) + [TagOp(dsts[idx[|idx| - 1]], src[idx[|idx| - 1]])]
  }

  function Without(rem: seq<bool>, idx: seq<nat>): (r: seq<bool>)
    ensures |r| == |rem|
    ensures forall i :: 0 <= i < |rem| ==> r[i] == (rem[i] && i !in idx)
  {
    seq(|rem|, i requires 0 <= i < |rem| => rem[i] && i !in idx)
  }

  function FirstPending(rem: seq<bool>): (i: nat)
    requires Pending(rem) > 0
    ensures i < |rem| && rem[i] && forall j :: 0 <= j < i ==> !rem[j]
  {
    if Pending(rem[..|rem| - 1]) > 0 then
      var i := FirstPending(rem[..|rem| - 1]);
      assert rem[..|rem| - 1][i] == rem[i];
      i
    else
      NonePending(rem[..|rem| - 1]);
      assert forall j :: 0 <= j < |rem| - 1 ==> rem[..|rem| - 1][j] == rem[j];
      |rem| - 1
  }

  // Pending copies that read d are redirected to the scratch register.
  function Redirect(src: seq<int>, rem: seq<bool>, d: int): (s: seq<int>)
    requires |src| == |rem|
    ensures |s| == |src|
    ensures forall j :: 0 <= j < |src| ==> s[j] == if rem[j] && src[j] == d then SCRATCH else src[j]
  {
    seq(|src|, j requires 0 <= j < |src| => if rem[j] && src[j] == d then SCRATCH else src[j])
  }

  // The whole sequence: rounds of ready copies, and a cycle broken through the scratch register
  // whenever a round has none.
  function Rounds(dsts: seq<int>, src: seq<int>, rem: seq<bool>): seq<TagOp>
    requires |dsts| == |src| == |rem|
    decreases Pending(rem)
  {
    if Pending(rem) == 0 then []
    else
      var ready := ReadyBelow(dsts, src, rem, |dsts|);
      if ready != [] then
        PendingDrops(rem, ready);
        CopiesAt(dsts, src, ready) + Rounds(dsts, src, Without(rem, ready))
      else
        var b := FirstPending(rem);
        var left := Without(rem, [b]);
        PendingDrops(rem, [b]);
        [TagOp(SCRATCH, dsts[b]), TagOp(dsts[b], src[b])] + Rounds(dsts, Redirect(src, left, dsts[b]), left)
  }

  lemma {:induction false} NonePending(rem: seq<bool>)
    ensures Pending(rem) == 0 <==> forall i :: 0 <= i < |rem| ==> !rem[i]
  {
    if rem != [] {
      var r := rem[..|rem| - 1];
      NonePending(r);
      assert forall j :: 0 <= j < |r| ==> r[j] == rem[j];
    }
  }

  lemma {:induction false} PendingMonotone(a: seq<bool>, b: seq<bool>)
    requires |a| == |b| && forall i :: 0 <= i < |a| ==> a[i] ==> b[i]
    ensures Pending(a) <= Pending(b)
    ensures a != b ==> Pending(a) < Pending(b)
  {
    if a != [] {
      PendingMonotone(a[..|a| - 1], b[..|b| - 1]);
      assert a == a[..|a| - 1] + [a[|a| - 1]] && b == b[..|b| - 1] + [b[|b| - 1]];
    }
  }

  lemma PendingDrops(rem: seq<bool>, idx: seq<nat>)
    requires idx != [] && idx[0] < |rem| && rem[idx[0]]
    ensures Pending(Without(rem, idx)) < Pending(rem)
  {
    var w := Without(rem, idx);
    assert idx[0] in idx;
    assert w[idx[0]] != rem[idx[0]];
    PendingMonotone(w, rem);
  }

  lemma {:induction false} ReadsZero(src: seq<int>, rem: seq<bool>, r: int)
    requires |src| == |rem|
    ensures Reads(src, rem, r) == 0 <==> forall i :: 0 <= i < |src| && rem[i] ==> src[i] != r
  {
    if src != [] {
      var s, m := src[..|src| - 1], rem[..|rem| - 1];
      ReadsZero(s, m, r);
      assert forall i :: 0 <= i < |s| ==> s[i] == src[i] && m[i] == rem[i];
    }
  }

  lemma {:induction false} ReadsClear(src: seq<int>, rem: seq<bool>, i: nat, r: int)
    requires |src| == |rem| && i < |src| && rem[i]
    ensures Reads(src, rem, r) == Reads(src, rem[i := false], r) + if src[i] == r then 1 else 0
  {
    var k := |src| - 1;
    if i < k {
      assert rem[i := false][..k] == rem[..k][i := false];
      ReadsClear(src[..k], rem[..k], i, r);
    } else {
      assert rem[i := false][..k] == rem[..k];
    }
  }

  lemma {:induction false} ReadsAgree(s: seq<int>, t: seq<int>, rem: seq<bool>, r: int)
    requires |s| == |t| == |rem| && forall j :: 0 <= j < |s| && rem[j] ==> (s[j] == r <==> t[j] == r)
    ensures Reads(s, rem, r) == Reads(t, rem, r)
  {
    if s != [] {
      ReadsAgree(s[..|s| - 1], t[..|t| - 1], rem[..|rem| - 1], r);
    }
  }

  // ---- Meaning: atomic parallel assignment ----

  // The parallel assignment: every destination takes its source's old value, all else is kept.
  ghost predicate IsAssigned(ops: seq<TagOp>, before: Regs, after: Regs)
  {
    && (forall i :: 0 <= i < |ops| ==> after(ops[i].dst) == before(ops[i].src))
    && (forall r :: r != SCRATCH && (forall i :: 0 <= i < |ops| ==> ops[i].dst != r) ==> after(r) == before(r))
  }

  // Half-way through: each pending copy can still find its value, and everything else is already final.
  ghost predicate Midway(dsts: seq<int>, src: seq<int>, rem: seq<bool>, now: Regs, goal: Regs)
    requires State(dsts, src, rem)
  {
    && (forall i :: 0 <= i < |dsts| && rem[i] ==> now(src[i]) == goal(dsts[i]))
    && (forall r :: r != SCRATCH && (forall i :: 0 <= i < |dsts| && rem[i] ==> dsts[i] != r) ==> now(r) == goal(r))
  }

  lemma CopyStep(dsts: seq<int>, src: seq<int>, rem: seq<bool>, i: nat, now: Regs, goal: Regs)
    requires State(dsts, src, rem) && Midway(dsts, src, rem, now, goal)
    requires i < |dsts| && rem[i] && forall j :: 0 <= j < |dsts| && rem[j] ==> src[j] != dsts[i]
    ensures Midway(dsts, src, rem[i := false], Exec([TagOp(dsts[i], src[i])], now), goal)
  {
    var op := TagOp(dsts[i], src[i]);
    assert [op][1..] == [];
    assert Exec([op], now) == Set(now, dsts[i], now(src[i]));
  }

  lemma ReadyCopy(dsts: seq<int>, src: seq<int>, rem: seq<bool>, done: seq<nat>, i: nat, now: Regs, goal: Regs)
    requires State(dsts, src, rem) && i < |dsts| && rem[i] && i !in done && Reads(src, rem, dsts[i]) == 0
    requires Midway(dsts, src, Without(rem, done), now, goal)
    ensures Midway(dsts, src, Without(rem, done + [i]), Exec([TagOp(dsts[i], src[i])], now), goal)
  {
    ReadsZero(src, rem, dsts[i]);
    CopyStep(dsts, src, Without(rem, done), i, now, goal);
    assert Without(rem, done)[i := false] == Without(rem, done + [i]);
  }

  lemma {:induction false} ReadyCopies(dsts: seq<int>, src: seq<int>, rem: seq<bool>, k: nat, now: Regs, goal: Regs)
    requires State(dsts, src, rem) && Midway(dsts, src, rem, now, goal) && k <= |dsts|
    ensures var idx := ReadyBelow(dsts, src, rem, k);
            Midway(dsts, src, Without(rem, idx), Exec(CopiesAt(dsts, src, idx), now), goal)
  {
    if k == 0 {
      assert Without(rem, []) == rem;
    } else {
      var i, done := k - 1, ReadyBelow(dsts, src, rem, k - 1);
      ReadyCopies(dsts, src, rem, i, now, goal);
      if rem[i] && Reads(src, rem, dsts[i]) == 0 {
        var copies := CopiesAt(dsts, src, done);
        ReadyCopy(dsts, src, rem, done, i, Exec(copies, now), goal);
        CopiesSnoc(dsts, src, done, i);
        ExecConcat(copies, [TagOp(dsts[i], src[i])], now);
      }
    }
  }

  lemma CopiesSnoc(dsts: seq<int>, src: seq<int>, idx: seq<nat>, i: nat)
    requires |dsts| == |src| && i < |dsts| && forall p :: 0 <= p < |idx| ==> idx[p] < |dsts|
    ensures CopiesAt(dsts, src, idx + [i]) == CopiesAt(dsts, src, idx) + [TagOp(dsts[i], src[i])]
  {
    assert (idx + [i])[..|idx|] == idx;
  }

  // ---- Stuck means permutation: the scratch register is free at every cycle break ----

  // The registers the pending copies name in one column.
  function Named(column: seq<int>, rem: seq<bool>): set<int>
    requires |column| == |rem|
  {
    set i | 0 <= i < |column| && rem[i] :: column[i]
  }

  lemma NamedSplit(column: seq<int>, rem: seq<bool>)
    requires |column| == |rem| > 0
    ensures var k := |rem| - 1;
            Named(column, rem) == Named(column[..k], rem[..k]) + if rem[k] then {column[k]} else {}
  {
    var k := |rem| - 1;
    var c, m := column[..k], rem[..k];
    forall r | r in Named(column, rem) ensures r in Named(c, m) || (rem[k] && r == column[k]) {
      var i :| 0 <= i < |column| && rem[i] && column[i] == r;
      assert i < k ==> c[i] == r && m[i];
    }
    forall r | r in Named(c, m) ensures r in Named(column, rem) {
      var i :| 0 <= i < |c| && m[i] && c[i] == r;
      assert column[i] == r && rem[i];
    }
  }

  lemma {:induction false} PendingSizes(dsts: seq<int>, src: seq<int>, rem: seq<bool>)
    requires State(dsts, src, rem)
    ensures |Named(dsts, rem)| == Pending(rem) && |Named(src, rem)| <= Pending(rem)
  {
    if rem != [] {
      var k := |rem| - 1;
      var d, s, m := dsts[..k], src[..k], rem[..k];
      PendingSizes(d, s, m);
      NamedSplit(dsts, rem);
      NamedSplit(src, rem);
      assert rem[k] ==> dsts[k] !in Named(d, m);
    }
  }

  // With no copy ready, the pending sources are exactly the pending destinations: no copy waits on the scratch.
  lemma StuckIsPermutation(dsts: seq<int>, src: seq<int>, rem: seq<bool>)
    requires State(dsts, src, rem) && ReadyBelow(dsts, src, rem, |dsts|) == []
    ensures Named(src, rem) == Named(dsts, rem)
    ensures SCRATCH !in Named(src, rem)
  {
    ReadyFacts(dsts, src, rem, |dsts|);
    forall r | r in Named(dsts, rem) ensures r in Named(src, rem) {
      var i :| 0 <= i < |dsts| && rem[i] && dsts[i] == r;
      ReadsZero(src, rem, r);
    }
    PendingSizes(dsts, src, rem);
    SubsetSameSize(Named(dsts, rem), Named(src, rem));
  }

  lemma {:induction false} RoundsAssign(dsts: seq<int>, src: seq<int>, rem: seq<bool>, now: Regs, goal: Regs)
    requires State(dsts, src, rem) && Midway(dsts, src, rem, now, goal)
    ensures forall r :: r != SCRATCH ==> Exec(Rounds(dsts, src, rem), now)(r) == goal(r)
    decreases Pending(rem)
  {
    NonePending(rem);
    if Pending(rem) > 0 {
      var ready := ReadyBelow(dsts, src, rem, |dsts|);
      if ready != [] {
        var ops := CopiesAt(dsts, src, ready);
        PendingDrops(rem, ready);
        ReadyCopies(dsts, src, rem, |dsts|, now, goal);
        RoundsAssign(dsts, src, Without(rem, ready), Exec(ops, now), goal);
        ExecConcat(ops, Rounds(dsts, src, Without(rem, ready)), now);
      } else {
        BreakCycle(dsts, src, rem, now, goal);
        var b := FirstPending(rem);
        var left := Without(rem, [b]);
        PendingDrops(rem, [b]);
        var ops := [TagOp(SCRATCH, dsts[b]), TagOp(dsts[b], src[b])];
        RoundsAssign(dsts, Redirect(src, left, dsts[b]), left, Exec(ops, now), goal);
        ExecConcat(ops, Rounds(dsts, Redirect(src, left, dsts[b]), left), now);
      }
    }
  }

  lemma BreakCycle(dsts: seq<int>, src: seq<int>, rem: seq<bool>, now: Regs, goal: Regs)
    requires State(dsts, src, rem) && Midway(dsts, src, rem, now, goal)
    requires Pending(rem) > 0 && ReadyBelow(dsts, src, rem, |dsts|) == []
    ensures var b := FirstPending(rem);
            var left := Without(rem, [b]);
            Midway(dsts, Redirect(src, left, dsts[b]), left,
            Exec([TagOp(SCRATCH, dsts[b]), TagOp(dsts[b], src[b])], now), goal)
  {
    var b := FirstPending(rem);
    var left := Without(rem, [b]);
    StuckIsPermutation(dsts, src, rem);
    assert src[b] in Named(src, rem);
    var saved := Set(now, SCRATCH, now(dsts[b]));
    var after := Set(saved, dsts[b], saved(src[b]));
    assert Exec([TagOp(SCRATCH, dsts[b]), TagOp(dsts[b], src[b])], now) == after by {
      assert [TagOp(SCRATCH, dsts[b]), TagOp(dsts[b], src[b])][1..] == [TagOp(dsts[b], src[b])];
      assert Exec([TagOp(dsts[b], src[b])], saved) == after;
    }
    var redirected := Redirect(src, left, dsts[b]);
    forall i | 0 <= i < |dsts| && left[i] ensures after(redirected[i]) == goal(dsts[i]) {
      assert src[i] in Named(src, rem);
    }
    forall r | r != SCRATCH && (forall i :: 0 <= i < |dsts| && left[i] ==> dsts[i] != r)
      ensures after(r) == goal(r)
    {
      if r != dsts[b] {
        assert forall i :: 0 <= i < |dsts| && rem[i] ==> i == b || left[i];
      }
    }
  }

  // ---- The batch a caller passes in ----

  predicate Distinct(ops: seq<TagOp>) {
    forall i, j :: 0 <= i < j < |ops| ==> ops[i].dst != ops[j].dst
  }

  predicate IsCopyBatch(ops: seq<TagOp>) {
    forall i :: 0 <= i < |ops| ==> ops[i].dst >= 0
  }

  function Dests(ops: seq<TagOp>): set<int> {
    set i | 0 <= i < |ops| :: ops[i].dst
  }

  lemma ElementsConcat(a: seq<int>, b: seq<int>)
    ensures Elements(a + b) == Elements(a) + Elements(b)
  {
  }

  // sort.Ints, one insertion at a time.
  function Insert(s: seq<int>, x: int): (r: seq<int>)
    ensures |r| == |s| + 1 && forall y :: y in r <==> y == x || y in s
  {
    if s == [] || x <= s[0] then [x] + s
    else
      assert forall y :: y in s <==> y == s[0] || y in s[1..];
      [s[0]] + Insert(s[1..], x)
  }

  lemma {:induction false} InsertSorted(s: seq<int>, x: int)
    requires Sorted(s) && x !in s
    ensures Sorted(Insert(s, x))
  {
    if s != [] && x > s[0] {
      var rest := Insert(s[1..], x);
      InsertSorted(s[1..], x);
      forall k | 0 <= k < |rest| ensures s[0] < rest[k] {
        assert rest[k] in rest;
      }
    }
  }

  function SortedDsts(ops: seq<TagOp>): (d: seq<int>)
    ensures |d| == |ops| && Elements(d) == Dests(ops)
    ensures Distinct(ops) ==> Sorted(d)
  {
    if ops == [] then []
    else
      var init := ops[..|ops| - 1];
      var before := SortedDsts(init);
      DestsSplit(ops);
      assert forall x :: x in before <==> x in Elements(before);
      if Distinct(ops) then InsertSorted(before, ops[|ops| - 1].dst); Insert(before, ops[|ops| - 1].dst)
      else Insert(before, ops[|ops| - 1].dst)
  }

  lemma DestsSplit(ops: seq<TagOp>)
    requires ops != []
    ensures Dests(ops) == Dests(ops[..|ops| - 1]) + {ops[|ops| - 1].dst}
    ensures Distinct(ops) ==> Distinct(ops[..|ops| - 1]) && ops[|ops| - 1].dst !in Dests(ops[..|ops| - 1])
  {
    var init := ops[..|ops| - 1];
    forall r | r in Dests(ops) ensures r in Dests(init) || r == ops[|ops| - 1].dst {
      var i :| 0 <= i < |ops| && ops[i].dst == r;
      assert i < |init| ==> init[i].dst == r;
    }
    forall r | r in Dests(init) ensures r in Dests(ops) {
      var i :| 0 <= i < |init| && init[i].dst == r;
      assert ops[i].dst == r;
    }
  }

  // A batch writes as many registers as it has copies exactly when no two copies share a destination.
  lemma {:induction false} DestsCount(ops: seq<TagOp>)
    ensures |Dests(ops)| <= |ops| && (|Dests(ops)| == |ops| <==> Distinct(ops))
  {
    if ops != [] {
      var init := ops[..|ops| - 1];
      DestsSplit(ops);
      DestsCount(init);
      if Distinct(init) && ops[|ops| - 1].dst !in Dests(init) {
        forall i, j | 0 <= i < j < |ops| ensures ops[i].dst != ops[j].dst {
          assert init[i].dst in Dests(init);
        }
      }
    }
  }

  function SourceMap(ops: seq<TagOp>): (m: map<int, int>)
    ensures m.Keys == Dests(ops)
    ensures Distinct(ops) ==> forall i :: 0 <= i < |ops| ==> ops[i].dst in m && m[ops[i].dst] == ops[i].src
  {
    if ops == [] then map[]
    else
      DestsSplit(ops);
      SourceMap(ops[..|ops| - 1])[ops[|ops| - 1].dst := ops[|ops| - 1].src]
  }

  function SourceColumn(dsts: seq<int>, m: map<int, int>): (s: seq<int>)
    requires Elements(dsts) <= m.Keys
    ensures |s| == |dsts| && forall i :: 0 <= i < |dsts| ==> s[i] == m[dsts[i]]
  {
    seq(|dsts|, i requires 0 <= i < |dsts| => m[dsts[i]])
  }

  function AllTrue(n: nat): (r: seq<bool>)
    ensures |r| == n && forall i :: 0 <= i < n ==> r[i]
  {
    seq(n, _ => true)
  }

  // sequentializeCopiesRoundwise: the list the counter-keeping implementation must reproduce.
  function Sequence(ops: seq<TagOp>): seq<TagOp> {
    if |ops| <= 1 then ops
    else
      var dsts := SortedDsts(ops);
      Rounds(dsts, SourceColumn(dsts, SourceMap(ops)), AllTrue(|dsts|))
  }

  // What every register must hold in the end.
  function Goal(ops: seq<TagOp>, regs: Regs): Regs {
    var m := SourceMap(ops);
    r => if r in m then regs(m[r]) else regs(r)
  }

  lemma StartsMidway(ops: seq<TagOp>, regs: Regs)
    requires IsCopyBatch(ops) && Distinct(ops)
    ensures var dsts := SortedDsts(ops);
            var src := SourceColumn(dsts, SourceMap(ops));
            State(dsts, src, AllTrue(|dsts|)) && Midway(dsts, src, AllTrue(|dsts|), regs, Goal(ops, regs))
  {
    BatchState(ops);
    var dsts, m := SortedDsts(ops), SourceMap(ops);
    forall r | r in m ensures exists i :: 0 <= i < |dsts| && dsts[i] == r {
      assert r in Elements(dsts);
    }
  }

  // Executed in order, the list has the effect of one atomic parallel assignment.
  lemma SequenceAssigns(ops: seq<TagOp>, regs: Regs)
    requires IsCopyBatch(ops) && Distinct(ops)
    ensures IsAssigned(ops, regs, Exec(Sequence(ops), regs))
  {
    if |ops| == 1 {
      assert Exec(ops[1..], Set(regs, ops[0].dst, regs(ops[0].src))) == Set(regs, ops[0].dst, regs(ops[0].src));
    } else if |ops| > 1 {
      var dsts := SortedDsts(ops);
      StartsMidway(ops, regs);
      RoundsAssign(dsts, SourceColumn(dsts, SourceMap(ops)), AllTrue(|dsts|), regs, Goal(ops, regs));
      var after := Exec(Sequence(ops), regs);
      assert forall r :: r != SCRATCH ==> after(r) == Goal(ops, regs)(r);
    }
  }

  lemma SequenceAlwaysAssigns(ops: seq<TagOp>)
    requires IsCopyBatch(ops) && Distinct(ops)
    ensures forall regs: Regs :: IsAssigned(ops, regs, Exec(Sequence(ops), regs))
  {
    forall regs: Regs ensures IsAssigned(ops, regs, Exec(Sequence(ops), regs)) {
      SequenceAssigns(ops, regs);
    }
  }

  lemma RoundsUnfold(dsts: seq<int>, src: seq<int>, rem: seq<bool>)
    requires State(dsts, src, rem) && Pending(rem) > 0
    ensures var ready := ReadyBelow(dsts, src, rem, |dsts|);
            if ready != [] then
              && Pending(Without(rem, ready)) < Pending(rem)
              && Rounds(dsts, src, rem) == CopiesAt(dsts, src, ready) + Rounds(dsts, src, Without(rem, ready))
            else
              var b := FirstPending(rem);
              var left := Without(rem, [b]);
              && Pending(left) < Pending(rem)
              && Rounds(dsts, src, rem)
                 == [TagOp(SCRATCH, dsts[b]), TagOp(dsts[b], src[b])] + Rounds(dsts, Redirect(src, left, dsts[b]), left)
  {
    var ready := ReadyBelow(dsts, src, rem, |dsts|);
    if ready != [] {
      PendingDrops(rem, ready);
    } else {
      PendingDrops(rem, [FirstPending(rem)]);
    }
  }

  // What a distinct batch gives the loops to start from.
  lemma BatchState(ops: seq<TagOp>)
    requires IsCopyBatch(ops) && Distinct(ops)
    ensures var dsts := SortedDsts(ops);
            State(dsts, SourceColumn(dsts, SourceMap(ops)), AllTrue(|dsts|))
            && Named(dsts, AllTrue(|dsts|)) == Elements(dsts)
            && Pending(AllTrue(|dsts|)) == |ops|
            && forall i :: 0 <= i < |dsts| ==> dsts[i] in SourceMap(ops)
  {
    var dsts := SortedDsts(ops);
    assert forall i :: 0 <= i < |dsts| ==> dsts[i] in Elements(dsts);
    forall i | 0 <= i < |dsts| ensures dsts[i] >= 0 {
      assert dsts[i] in Dests(ops);
    }
    AllPending(|dsts|);
  }

  lemma {:induction false} AllPending(n: nat)
    ensures Pending(AllTrue(n)) == n
  {
    if n > 0 {
      AllPending(n - 1);
      assert AllTrue(n)[..n - 1] == AllTrue(n - 1);
    }
  }

  // ---- sequentializeCopies: the same rounds, with per-destination counters kept up to date ----

  datatype Sequenced = Sequenced(ops: seq<TagOp>) | DuplicateDestination

  lemma {:induction false} PendingClear(rem: seq<bool>, i: nat)
    requires i < |rem| && rem[i]
    ensures Pending(rem[i := false]) == Pending(rem) - 1
  {
    var k := |rem| - 1;
    if i < k {
      assert rem[i := false][..k] == rem[..k][i := false];
      PendingClear(rem[..k], i);
    } else {
      assert rem[i := false][..k] == rem[..k];
    }
  }

  // Each counter still in use holds the number of copies in rem that read its destination.
  ghost predicate Counted(dsts: seq<int>, src: seq<int>, rem: seq<bool>, live: seq<bool>, pending: seq<int>) {
    && |dsts| == |src| == |rem| == |live| == |pending|
    && forall t :: 0 <= t < |dsts| && live[t] ==> pending[t] == Reads(src, rem, dsts[t])
  }

  ghost predicate Indexes(idxOf: map<int, nat>, dsts: seq<int>) {
    && (forall i :: 0 <= i < |dsts| ==> dsts[i] in idxOf && idxOf[dsts[i]] == i)
    && (forall d :: d in idxOf ==> idxOf[d] < |dsts| && dsts[idxOf[d]] == d)
  }

  method IndexOf(dsts: seq<int>) returns (idxOf: map<int, nat>)
    ensures idxOf.Keys == Elements(dsts)
    ensures Sorted(dsts) ==> Indexes(idxOf, dsts)
  {
    idxOf := map[];
    for i := 0 to |dsts|
      invariant idxOf.Keys == Elements(dsts[..i])
      invariant forall d :: d in idxOf ==> idxOf[d] < i && dsts[idxOf[d]] == d
    {
      idxOf := idxOf[dsts[i] := i];
      assert dsts[..i + 1] == dsts[..i] + [dsts[i]];
      ElementsConcat(dsts[..i], [dsts[i]]);
    }
    assert dsts[..|dsts|] == dsts;
    forall i | 0 <= i < |dsts| ensures dsts[i] in idxOf {
      assert dsts[i] in Elements(dsts);
    }
  }

  method CountReads(dsts: seq<int>, src: seq<int>, idxOf: map<int, nat>) returns (pending: seq<int>)
    requires |dsts| == |src| && Sorted(dsts) && Indexes(idxOf, dsts)
    ensures Counted(dsts, src, AllTrue(|dsts|), AllTrue(|dsts|), pending)
  {
    var n := |dsts|;
    ghost var all := AllTrue(n);
    pending := seq(n, _ => 0);
    for j := 0 to n
      invariant |pending| == n && forall t :: 0 <= t < n ==> pending[t] == Reads(src[..j], all[..j], dsts[t])
    {
      assert src[..j + 1][..j] == src[..j] && all[..j + 1][..j] == all[..j];
      pending := Bump(dsts, idxOf, pending, src[j], 1);
    }
    assert src[..n] == src && all[..n] == all;
  }

  // pending[idxOf[r]] += step, when r is a destination at all.
  function Bump(dsts: seq<int>, idxOf: map<int, nat>, pending: seq<int>, r: int, step: int): (p: seq<int>)
    requires |pending| == |dsts| && Indexes(idxOf, dsts)
    ensures |p| == |pending|
    ensures forall t :: 0 <= t < |dsts| ==> p[t] == pending[t] + if dsts[t] == r then step else 0
  {
    if r in idxOf then pending[idxOf[r] := pending[idxOf[r]] + step] else pending
  }

  // One round: emit every destination whose counter is zero, judged on the counters at the round's start.
  method EmitReady(dsts: seq<int>, src: seq<int>, pending: seq<int>, rem: seq<bool>, before: nat)
    returns (copies: seq<TagOp>, emitted: seq<nat>, remaining: seq<bool>, left: nat)
    requires State(dsts, src, rem) && before == Pending(rem) && Counted(dsts, src, rem, rem, pending)
    ensures emitted == ReadyBelow(dsts, src, rem, |dsts|) && copies == CopiesAt(dsts, src, emitted)
    ensures remaining == Without(rem, emitted) && left == Pending(remaining)
  {
    copies, emitted, remaining, left := [], [], rem, before;
    assert Without(rem, []) == rem;
    for i := 0 to |dsts|
      invariant emitted == ReadyBelow(dsts, src, rem, i) && copies == CopiesAt(dsts, src, emitted)
      invariant remaining == Without(rem, emitted) && left == Pending(remaining)
    {
      assert remaining[i] == rem[i];
      if remaining[i] && pending[i] == 0 {
        CopiesSnoc(dsts, src, emitted, i);
        PendingClear(remaining, i);
        assert remaining[i := false] == Without(rem, emitted + [i]);
        copies, emitted := copies + [TagOp(dsts[i], src[i])], emitted + [i];
        remaining, left := remaining[i := false], left - 1;
      }
    }
  }

  // The decrements deferred to the round's end.
  method Settle(dsts: seq<int>, src: seq<int>, start: seq<int>, idxOf: map<int, nat>, emitted: seq<nat>,
                ghost rem: seq<bool>, ghost live: seq<bool>)
    returns (pending: seq<int>)
    requires State(dsts, src, rem) && Indexes(idxOf, dsts) && Counted(dsts, src, rem, live, start)
    requires forall p :: 0 <= p < |emitted| ==> emitted[p] < |dsts| && rem[emitted[p]]
    requires forall p, q :: 0 <= p < q < |emitted| ==> emitted[p] < emitted[q]
    ensures Counted(dsts, src, Without(rem, emitted), live, pending)
  {
    pending := start;
    assert Without(rem, []) == rem;
    for e := 0 to |emitted|
      invariant Counted(dsts, src, Without(rem, emitted[..e]), live, pending)
    {
      SettleOne(dsts, src, rem, emitted, e);
      pending := Bump(dsts, idxOf, pending, src[emitted[e]], -1);
    }
    assert emitted[..|emitted|] == emitted;
  }

  lemma SettleOne(dsts: seq<int>, src: seq<int>, rem: seq<bool>, emitted: seq<nat>, e: nat)
    requires State(dsts, src, rem) && e < |emitted|
    requires forall p :: 0 <= p < |emitted| ==> emitted[p] < |dsts| && rem[emitted[p]]
    requires forall p, q :: 0 <= p < q < |emitted| ==> emitted[p] < emitted[q]
    ensures forall t :: 0 <= t < |dsts| ==>
              Reads(src, Without(rem, emitted[..e]), dsts[t])
              == Reads(src, Without(rem, emitted[..e + 1]), dsts[t]) + if dsts[t] == src[emitted[e]] then 1 else 0
  {
    var i, now := emitted[e], Without(rem, emitted[..e]);
    assert i !in emitted[..e];
    assert now[i := false] == Without(rem, emitted[..e + 1]);
    forall t | 0 <= t < |dsts|
      ensures Reads(src, now, dsts[t]) == Reads(src, now[i := false], dsts[t]) + if src[i] == dsts[t] then 1 else 0
    {
      ReadsClear(src, now, i, dsts[t]);
    }
  }

  // Every remaining destination is still read: spill the lowest one and redirect its readers.
  method SpillLowest(dsts: seq<int>, src: seq<int>, start: seq<int>, rem: seq<bool>, idxOf: map<int, nat>)
    returns (copies: seq<TagOp>, srcv: seq<int>, pending: seq<int>, remaining: seq<bool>)
    requires State(dsts, src, rem) && Indexes(idxOf, dsts) && Pending(rem) > 0 && Counted(dsts, src, rem, rem, start)
    ensures var b := FirstPending(rem);
            && remaining == Without(rem, [b]) && srcv == Redirect(src, remaining, dsts[b])
            && copies == [TagOp(SCRATCH, dsts[b]), TagOp(dsts[b], src[b])]
    ensures Pending(remaining) == Pending(rem) - 1 && Counted(dsts, srcv, remaining, remaining, pending)
  {
    NonePending(rem);
    var b := 0;
    while !rem[b]
      invariant b < |rem| && forall j :: 0 <= j < b ==> !rem[j]
      decreases |rem| - b
    {
      b := b + 1;
    }
    assert b == FirstPending(rem);
    copies := [TagOp(SCRATCH, dsts[b]), TagOp(dsts[b], src[b])];
    PendingClear(rem, b);
    remaining := rem[b := false];
    assert remaining == Without(rem, [b]);
    pending := Bump(dsts, idxOf, start, src[b], -1);
    srcv := src;
    for j := 0 to |src|
      invariant |srcv| == |src| && forall i :: j <= i < |src| ==> srcv[i] == src[i]
      invariant forall i :: 0 <= i < j ==> srcv[i] == if remaining[i] && src[i] == dsts[b] then SCRATCH else src[i]
    {
      if remaining[j] && srcv[j] == dsts[b] {
        srcv := srcv[j := SCRATCH];
      }
    }
    assert srcv == Redirect(src, remaining, dsts[b]);
    BreakCounts(dsts, src, rem, b);
  }

  // Breaking the cycle at b takes one read off b's source; the redirected copies no longer read any destination.
  lemma BreakCounts(dsts: seq<int>, src: seq<int>, rem: seq<bool>, b: nat)
    requires State(dsts, src, rem) && b < |dsts| && rem[b]
    ensures var left := Without(rem, [b]);
            forall t :: 0 <= t < |dsts| && left[t] ==>
              Reads(src, rem, dsts[t])
              == Reads(Redirect(src, left, dsts[b]), left, dsts[t]) + if src[b] == dsts[t] then 1 else 0
  {
    var left := Without(rem, [b]);
    assert left == rem[b := false];
    forall t | 0 <= t < |dsts| && left[t]
      ensures Reads(src, rem, dsts[t])
           == Reads(Redirect(src, left, dsts[b]), left, dsts[t]) + if src[b] == dsts[t] then 1 else 0
    {
      ReadsClear(src, rem, b, dsts[t]);
      ReadsAgree(src, Redirect(src, left, dsts[b]), left, dsts[t]);
    }
  }

  method SequentializeCopies(ops: seq<TagOp>) returns (out: Sequenced)
    requires IsCopyBatch(ops)
    ensures out.DuplicateDestination? <==> |ops| > 1 && !Distinct(ops)
    ensures out.Sequenced? ==> out.ops == Sequence(ops)
    ensures out.Sequenced? ==> forall regs: Regs :: IsAssigned(ops, regs, Exec(out.ops, regs))
  {
    if Distinct(ops) {
      SequenceAlwaysAssigns(ops);
    }
    if |ops| <= 1 {
      return Sequenced(ops);
    }
    var dsts := SortedDsts(ops);
    var idxOf := IndexOf(dsts);
    DestsCount(ops);
    assert |idxOf| == |idxOf.Keys|;
    if |idxOf| != |ops| {
      return DuplicateDestination;
    }
    BatchState(ops);
    var result := AllRounds(dsts, SourceColumn(dsts, SourceMap(ops)), idxOf);
    return Sequenced(result);
  }

  method AllRounds(dsts: seq<int>, src: seq<int>, idxOf: map<int, nat>) returns (result: seq<TagOp>)
    requires State(dsts, src, AllTrue(|dsts|)) && Indexes(idxOf, dsts)
    ensures result == Rounds(dsts, src, AllTrue(|dsts|))
  {
    var srcv, remaining, left := src, AllTrue(|dsts|), |dsts|;
    AllPending(|dsts|);
    var pending := CountReads(dsts, src, idxOf);
    result := [];
    ghost var goal := Rounds(dsts, src, AllTrue(|dsts|));
    while left > 0
      invariant State(dsts, srcv, remaining) && left == Pending(remaining)
      invariant Counted(dsts, srcv, remaining, remaining, pending)
      invariant result + Rounds(dsts, srcv, remaining) == goal
    {
      var copies;
      copies, srcv, pending, remaining, left := Round(dsts, srcv, pending, remaining, idxOf, left);
      result := result + copies;
    }
  }

  method Round(dsts: seq<int>, src: seq<int>, start: seq<int>, rem: seq<bool>, idxOf: map<int, nat>, before: nat)
    returns (copies: seq<TagOp>, srcv: seq<int>, pending: seq<int>, remaining: seq<bool>, left: nat)
    requires State(dsts, src, rem) && Indexes(idxOf, dsts) && Counted(dsts, src, rem, rem, start)
    requires before == Pending(rem) > 0
    ensures State(dsts, srcv, remaining) && Counted(dsts, srcv, remaining, remaining, pending)
    ensures left == Pending(remaining) < before
    ensures Rounds(dsts, src, rem) == copies + Rounds(dsts, srcv, remaining)
  {
    RoundsUnfold(dsts, src, rem);
    ReadyFacts(dsts, src, rem, |dsts|);
    var emitted;
    copies, emitted, remaining, left := EmitReady(dsts, src, start, rem, before);
    srcv := src;
    if emitted != [] {
      pending := Settle(dsts, src, start, idxOf, emitted, rem, remaining);
    } else {
      copies, srcv, pending, remaining := SpillLowest(dsts, src, start, rem, idxOf);
      left := before - 1;
    }
  }
}
