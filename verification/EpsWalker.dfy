/** The memoised epsilon walk: one complete walk answers every target as a walk that stops there would. */
module EpsWalker {
  import opened FiniteSets
  import opened PrioritySearch
  import opened BtProgram
  import opened ZeroWidth
  import opened FirstSets

  datatype CaptureOp = CaptureOp(open: bool, group: nat)

  function OpOf(slot: nat): CaptureOp {
    CaptureOp(slot % 2 == 0, slot / 2)
  }

  // ---- What find owes ----

  // Instructions joined by the edges that consume nothing, all guarded, the target the only goal.
  function EpsGraph(prog: Prog, target: nat): (g: Graph<nat>)
    requires Closed(prog) && target < |prog|
    ensures g.Valid()
  {
    var pcs := Below(|prog|);
    Graph(map pc | pc in pcs :: ZeroEdges(prog, pc), {target}, pcs, map pc | pc in pcs :: 0, 1)
  }

  // The capture operations of the instructions passed before the last.
  function PathOps(prog: Prog, nodes: seq<nat>): seq<CaptureOp> {
    if |nodes| <= 1 then []
    else
      (if nodes[0] < |prog| && prog[nodes[0]].Capture? then [OpOf(prog[nodes[0]].slot)] else [])
      + PathOps(prog, nodes[1..])
  }

  // Along the lexicographically least simple epsilon path from one instruction to another.
  ghost predicate Owed(prog: Prog, from: int, target: nat, reached: bool, ops: seq<CaptureOp>)
    requires Closed(prog) && target < |prog|
  {
    if !(0 <= from < |prog|) then !reached && ops == []
    else
      var g := EpsGraph(prog, target);
      var b := Best(g, from, {});
      && (reached <==> b.Found?)
      && ops == if b.Found? then PathOps(prog, Nodes(g, from, b.path)) else []
  }

  // ---- What that is, without a graph ----

  // One step that reads nothing.
  predicate Passes(inst: Inst, next: nat) {
    match inst
    case Alt(out, arg) => next == out || next == arg
    case AltMatch(out, arg) => next == out || next == arg
    case Capture(out, _) => next == out
    case Nop(out) => next == out
    case Assert(out, _) => next == out
    case _ => false
  }

  // Steps that read nothing, from one instruction to another, meeting none twice.
  ghost predicate EpsPath(prog: Prog, from: int, target: nat, path: seq<nat>) {
    && path != [] && path[0] == from && path[|path| - 1] == target
    && (forall i :: 0 <= i < |path| ==> path[i] < |prog|)
    && (forall i :: 0 <= i < |path| - 1 ==> Passes(prog[path[i]], path[i + 1]))
    && (forall i, j :: 0 <= i < j < |path| ==> path[i] != path[j])
  }

  // Where the two part, the one takes the first branch of an alternation.
  ghost predicate Preferred(prog: Prog, path: seq<nat>, other: seq<nat>) {
    path == other || exists k :: PartsAt(prog, path, other, k)
  }

  ghost predicate PartsAt(prog: Prog, path: seq<nat>, other: seq<nat>, k: int) {
    && 0 < k < |path| && k < |other| && path[..k] == other[..k] && path[k] != other[k]
    && path[k - 1] < |prog| && prog[path[k - 1]].IsAlt() && path[k] == prog[path[k - 1]].out
  }

  // The slot an operation stands for: 2k opens group k, 2k + 1 closes it.
  function SlotOf(op: CaptureOp): nat {
    2 * op.group + if op.open then 0 else 1
  }

  // at lists the places of a path's captures in order, the last instruction's left out.
  ghost predicate AreCaptures(prog: Prog, path: seq<nat>, at: seq<nat>) {
    && (forall i, j :: 0 <= i < j < |at| ==> at[i] < at[j])
    && (forall i :: 0 <= i < |at| ==> CapturesAt(prog, path, at[i]))
    && (forall k :: CapturesAt(prog, path, k) ==> k in at)
  }

  ghost predicate CapturesAt(prog: Prog, path: seq<nat>, k: int) {
    0 <= k < |path| - 1 && path[k] < |prog| && prog[path[k]].Capture?
  }

  // One operation for each capture passed, in path order, standing for its slot.
  ghost predicate Tells(prog: Prog, path: seq<nat>, ops: seq<CaptureOp>) {
    exists at :: AreCaptures(prog, path, at) && |ops| == |at| &&
      forall i :: 0 <= i < |ops| ==> Stands(prog, path, at[i], ops[i])
  }

  ghost predicate Stands(prog: Prog, path: seq<nat>, k: int, op: CaptureOp) {
    CapturesAt(prog, path, k) && prog[path[k]].slot == SlotOf(op)
  }

  // The operations along the preferred path of those that lead there, if any does.
  ghost predicate Answers(prog: Prog, from: int, target: nat, reached: bool, ops: seq<CaptureOp>) {
    if reached then
      exists path :: EpsPath(prog, from, target, path) && Tells(prog, path, ops) &&
        forall other :: EpsPath(prog, from, target, other) ==> Preferred(prog, path, other)
    else ops == [] && forall path :: !EpsPath(prog, from, target, path)
  }

  function Shifted(at: seq<nat>): (up: seq<nat>)
    ensures |up| == |at| && forall i :: 0 <= i < |at| ==> up[i] == at[i] + 1
  {
    seq(|at|, i requires 0 <= i < |at| => at[i] + 1)
  }

  function Places(prog: Prog, path: seq<nat>): seq<nat> {
    if |path| <= 1 then []
    else (if path[0] < |prog| && prog[path[0]].Capture? then [0] else []) + Shifted(Places(prog, path[1..]))
  }

  lemma {:induction false} PlacesAre(prog: Prog, path: seq<nat>)
    ensures AreCaptures(prog, path, Places(prog, path))
  {
    if |path| > 1 {
      PlacesAre(prog, path[1..]);
      PlacesMove(prog, path, Places(prog, path[1..]));
    }
  }

  lemma PlacesMove(prog: Prog, path: seq<nat>, rest: seq<nat>)
    requires |path| > 1 && AreCaptures(prog, path[1..], rest)
    ensures AreCaptures(prog, path, (if CapturesAt(prog, path, 0) then [0] else []) + Shifted(rest))
  {
    var at := (if CapturesAt(prog, path, 0) then [0] else []) + Shifted(rest);
    forall k ensures k > 0 ==> (CapturesAt(prog, path, k) <==> CapturesAt(prog, path[1..], k - 1)) {
    }
    forall k | CapturesAt(prog, path, k) ensures k in at {
      if k > 0 {
        assert k - 1 in rest;
        var i :| 0 <= i < |rest| && rest[i] == k - 1;
        assert Shifted(rest)[i] == k;
      }
    }
  }

  lemma {:induction false} OpsAtPlaces(prog: Prog, path: seq<nat>, i: nat)
    requires i < |Places(prog, path)|
    ensures |PathOps(prog, path)| == |Places(prog, path)|
    ensures Stands(prog, path, Places(prog, path)[i], PathOps(prog, path)[i])
  {
    SameNumber(prog, path);
    PlacesAre(prog, path);
    var tail := path[1..];
    var here := |Places(prog, path)| - |Places(prog, tail)|;
    if i >= here {
      OpsAtPlaces(prog, tail, i - here);
    }
  }

  lemma {:induction false} SameNumber(prog: Prog, path: seq<nat>)
    ensures |PathOps(prog, path)| == |Places(prog, path)|
  {
    if |path| > 1 {
      SameNumber(prog, path[1..]);
    }
  }

  lemma PathOpsTell(prog: Prog, path: seq<nat>)
    ensures Tells(prog, path, PathOps(prog, path))
  {
    PlacesAre(prog, path);
    SameNumber(prog, path);
    forall i | 0 <= i < |PathOps(prog, path)|
      ensures Stands(prog, path, Places(prog, path)[i], PathOps(prog, path)[i])
    {
      OpsAtPlaces(prog, path, i);
    }
  }

  lemma StepPasses(prog: Prog, pc: nat, next: nat)
    requires pc < |prog|
    ensures Passes(prog[pc], next) <==> next in ZeroEdges(prog, pc)
  {
  }

  lemma Onward(prog: Prog, from: int, t: nat, path: seq<nat>)
    requires EpsPath(prog, from, t, path) && |path| > 1
    ensures from != t && Passes(prog[path[0]], path[1]) && EpsPath(prog, path[1], t, path[1..])
    ensures from !in path[1..] && path == [path[0]] + path[1..]
  {
  }

  // A path of choices is such a path of instructions.
  lemma {:induction false} ChoicesPass(prog: Prog, t: nat, n: nat, cs: seq<nat>, avoid: set<nat>)
    requires Closed(prog) && t < |prog| && Simple(EpsGraph(prog, t), n, cs, avoid)
    ensures var path := Nodes(EpsGraph(prog, t), n, cs);
            EpsPath(prog, n, t, path) && forall i :: 0 <= i < |path| ==> path[i] !in avoid
    decreases |cs|
  {
    if n != t {
      var m := ZeroEdges(prog, n)[cs[0]];
      ChoicesPass(prog, t, m, cs[1..], avoid + {n});
      StepPasses(prog, n, m);
    }
  }

  // The choices of a path, the first branch where both lead on.
  function Choices(prog: Prog, path: seq<nat>): seq<nat> {
    if |path| <= 1 then []
    else
      [if path[0] < |prog| && prog[path[0]].IsAlt() && path[1] != prog[path[0]].out then 1 else 0]
      + Choices(prog, path[1..])
  }

  lemma {:induction false} PathChooses(prog: Prog, t: nat, n: nat, path: seq<nat>, avoid: set<nat>)
    requires Closed(prog) && t < |prog| && EpsPath(prog, n, t, path)
    requires forall pc :: pc in path ==> pc !in avoid
    ensures var g, cs := EpsGraph(prog, t), Choices(prog, path);
            Simple(g, n, cs, avoid) && Nodes(g, n, cs) == path
    decreases |path|
  {
    var g, cs := EpsGraph(prog, t), Choices(prog, path);
    if |path| == 1 {
      assert path == [t];
    } else {
      Onward(prog, n, t, path);
      PathChooses(prog, t, path[1], path[1..], avoid + {n});
      ChosenStep(prog, path);
      SimpleCons(g, n, cs[0], Choices(prog, path[1..]), avoid);
    }
  }

  lemma SimpleCons(g: Graph<nat>, n: nat, c: nat, cs: seq<nat>, avoid: set<nat>)
    requires n in g.succ && n in g.guarded && n !in g.goals && n !in avoid && c < |g.succ[n]|
    requires Simple(g, g.succ[n][c], cs, avoid + {n})
    ensures Simple(g, n, [c] + cs, avoid) && Nodes(g, n, [c] + cs) == [n] + Nodes(g, g.succ[n][c], cs)
  {
    assert ([c] + cs)[1..] == cs;
  }

  lemma ChosenStep(prog: Prog, path: seq<nat>)
    requires |path| > 1 && path[0] < |prog| && Passes(prog[path[0]], path[1])
    ensures var c, es := Choices(prog, path)[0], ZeroEdges(prog, path[0]);
            c < |es| && es[c] == path[1] && (c > 0 ==> c == 1 && prog[path[0]].IsAlt() && es[0] != es[1])
  {
  }

  lemma PreferredOn(prog: Prog, n: nat, tail: seq<nat>, other: seq<nat>)
    requires tail != [] && Preferred(prog, tail, other)
    ensures Preferred(prog, [n] + tail, [n] + other)
  {
    if tail != other {
      var k :| PartsAt(prog, tail, other, k);
      var a, b := [n] + tail, [n] + other;
      assert a[..k + 1] == [n] + tail[..k] && b[..k + 1] == [n] + other[..k];
      assert PartsAt(prog, a, b, k + 1);
    }
  }

  // A path whose choices come first is the preferred one.
  lemma {:induction false} FirstIsPreferred(prog: Prog, t: nat, n: nat, cs: seq<nat>, other: seq<nat>, avoid: set<nat>)
    requires Closed(prog) && t < |prog| && Simple(EpsGraph(prog, t), n, cs, avoid) && EpsPath(prog, n, t, other)
    requires Before(cs, Choices(prog, other))
    ensures Preferred(prog, Nodes(EpsGraph(prog, t), n, cs), other)
    decreases |cs|
  {
    if n == t {
      assert other == [n];
    } else {
      var g, path := EpsGraph(prog, t), Nodes(EpsGraph(prog, t), n, cs);
      var m, rest := g.succ[n][cs[0]], other[1..];
      var tail := Nodes(g, m, cs[1..]);
      assert path == [n] + tail && tail[0] == m && other == [n] + rest;
      Onward(prog, n, t, other);
      ChosenStep(prog, other);
      assert Choices(prog, other)[1..] == Choices(prog, rest);
      if m == other[1] {
        FirstIsPreferred(prog, t, m, cs[1..], rest, avoid + {n});
        PreferredOn(prog, n, tail, rest);
      } else {
        assert path[..1] == [n] == other[..1];
        assert PartsAt(prog, path, other, 1);
      }
    }
  }

  lemma OwedAnswers(prog: Prog, from: int, t: nat, reached: bool, ops: seq<CaptureOp>)
    requires Closed(prog) && t < |prog| && Owed(prog, from, t, reached, ops)
    ensures Answers(prog, from, t, reached, ops)
  {
    if 0 <= from < |prog| {
      var g := EpsGraph(prog, t);
      BestIsLeast(g, from, {});
      var cs := Best(g, from, {});
      if reached {
        var path := Nodes(g, from, cs.path);
        ChoicesPass(prog, t, from, cs.path, {});
        PathOpsTell(prog, path);
        forall other | EpsPath(prog, from, t, other) ensures Preferred(prog, path, other) {
          PathChooses(prog, t, from, other, {});
          FirstIsPreferred(prog, t, from, cs.path, other, {});
        }
      } else {
        forall path ensures !EpsPath(prog, from, t, path) {
          if EpsPath(prog, from, t, path) {
            PathChooses(prog, t, from, path, {});
          }
        }
      }
    }
  }

  // ---- The complete walk ----

  datatype Reach = Reach(reached: set<nat>, ops: map<nat, seq<CaptureOp>>) {
    function OpsTo(pc: nat): seq<CaptureOp> {
      if pc in ops then ops[pc] else []
    }

    function Arrive(pc: nat, buf: seq<CaptureOp>): Reach {
      Reach(reached + {pc}, if buf == [] then ops else ops[pc := buf])
    }

    ghost predicate Valid() {
      ops.Keys <= reached
    }
  }

  ghost function Unreached(prog: Prog, r: Reach): set<nat> {
    set pc: nat | pc < |prog| && pc !in r.reached
  }

  // What passing an instruction appends.
  function Passed(inst: Inst, buf: seq<CaptureOp>): seq<CaptureOp> {
    if inst.Capture? then buf + [OpOf(inst.slot)] else buf
  }

  ghost function Walk(prog: Prog, pc: int, buf: seq<CaptureOp>, r: Reach): (w: Reach)
    requires Closed(prog)
    ensures r.reached <= w.reached
    decreases Unreached(prog, r)
  {
    if !(0 <= pc < |prog|) || pc in r.reached then r
    else
      var here, es, b := r.Arrive(pc, buf), ZeroEdges(prog, pc), Passed(prog[pc], buf);
      assert pc in Unreached(prog, r) && pc !in Unreached(prog, here);
      if es == [] then here
      else if |es| == 1 then Walk(prog, es[0], b, here)
      else Walk(prog, es[1], b, Walk(prog, es[0], b, here))
  }

  // An instruction reached before keeps its operations.
  lemma {:induction false} WalkKeeps(prog: Prog, pc: int, buf: seq<CaptureOp>, r: Reach, t: nat)
    requires Closed(prog) && t in r.reached
    ensures Walk(prog, pc, buf, r).OpsTo(t) == r.OpsTo(t)
    decreases Unreached(prog, r)
  {
    if 0 <= pc < |prog| && pc !in r.reached {
      var here, es, b := r.Arrive(pc, buf), ZeroEdges(prog, pc), Passed(prog[pc], buf);
      assert pc in Unreached(prog, r) && pc !in Unreached(prog, here);
      if es != [] {
        WalkKeeps(prog, es[0], b, here, t);
        if |es| > 1 {
          WalkKeeps(prog, es[1], b, Walk(prog, es[0], b, here), t);
        }
      }
    }
  }

  lemma FirstArrival(prog: Prog, pc: nat, buf: seq<CaptureOp>, r: Reach)
    requires Closed(prog) && pc < |prog| && pc !in r.reached && r.Valid()
    ensures var w := Walk(prog, pc, buf, r); pc in w.reached && w.OpsTo(pc) == buf
  {
    var here, es, b := r.Arrive(pc, buf), ZeroEdges(prog, pc), Passed(prog[pc], buf);
    if es != [] {
      WalkKeeps(prog, es[0], b, here, pc);
      if |es| > 1 {
        WalkKeeps(prog, es[1], b, Walk(prog, es[0], b, here), pc);
      }
    }
  }

  // Up to its first arrival at the target, the complete walk is the search that stops there.
  ghost predicate Tracks(prog: Prog, t: nat, buf: seq<CaptureOp>, n: nat, o: Outcome<nat>, w: Reach)
    requires Closed(prog) && t < |prog|
  {
    if o.found.Found? then t in w.reached &&
      w.OpsTo(t) == buf + PathOps(prog, Nodes(EpsGraph(prog, t), n, o.found.path))
    else w.reached == o.marks && t !in w.reached && w.Valid()
  }

  lemma {:induction false} WalkTracks(prog: Prog, t: nat, pc: nat, buf: seq<CaptureOp>, r: Reach)
    requires Closed(prog) && t < |prog| && pc < |prog| && t !in r.reached && r.Valid()
    ensures Tracks(prog, t, buf, pc, Search(EpsGraph(prog, t), pc, r.reached), Walk(prog, pc, buf, r))
    decreases Unreached(prog, r), 1
  {
    var g := EpsGraph(prog, t);
    if pc == t {
      FirstArrival(prog, pc, buf, r);
      assert Nodes(g, pc, []) == [pc];
    } else if pc !in r.reached {
      var here, es, b := r.Arrive(pc, buf), ZeroEdges(prog, pc), Passed(prog[pc], buf);
      assert pc in Unreached(prog, r) && pc !in Unreached(prog, here);
      assert g.succ[pc] == es && g.With(r.reached, pc) == here.reached;
      if es != [] {
        WalkTracks(prog, t, es[0], b, here);
        if |es| == 1 {
          OneWay(g, es[0], g.Level(pc), here.reached);
          StepTracks(prog, t, pc, buf, 0, Search(g, es[0], here.reached), Search(g, pc, r.reached),
          Walk(prog, pc, buf, r));
        } else {
          BranchTracks(prog, t, pc, buf, r);
        }
      }
    }
  }

  // An alternation: the second branch is walked only for targets the first does not reach.
  lemma BranchTracks(prog: Prog, t: nat, pc: nat, buf: seq<CaptureOp>, r: Reach)
    requires Closed(prog) && t < |prog| && pc < |prog| && pc != t && t !in r.reached && pc !in r.reached && r.Valid()
    requires |ZeroEdges(prog, pc)| > 1
    requires var here, es, b := r.Arrive(pc, buf), ZeroEdges(prog, pc), Passed(prog[pc], buf);
             Tracks(prog, t, b, es[0], Search(EpsGraph(prog, t), es[0], here.reached), Walk(prog, es[0], b, here))
    ensures Tracks(prog, t, buf, pc, Search(EpsGraph(prog, t), pc, r.reached), Walk(prog, pc, buf, r))
    decreases Unreached(prog, r), 0
  {
    var g, here, es, b := EpsGraph(prog, t), r.Arrive(pc, buf), ZeroEdges(prog, pc), Passed(prog[pc], buf);
    assert pc in Unreached(prog, r) && pc !in Unreached(prog, here);
    assert g.succ[pc] == es == [es[0], es[1]] && g.With(r.reached, pc) == here.reached;
    var o, mid := Search(g, es[0], here.reached), Walk(prog, es[0], b, here);
    TwoWays(g, es[0], es[1], g.Level(pc), here.reached);
    if o.found.Found? {
      WalkKeeps(prog, es[1], b, mid, t);
      StepTracks(prog, t, pc, buf, 0, o, Search(g, pc, r.reached), Walk(prog, pc, buf, r));
    } else {
      WalkTracks(prog, t, es[1], b, mid);
      StepTracks(prog, t, pc, buf, 1, Search(g, es[1], o.marks), Search(g, pc, r.reached), Walk(prog, pc, buf, r));
    }
  }

  // What a branch's search gives its instruction's.
  lemma StepTracks(prog: Prog, t: nat, pc: nat, buf: seq<CaptureOp>, c: nat, o: Outcome<nat>, p: Outcome<nat>, w: Reach)
    requires Closed(prog) && t < |prog| && pc < |prog| && c < |ZeroEdges(prog, pc)|
    requires Tracks(prog, t, Passed(prog[pc], buf), ZeroEdges(prog, pc)[c], o, w)
    requires p.marks == o.marks && p.found == if o.found.Found? then Found([c] + o.found.path) else NotFound
    ensures Tracks(prog, t, buf, pc, p, w)
  {
    if o.found.Found? {
      Joined(prog, t, pc, buf, c, o.found.path);
    }
  }

  lemma OneWay(g: Graph<nat>, m: nat, level: nat, marks: set<nat>)
    requires g.Valid() && m in g.succ && g.rank[m] < level
    ensures var o, p := Search(g, m, marks), SearchOf(g, [m], 0, level, marks);
            && p.marks == o.marks
            && p.found == if o.found.Found? then Found([0] + o.found.path) else NotFound
  {
    var o := Search(g, m, marks);
    if o.found.NotFound? {
      FewerLeft(g, marks, o.marks);
      assert SearchOf(g, [m], 1, level, o.marks) == Outcome(NotFound, o.marks, 0);
    }
  }

  lemma TwoWays(g: Graph<nat>, a: nat, b: nat, level: nat, marks: set<nat>)
    requires g.Valid() && a in g.succ && b in g.succ && g.rank[a] < level && g.rank[b] < level
    ensures var o, p := Search(g, a, marks), SearchOf(g, [a, b], 0, level, marks);
            if o.found.Found? then p.marks == o.marks && p.found == Found([0] + o.found.path)
            else
              var q := Search(g, b, o.marks);
              && p.marks == q.marks
              && p.found == if q.found.Found? then Found([1] + q.found.path) else NotFound
  {
    var o := Search(g, a, marks);
    if o.found.NotFound? {
      FewerLeft(g, marks, o.marks);
      var q := Search(g, b, o.marks);
      if q.found.NotFound? {
        FewerLeft(g, o.marks, q.marks);
        assert SearchOf(g, [a, b], 2, level, q.marks) == Outcome(NotFound, q.marks, 0);
      }
    }
  }

  // Passing an instruction puts its operation in front of the path's.
  lemma Joined(prog: Prog, t: nat, pc: nat, buf: seq<CaptureOp>, c: nat, cs: seq<nat>)
    requires Closed(prog) && t < |prog| && pc < |prog| && c < |ZeroEdges(prog, pc)|
    ensures var g := EpsGraph(prog, t);
            Passed(prog[pc], buf) + PathOps(prog, Nodes(g, ZeroEdges(prog, pc)[c], cs))
            == buf + PathOps(prog, Nodes(g, pc, [c] + cs))
  {
    var g := EpsGraph(prog, t);
    NodesCons(g, pc, c, cs);
    PathOpsCons(prog, pc, Nodes(g, ZeroEdges(prog, pc)[c], cs), buf);
  }

  lemma NodesCons(g: Graph<nat>, n: nat, c: nat, cs: seq<nat>)
    requires n in g.succ && c < |g.succ[n]|
    ensures Nodes(g, n, [c] + cs) == [n] + Nodes(g, g.succ[n][c], cs)
  {
    assert ([c] + cs)[1..] == cs;
  }

  lemma PathOpsCons(prog: Prog, pc: nat, tail: seq<nat>, buf: seq<CaptureOp>)
    requires pc < |prog| && tail != []
    ensures Passed(prog[pc], buf) + PathOps(prog, tail) == buf + PathOps(prog, [pc] + tail)
  {
    assert ([pc] + tail)[1..] == tail;
  }

  // ---- The walker ----

  const GENERATIONS := 0x1_0000_0000

  class Walker {
    const prog: Prog
    var seen: seq<nat>        // the generation that last reached each instruction
    var gen: nat              // a 32-bit counter
    var buf: seq<CaptureOp>
    var memo: map<int, Reach>

    ghost predicate Valid()
      reads this
    {
      && Closed(prog) && |seen| == |prog| && gen < GENERATIONS
      && (forall i :: 0 <= i < |seen| ==> seen[i] <= gen)
      && forall from :: from in memo ==> memo[from] == Walk(prog, from, [], Reach({}, map[]))
    }

    // The instructions this generation has reached are those recorded.
    ghost predicate Recorded(r: Reach)
      reads this
    {
      && Closed(prog) && |seen| == |prog| && (forall i :: 0 <= i < |seen| ==> seen[i] <= gen)
      && (forall i :: 0 <= i < |seen| ==> (seen[i] == gen <==> i in r.reached))
    }

    constructor (prog: Prog)
      requires Closed(prog)
      ensures Valid() && this.prog == prog
    {
      this.prog := prog;
      seen, gen, buf, memo := seq(|prog|, _ => 0), 0, [], map[];
    }

    // find: the memo's answer, walking once for each instruction asked from.
    method Find(from: int, target: nat) returns (reached: bool, ops: seq<CaptureOp>)
      requires Valid() && target < |prog|
      modifies this
      ensures Valid() && Owed(prog, from, target, reached, ops) && Answers(prog, from, target, reached, ops)
      ensures old(memo).Keys <= memo.Keys && from in memo
    {
      if from !in memo {
        var r := WalkAll(from);
        memo := memo[from := r];
      }
      reached, ops := target in memo[from].reached, memo[from].OpsTo(target);
      WalkAnswers(prog, from, target);
      OwedAnswers(prog, from, target, reached, ops);
    }

    // One complete walk in a new generation, the array cleared when the counter wraps to zero.
    method WalkAll(from: int) returns (r: Reach)
      requires Valid()
      modifies this`seen, this`gen, this`buf
      ensures Valid() && r == Walk(prog, from, [], Reach({}, map[]))
    {
      gen := (gen + 1) % GENERATIONS;
      if gen == 0 {
        seen := seq(|prog|, _ => 0);
        gen := 1;
      }
      buf := [];
      r := Visit(from, Reach({}, map[]));
    }

    // The buffer holds the operations of the path walked, and is cut back to its length on entry.
    method Visit(from: int, r0: Reach) returns (r: Reach)
      requires Recorded(r0)
      modifies this`seen, this`buf
      ensures Recorded(r) && buf == old(buf) && r == Walk(prog, from, old(buf), r0)
      decreases Unreached(prog, r0)
    {
      var entryMark := |buf|;
      var pc := from;
      r := r0;
      while 0 <= pc < |prog| && seen[pc] != gen
        invariant Recorded(r) && entryMark == |old(buf)| <= |buf| && buf[..entryMark] == old(buf)
        invariant Walk(prog, pc, buf, r) == Walk(prog, from, old(buf), r0)
        invariant Unreached(prog, r) <= Unreached(prog, r0)
        decreases Unreached(prog, r)
      {
        assert pc in Unreached(prog, r) && pc !in Unreached(prog, r.Arrive(pc, buf));
        r := r.Arrive(pc, buf);
        seen := seen[pc := gen];
        var inst := prog[pc];
        if inst.Capture? {
          buf := buf + [OpOf(inst.slot)];
          pc := inst.out;
        } else if inst.IsAlt() {
          r := Visit(inst.out, r);
          pc := inst.arg;
        } else if inst.Nop? || inst.Assert? {
          pc := inst.out;
        } else {
          buf := buf[..entryMark];
          return;
        }
      }
      buf := buf[..entryMark];
    }
  }

  lemma WalkAnswers(prog: Prog, from: int, t: nat)
    requires Closed(prog) && t < |prog|
    ensures var w := Walk(prog, from, [], Reach({}, map[])); Owed(prog, from, t, t in w.reached, w.OpsTo(t))
  {
    if 0 <= from < |prog| {
      var g, none := EpsGraph(prog, t), Reach({}, map[]);
      WalkTracks(prog, t, from, [], none);
      SearchIsBest(g, from, {}, {});
    }
  }
}
