/** Alternation chains: flattening an Alt through the Alts only it reaches, and how two such chains can meet. */
module AltChains {
  import opened BtProgram
  import opened DispatchKeeps
  import opened FirstSets

  // ---- How often an instruction is named ----

  function Uses(inst: Inst, q: nat): nat {
    match inst
    case Alt(out, arg) => (if out == q then 1 else 0) + (if arg == q then 1 else 0)
    case AltMatch(out, arg) => (if out == q then 1 else 0) + (if arg == q then 1 else 0)
    case Match => 0
    case Fail => 0
    case _ => if inst.Edges()[0] == q then 1 else 0
  }

  function UsesBelow(prog: Prog, q: nat, n: nat): nat
    requires n <= |prog|
  {
    if n == 0 then 0 else UsesBelow(prog, q, n - 1) + Uses(prog[n - 1], q)
  }

  // The entry counts as one use of the start.
  function Indegree(prog: Prog, start: nat, q: nat): nat {
    UsesBelow(prog, q, |prog|) + if q == start then 1 else 0
  }

  ghost predicate Counted(prog: Prog, start: nat, indeg: seq<nat>) {
    |indeg| == |prog| && forall q :: 0 <= q < |prog| ==> indeg[q] == Indegree(prog, start, q)
  }

  method Indegrees(prog: Prog, start: nat) returns (indeg: seq<nat>)
    requires Closed(prog) && start < |prog|
    ensures Counted(prog, start, indeg)
  {
    indeg := seq(|prog|, _ => 0);
    indeg := indeg[start := indeg[start] + 1];
    for pc := 0 to |prog|
      invariant |indeg| == |prog|
      invariant forall q :: 0 <= q < |prog| ==> indeg[q] == UsesBelow(prog, q, pc) + if q == start then 1 else 0
    {
      var inst := prog[pc];
      if inst.IsAlt() {
        assert inst.Edges()[0] == inst.out < |prog| && inst.Edges()[1] == inst.arg < |prog|;
        indeg := indeg[inst.out := indeg[inst.out] + 1];
        indeg := indeg[inst.arg := indeg[inst.arg] + 1];
      } else if !inst.Match? && !inst.Fail? {
        assert inst.Edges()[0] < |prog|;
        indeg := indeg[inst.Edges()[0] := indeg[inst.Edges()[0]] + 1];
      }
    }
  }

  lemma {:induction false} UsesAtLeast(prog: Prog, q: nat, p: nat, p': nat, n: nat)
    requires p < n <= |prog| && p' < n
    ensures UsesBelow(prog, q, n) >= Uses(prog[p], q)
    ensures p != p' ==> UsesBelow(prog, q, n) >= Uses(prog[p], q) + Uses(prog[p'], q)
  {
    if p < n - 1 && p' < n - 1 {
      UsesAtLeast(prog, q, p, p', n - 1);
    } else if p < n - 1 {
      UsesAtLeast(prog, q, p, p, n - 1);
    } else if p' < n - 1 {
      UsesAtLeast(prog, q, p', p', n - 1);
    }
  }

  // An instruction named once is named by one instruction, and is not the start.
  lemma OnlyUse(prog: Prog, start: nat, q: nat, p: nat, p': nat)
    requires Indegree(prog, start, q) == 1 && p < |prog| && p' < |prog| && q in prog[p].Edges() && q in prog[p'].Edges()
    ensures p == p' && q != start && Uses(prog[p], q) == 1
  {
    UsesAtLeast(prog, q, p, p', |prog|);
  }

  // ---- Flattening ----

  // The chain below q, as flattened for the candidate head: through Alts named once, never through head itself.
  ghost predicate Flat(prog: Prog, start: nat, head: nat, t: Tree) {
    && t.pc < |prog|
    && (t.Fork? <==> prog[t.pc].Alt? && Indegree(prog, start, t.pc) == 1 && t.pc != head)
    && (t.Fork? ==> t.left.pc == prog[t.pc].out && t.right.pc == prog[t.pc].arg
                    && Flat(prog, start, head, t.left) && Flat(prog, start, head, t.right))
  }

  ghost predicate HeadTree(prog: Prog, start: nat, t: Tree) {
    && t.Fork? && t.pc < |prog| && prog[t.pc].Alt? && t.left.pc == prog[t.pc].out && t.right.pc == prog[t.pc].arg
    && Flat(prog, start, t.pc, t.left) && Flat(prog, start, t.pc, t.right) && Unrepeated(t)
  }

  // The inner Alts in the order they are flattened.
  function ForkList(t: Tree): (qs: seq<nat>)
    ensures forall q :: q in qs <==> q in Forks(t)
    ensures |Arms(t)| == |qs| + 1
  {
    match t
    case Arm(_) => []
    case Fork(pc, l, r) => [pc] + ForkList(l) + ForkList(r)
  }

  // The Alts walked from head down to here, each naming the next.
  ghost predicate IsDescent(prog: Prog, head: nat, path: seq<nat>) {
    && path != [] && path[0] == head && (forall i :: 0 <= i < |path| ==> path[i] < |prog|)
    && (forall i, j :: 0 <= i < j < |path| ==> path[i] != path[j])
    && (forall i :: 0 <= i < |path| - 1 ==> path[i + 1] in prog[path[i]].Edges())
  }

  ghost function OffPath(prog: Prog, path: seq<nat>): set<nat> {
    set pc: nat | pc < |prog| && pc !in path
  }

  // A chain cannot come back to an Alt it has passed: that Alt would be named twice.
  lemma DescentFresh(prog: Prog, start: nat, head: nat, path: seq<nat>, q: nat)
    requires IsDescent(prog, head, path) && q in prog[path[|path| - 1]].Edges() && Indegree(prog, start, q) == 1
    requires q != head
    ensures q !in path
  {
    if q in path {
      var j :| 0 <= j < |path| && path[j] == q;
      assert path[j - 1 + 1] in prog[path[j - 1]].Edges();
      OnlyUse(prog, start, q, path[j - 1], path[|path| - 1]);
    }
  }

  lemma DescentGrows(prog: Prog, start: nat, head: nat, path: seq<nat>, q: nat)
    requires Closed(prog) && IsDescent(prog, head, path) && q in prog[path[|path| - 1]].Edges() && q < |prog|
    requires prog[q].Alt? && Indegree(prog, start, q) == 1 && q != head
    ensures IsDescent(prog, head, path + [q]) && OffPath(prog, path + [q]) < OffPath(prog, path)
    ensures var e := prog[q].Edges();
            prog[q].out in e && prog[q].arg in e && prog[q].out < |prog| && prog[q].arg < |prog|
  {
    DescentFresh(prog, start, head, path, q);
    assert q in OffPath(prog, path) && q !in OffPath(prog, path + [q]);
    assert prog[q].Edges()[0] == prog[q].out && prog[q].Edges()[1] == prog[q].arg;
  }

  ghost predicate Misses(path: seq<nat>, t: Tree) {
    forall p :: p in path ==> p !in Forks(t)
  }

  lemma FlatFork(prog: Prog, start: nat, head: nat, q: nat, l: Tree, r: Tree)
    requires q < |prog| && prog[q].Alt? && Indegree(prog, start, q) == 1 && q != head
    requires l.pc == prog[q].out && r.pc == prog[q].arg && Flat(prog, start, head, l) && Flat(prog, start, head, r)
    ensures Flat(prog, start, head, Fork(q, l, r))
  {
  }

  lemma Listed(q: nat, l: Tree, r: Tree, arms: seq<nat>, inner: seq<nat>)
    ensures arms + Arms(l) + Arms(r) == arms + Arms(Fork(q, l, r))
    ensures inner + [q] + ForkList(l) + ForkList(r) == inner + ForkList(Fork(q, l, r))
  {
  }

  lemma Planted(path: seq<nat>, q: nat, l: Tree, r: Tree)
    requires q !in path && Unrepeated(l) && Unrepeated(r) && Misses(path + [q], l) && Misses(path + [q], r)
    ensures Unrepeated(Fork(q, l, r)) && Misses(path, Fork(q, l, r))
  {
    assert q in path + [q];
    assert forall p :: p in path ==> p in path + [q];
  }

  method Flatten(prog: Prog, start: nat, indeg: seq<nat>, head: nat, q: nat, arms0: seq<nat>, inner0: seq<nat>,
                 ghost path: seq<nat>)
    returns (arms: seq<nat>, inner: seq<nat>, ghost t: Tree)
    requires Closed(prog) && Counted(prog, start, indeg)
    requires IsDescent(prog, head, path) && q in prog[path[|path| - 1]].Edges() && q < |prog|
    ensures t.pc == q && Flat(prog, start, head, t) && Unrepeated(t) && Misses(path, t)
    ensures arms == arms0 + Arms(t) && inner == inner0 + ForkList(t)
    decreases OffPath(prog, path)
  {
    arms, inner := arms0, inner0;
    if prog[q].Alt? && indeg[q] == 1 && q != head {
      DescentGrows(prog, start, head, path, q);
      ghost var here := path + [q];
      ghost var l, r;
      arms, inner, l := Flatten(prog, start, indeg, head, prog[q].out, arms, inner + [q], here);
      arms, inner, r := Flatten(prog, start, indeg, head, prog[q].arg, arms, inner, here);
      t := Fork(q, l, r);
      Planted(path, q, l, r);
      FlatFork(prog, start, head, q, l, r);
      Listed(q, l, r, arms0, inner0);
    } else {
      arms := arms + [q];
      t := Arm(q);
    }
  }

  // ---- How two chains can meet ----

  // The side on which q is nearest the root.
  ghost function Nearer(t: Tree, q: nat): (side: Tree)
    requires q in Forks(t) && q != t.pc
    ensures (side == t.left || side == t.right) && q in Forks(side)
    ensures forall other :: (other == t.left || other == t.right) && q in Forks(other) ==>
              Depth(side, q) <= Depth(other, q)
    decreases t, 0
  {
    if q !in Forks(t.right) || (q in Forks(t.left) && Depth(t.left, q) <= Depth(t.right, q)) then t.left else t.right
  }

  ghost function Depth(t: Tree, q: nat): nat
    requires q in Forks(t)
    decreases t, 1
  {
    if q == t.pc then 0 else 1 + Depth(Nearer(t, q), q)
  }

  // Below the root, an Alt's only user is an Alt further up.
  lemma {:induction false} UserAbove(prog: Prog, t: Tree, q: nat) returns (p: nat)
    requires ChainOf(prog, t) && q in Forks(t) && q != t.pc
    ensures p in Forks(t) && p < |prog| && q in prog[p].Edges() && Depth(t, p) < Depth(t, q)
  {
    assert prog[t.pc].Edges()[0] == t.left.pc && prog[t.pc].Edges()[1] == t.right.pc;
    var side := Nearer(t, q);
    if q == side.pc {
      p := t.pc;
    } else {
      p := UserAbove(prog, side, q);
      assert p == t.pc || Depth(t, p) <= 1 + Depth(side, p);
    }
  }

  ghost predicate NamedOnce(prog: Prog, start: nat, t: Tree) {
    ChainOf(prog, t) && forall q :: q in Forks(t) && q != t.pc ==> Indegree(prog, start, q) == 1
  }

  // Chains that share an Alt are nested: the root of one is an Alt of the other.
  lemma {:induction false} SharedMeansNested(prog: Prog, start: nat, a: Tree, b: Tree, q: nat)
    requires NamedOnce(prog, start, a) && NamedOnce(prog, start, b) && q in Forks(a) && q in Forks(b)
    ensures a.pc in Forks(b) || b.pc in Forks(a)
    decreases Depth(a, q)
  {
    if q != a.pc && q != b.pc {
      var p := UserAbove(prog, a, q);
      var p' := UserAbove(prog, b, q);
      OnlyUse(prog, start, q, p, p');
      SharedMeansNested(prog, start, a, b, p);
    }
  }

  lemma {:induction false} FlatIsChain(prog: Prog, start: nat, head: nat, t: Tree)
    requires Flat(prog, start, head, t)
    ensures ChainOf(prog, t) && forall q :: q in Forks(t) ==>
              Indegree(prog, start, q) == 1 && q != head && q < |prog| && prog[q].Alt?
  {
    if t.Fork? {
      FlatIsChain(prog, start, head, t.left);
      FlatIsChain(prog, start, head, t.right);
    }
  }

  lemma HeadIsChain(prog: Prog, start: nat, t: Tree)
    requires HeadTree(prog, start, t)
    ensures NamedOnce(prog, start, t) && t.pc !in Inner(t)
    ensures forall q :: q in Inner(t) ==> Indegree(prog, start, q) == 1 && q < |prog| && prog[q].Alt?
  {
    FlatIsChain(prog, start, t.pc, t.left);
    FlatIsChain(prog, start, t.pc, t.right);
  }

  // Two flattenings from one instruction agree when neither holds the other's head.
  lemma {:induction false} SameFlat(prog: Prog, start: nat, h: nat, a: Tree, h': nat, b: Tree)
    requires Flat(prog, start, h, a) && Flat(prog, start, h', b) && a.pc == b.pc && h' !in Forks(a) && h !in Forks(b)
    ensures a == b
  {
    if a.Fork? {
      SameFlat(prog, start, h, a.left, h', b.left);
      SameFlat(prog, start, h, a.right, h', b.right);
    }
  }

  // The part of a flattening below one of its Alts, with fewer arms unless it is the whole.
  lemma {:induction false} PartAt(prog: Prog, start: nat, head: nat, t: Tree, q: nat) returns (u: Tree)
    requires Flat(prog, start, head, t) && Unrepeated(t) && q in Forks(t)
    ensures u.Fork? && u.pc == q && Flat(prog, start, head, u) && Unrepeated(u) && |Arms(u)| <= |Arms(t)|
  {
    if q == t.pc {
      u := t;
    } else {
      u := PartAt(prog, start, head, if q in Forks(t.left) then t.left else t.right, q);
    }
  }

  // A head inside another's chain, and not the other way round, has the narrower chain.
  lemma InnerIsNarrower(prog: Prog, start: nat, t: Tree, t': Tree)
    requires HeadTree(prog, start, t) && HeadTree(prog, start, t') && t'.pc in Inner(t) && t.pc !in Inner(t')
    ensures |Arms(t')| < |Arms(t)|
  {
    var side := if t'.pc in Forks(t.left) then t.left else t.right;
    var u := PartAt(prog, start, t.pc, side, t'.pc);
    SameFlat(prog, start, t.pc, u.left, t'.pc, t'.left);
    SameFlat(prog, start, t.pc, u.right, t'.pc, t'.right);
    assert |Arms(t.left)| == |ForkList(t.left)| + 1 && |Arms(t.right)| == |ForkList(t.right)| + 1;
  }

  // A chain has one inner Alt fewer than forks, each counted once.
  lemma {:induction false} ForksOnce(prog: Prog, start: nat, t: Tree)
    requires NamedOnce(prog, start, t) && Unrepeated(t)
    ensures |Forks(t)| == |ForkList(t)|
  {
    if t.Fork? {
      assert prog[t.pc].Edges()[0] == t.left.pc && prog[t.pc].Edges()[1] == t.right.pc;
      SidesApart(prog, start, t);
      ForksOnce(prog, start, t.left);
      ForksOnce(prog, start, t.right);
      ForkCount(t);
    }
  }

  lemma ForkCount(t: Tree)
    requires t.Fork? && Forks(t.left) !! Forks(t.right) && t.pc !in Inner(t)
    ensures |Forks(t)| == 1 + |Forks(t.left)| + |Forks(t.right)|
  {
    assert Forks(t) == {t.pc} + (Forks(t.left) + Forks(t.right));
  }

  lemma SidesApart(prog: Prog, start: nat, t: Tree)
    requires NamedOnce(prog, start, t) && Unrepeated(t) && t.Fork?
    ensures Forks(t.left) !! Forks(t.right)
  {
    if q :| q in Forks(t.left) && q in Forks(t.right) {
      assert NamedOnce(prog, start, t.left) && NamedOnce(prog, start, t.right);
      SharedMeansNested(prog, start, t.left, t.right, q);
      if t.left.pc in Forks(t.right) {
        NotAcross(prog, start, t, t.left, t.right);
      } else {
        NotAcross(prog, start, t, t.right, t.left);
      }
    }
  }

  lemma NotAcross(prog: Prog, start: nat, t: Tree, a: Tree, b: Tree)
    requires NamedOnce(prog, start, t) && Unrepeated(t) && t.Fork?
    requires (a == t.left && b == t.right) || (a == t.right && b == t.left)
    ensures a.pc !in Forks(b)
  {
    if a.pc in Forks(b) {
      assert prog[t.pc].Edges() == [t.left.pc, t.right.pc];
      assert a.pc in Inner(t) && a.pc != t.pc;
      if a.pc == b.pc {
        OnlyUse(prog, start, a.pc, t.pc, t.pc);
      } else {
        var p := UserAbove(prog, b, a.pc);
        OnlyUse(prog, start, a.pc, t.pc, p);
      }
    }
  }
}
