/**
 buildBTDispatchPlan: the chains worth dispatching, the cases of each, and which become heads.

 Every alternation is flattened and considered; the candidates are taken widest first.
 */
module DispatchBuild {
  import opened FiniteSets
  import opened BtProgram
  import opened DispatchKeeps
  import opened FirstSets
  import opened AltChains
  import opened WorkBudget

  // ---- One candidate's cases ----

  // The arms, by index, that byte c can start.
  function Startable(firsts: seq<First>, c: nat, n: nat): (list: seq<nat>)
    requires n <= |firsts|
    ensures |list| <= n && forall i :: 0 <= i < |list| ==> list[i] < n
  {
    if n == 0 then []
    else Startable(firsts, c, n - 1) + if Starts(firsts[n - 1], c) then [n - 1] else []
  }

  method ListArms(firsts: seq<First>, c: nat) returns (list: seq<nat>)
    ensures list == Startable(firsts, c, |firsts|)
  {
    list := [];
    for i := 0 to |firsts|
      invariant list == Startable(firsts, c, i)
    {
      if Starts(firsts[i], c) {
        list := list + [i];
      }
    }
  }

  ghost predicate CasesOk(firsts: seq<First>, caseOf: seq<nat>, cases: seq<seq<nat>>) {
    && (forall c :: 0 <= c < |caseOf| ==> caseOf[c] < |cases| && cases[caseOf[c]] == Startable(firsts, c, |firsts|))
    && (forall k :: 0 <= k < |cases| ==> |cases[k]| <= |firsts| && forall i :: 0 <= i < |cases[k]| ==>
         cases[k][i] < |firsts|)
  }

  // Every case is some byte's, and no two are alike.
  ghost predicate CasesTight(caseOf: seq<nat>, cases: seq<seq<nat>>) {
    && (forall k :: 0 <= k < |cases| ==> k in caseOf)
    && forall j, k :: 0 <= j < |cases| && 0 <= k < |cases| && cases[j] == cases[k] ==> j == k
  }

  // Bytes that start the same arms share a case.
  method Cases(firsts: seq<First>) returns (caseOf: seq<nat>, cases: seq<seq<nat>>)
    ensures |caseOf| == 257 && CasesOk(firsts, caseOf, cases) && CasesTight(caseOf, cases)
  {
    caseOf, cases := [], [];
    var index: map<seq<nat>, nat> := map[];
    for c := 0 to 257
      invariant |caseOf| == c && CasesOk(firsts, caseOf, cases)
      invariant forall key :: key in index ==> index[key] < |cases| && cases[index[key]] == key
      invariant forall k :: 0 <= k < |cases| ==> k in caseOf && cases[k] in index && index[cases[k]] == k
    {
      var list := ListArms(firsts, c);
      if list !in index {
        index := index[list := |cases|];
        cases := cases + [list];
      }
      caseOf := caseOf + [index[list]];
    }
  }

  function Select(arms: seq<nat>, list: seq<nat>): (picked: seq<nat>) {
    if list == [] then []
    else Select(arms, list[..|list| - 1]) + if list[|list| - 1] < |arms| then [arms[list[|list| - 1]]] else []
  }

  lemma {:induction false} SelectAt(arms: seq<nat>, list: seq<nat>)
    requires forall i :: 0 <= i < |list| ==> list[i] < |arms|
    ensures |Select(arms, list)| == |list| && forall i :: 0 <= i < |list| ==> Select(arms, list)[i] == arms[list[i]]
  {
    if list != [] {
      SelectAt(arms, list[..|list| - 1]);
    }
  }

  lemma SelectOneMore(arms: seq<nat>, list: seq<nat>, i: nat)
    requires i < |arms|
    ensures Select(arms, list + [i]) == Select(arms, list) + [arms[i]] && list + [] == list
  {
    assert (list + [i])[..|list|] == list;
  }

  // Listing the arms a byte can start is filtering them by their first sets.
  lemma {:induction false} CaseIsFilter(arms: seq<nat>, firsts: seq<First>, sets: seq<set<nat>>, c: nat, n: nat)
    requires n <= |arms| == |firsts|
    requires forall i :: 0 <= i < |arms| ==> arms[i] < |sets| && (c in sets[arms[i]] <==> Starts(firsts[i], c))
    ensures KeptArms(arms[..n], sets, c) == Select(arms, Startable(firsts, c, n))
  {
    if n > 0 {
      CaseIsFilter(arms, firsts, sets, c, n - 1);
      KeptArmsConcat(arms[..n - 1], [arms[n - 1]], sets, c);
      assert arms[..n] == arms[..n - 1] + [arms[n - 1]];
      SelectOneMore(arms, Startable(firsts, c, n - 1), n - 1);
      assert [arms[n - 1]][1..] == [];
    }
  }

  function KeptArms(arms: seq<nat>, sets: seq<set<nat>>, c: nat): seq<nat> {
    if arms == [] then []
    else (if arms[0] < |sets| && c in sets[arms[0]] then [arms[0]] else []) + KeptArms(arms[1..], sets, c)
  }

  lemma {:induction false} KeptArmsConcat(xs: seq<nat>, ys: seq<nat>, sets: seq<set<nat>>, c: nat)
    ensures KeptArms(xs + ys, sets, c) == KeptArms(xs, sets, c) + KeptArms(ys, sets, c)
  {
    if xs == [] {
      assert xs + ys == ys;
    } else {
      assert (xs + ys)[1..] == xs[1..] + ys;
      KeptArmsConcat(xs[1..], ys, sets, c);
    }
  }

  lemma {:induction false} KeptIsFilter(t: Tree, sets: seq<set<nat>>, c: nat)
    ensures Kept(t, c, sets) == KeptArms(Arms(t), sets, c)
  {
    if t.Fork? {
      KeptIsFilter(t.left, sets, c);
      KeptIsFilter(t.right, sets, c);
      KeptArmsConcat(Arms(t.left), Arms(t.right), sets, c);
    }
  }

  // ---- Candidates ----

  datatype Candidate = Candidate(pc: nat, inner: seq<nat>, d: Dispatch)

  // A candidate flattens its chain and answers each byte from the first sets known so far.
  ghost predicate CandidateOk(prog: Prog, start: nat, memo: seq<Memo>, c: Candidate, t: Tree) {
    && t.pc == c.pc && c.pc < |prog| && HeadTree(prog, start, t) && c.d.arms == Arms(t) && ValidDispatch(c.d, |prog|)
    && c.inner == ForkList(t.left) + ForkList(t.right) && |memo| == |prog|
    && (forall i :: 0 <= i < |c.d.arms| ==> memo[c.d.arms[i]].Known?)
    && (forall b :: 0 <= b <= END_OF_INPUT ==> ArmsAt(c.d, c.d.cases[c.d.caseOf[b]]) == Kept(t, b, Table(memo)))
  }

  ghost predicate Grown(memo: seq<Memo>, memo': seq<Memo>) {
    |memo| == |memo'| && forall pc :: 0 <= pc < |memo| && memo[pc].Known? ==> memo'[pc] == memo[pc]
  }

  // Learning more first sets leaves a candidate as it is.
  lemma CandidateStays(prog: Prog, start: nat, memo: seq<Memo>, memo': seq<Memo>, c: Candidate, t: Tree)
    requires CandidateOk(prog, start, memo, c, t) && Grown(memo, memo')
    ensures CandidateOk(prog, start, memo', c, t)
  {
    forall b | 0 <= b <= END_OF_INPUT ensures Kept(t, b, Table(memo)) == Kept(t, b, Table(memo')) {
      KeptSame(t, b, memo, memo');
    }
  }

  lemma {:induction false} KeptSame(t: Tree, b: nat, memo: seq<Memo>, memo': seq<Memo>)
    requires Grown(memo, memo') && b <= END_OF_INPUT
    requires forall i :: 0 <= i < |Arms(t)| ==> Arms(t)[i] < |memo| && memo[Arms(t)[i]].Known?
    ensures Kept(t, b, Table(memo)) == Kept(t, b, Table(memo'))
  {
    if t.Fork? {
      ArmsSplit(t);
      KeptSame(t.left, b, memo, memo');
      KeptSame(t.right, b, memo, memo');
    } else {
      assert Arms(t)[0] == t.pc;
    }
  }

  method FirstsOf(fs: Firsts, arms: seq<nat>) returns (firsts: seq<First>)
    requires fs.Valid() && fs.Idle() && forall i :: 0 <= i < |arms| ==> arms[i] < |fs.prog|
    modifies fs
    ensures fs.Valid() && fs.Idle() && Grown(old(fs.memo), fs.memo)
    ensures ArmsKnown(fs.memo, arms, firsts)
  {
    firsts := [];
    for i := 0 to |arms|
      invariant fs.Valid() && fs.Idle() && Grown(old(fs.memo), fs.memo)
      invariant |firsts| == i && forall j :: 0 <= j < i ==> fs.memo[arms[j]] == Known(firsts[j])
    {
      var f := fs.Of(arms[i], []);
      firsts := firsts + [f];
    }
  }

  // A chain is dispatched when some byte lets an arm be skipped, a pair only when no byte starts both arms.
  predicate WorthIt(d: Dispatch, pairs: bool) {
    && !(|d.cases| == 1 && |d.cases[0]| == |d.arms|)
    && (|d.arms| == 2 ==> pairs && forall k :: 0 <= k < |d.cases| ==> |d.cases[k]| != 2)
  }

  // What dispatching a chain gains: a byte that skips an arm, or for a pair no byte that starts both.
  ghost predicate Gains(t: Tree, sets: seq<set<nat>>, pairs: bool) {
    if |Arms(t)| == 2 then pairs && forall b :: 0 <= b <= END_OF_INPUT ==> |Kept(t, b, sets)| < 2
    else exists b :: 0 <= b <= END_OF_INPUT && |Kept(t, b, sets)| < |Arms(t)|
  }

  lemma {:induction false} AllStartable(firsts: seq<First>, c: nat, n: nat)
    requires n <= |firsts| && |Startable(firsts, c, n)| == n
    ensures forall i :: 0 <= i < n ==> Startable(firsts, c, n)[i] == i
  {
    if n > 0 {
      AllStartable(firsts, c, n - 1);
    }
  }

  lemma FullCases(firsts: seq<First>, caseOf: seq<nat>, cases: seq<seq<nat>>)
    requires |caseOf| == 257 && CasesOk(firsts, caseOf, cases) && CasesTight(caseOf, cases)
    requires forall b :: 0 <= b <= END_OF_INPUT ==> |cases[caseOf[b]]| == |firsts|
    ensures |cases| == 1 && |cases[0]| == |firsts|
  {
    assert caseOf[0] < |cases|;
    OnlyCase(firsts, caseOf, cases, |cases| - 1);
  }

  lemma OnlyCase(firsts: seq<First>, caseOf: seq<nat>, cases: seq<seq<nat>>, k: nat)
    requires |caseOf| == 257 && CasesOk(firsts, caseOf, cases) && CasesTight(caseOf, cases) && k < |cases|
    requires forall b :: 0 <= b <= END_OF_INPUT ==> |cases[caseOf[b]]| == |firsts|
    ensures k == 0 && |cases[0]| == |firsts|
  {
    assert k in caseOf && 0 in caseOf;
    var b :| 0 <= b < |caseOf| && caseOf[b] == k;
    var a :| 0 <= a < |caseOf| && caseOf[a] == 0;
    AllStartable(firsts, a, |firsts|);
    AllStartable(firsts, b, |firsts|);
    assert |cases[caseOf[a]]| == |cases[caseOf[b]]| == |firsts|;
    assert cases[k] == cases[0];
  }

  // The test on the cases tells exactly whether dispatching gains anything.
  lemma WorthIsGain(firsts: seq<First>, d: Dispatch, t: Tree, sets: seq<set<nat>>, pairs: bool)
    requires |d.arms| == |firsts| >= 2 && d.arms == Arms(t) && |d.caseOf| == 257
    requires CasesOk(firsts, d.caseOf, d.cases) && CasesTight(d.caseOf, d.cases)
    requires forall b :: 0 <= b <= END_OF_INPUT ==> |d.cases[d.caseOf[b]]| == |Kept(t, b, sets)|
    ensures WorthIt(d, pairs) <==> Gains(t, sets, pairs)
  {
    if |d.arms| == 2 {
      PairWorth(d, t, sets, pairs);
    } else if !Gains(t, sets, pairs) {
      FullCases(firsts, d.caseOf, d.cases);
    } else {
      var b :| 0 <= b <= END_OF_INPUT && |Kept(t, b, sets)| < |Arms(t)|;
      assert |d.cases[d.caseOf[b]]| < |d.arms|;
    }
  }

  lemma PairWorth(d: Dispatch, t: Tree, sets: seq<set<nat>>, pairs: bool)
    requires |d.arms| == 2 == |Arms(t)| && |d.caseOf| == 257 && CasesTight(d.caseOf, d.cases)
    requires forall c :: 0 <= c < |d.caseOf| ==> d.caseOf[c] < |d.cases|
    requires forall k :: 0 <= k < |d.cases| ==> |d.cases[k]| <= 2
    requires forall b :: 0 <= b <= END_OF_INPUT ==> |d.cases[d.caseOf[b]]| == |Kept(t, b, sets)|
    ensures WorthIt(d, pairs) <==> Gains(t, sets, pairs)
  {
    if Gains(t, sets, pairs) {
      forall k | 0 <= k < |d.cases| ensures |d.cases[k]| != 2 {
        assert k in d.caseOf;
        var b :| 0 <= b < |d.caseOf| && d.caseOf[b] == k;
        assert |Kept(t, b, sets)| < 2;
      }
    } else if WorthIt(d, pairs) {
      forall b | 0 <= b <= END_OF_INPUT ensures |Kept(t, b, sets)| < 2 {
        assert |d.cases[d.caseOf[b]]| != 2;
      }
    }
  }

  lemma FlatArms(prog: Prog, start: nat, head: nat, t: Tree)
    requires Flat(prog, start, head, t)
    ensures forall i :: 0 <= i < |Arms(t)| ==>
              Arms(t)[i] < |prog| && !(prog[Arms(t)[i]].Alt? && Indegree(prog, start, Arms(t)[i]) == 1 &&
              Arms(t)[i] != head)
  {
    if t.Fork? {
      FlatArms(prog, start, head, t.left);
      FlatArms(prog, start, head, t.right);
    }
  }

  ghost predicate ArmsKnown(memo: seq<Memo>, arms: seq<nat>, firsts: seq<First>) {
    |arms| == |firsts| && forall i :: 0 <= i < |arms| ==> arms[i] < |memo| && memo[arms[i]] == Known(firsts[i])
  }

  lemma CasesValid(firsts: seq<First>, d: Dispatch, n: nat)
    requires |d.arms| == |firsts| >= 2 && (forall i :: 0 <= i < |d.arms| ==> d.arms[i] < n)
    requires |d.caseOf| == 257 && CasesOk(firsts, d.caseOf, d.cases)
    ensures ValidDispatch(d, n)
  {
  }

  lemma CaseKept(memo: seq<Memo>, t: Tree, firsts: seq<First>, b: nat)
    requires ArmsKnown(memo, Arms(t), firsts) && b <= END_OF_INPUT
    ensures Select(Arms(t), Startable(firsts, b, |firsts|)) == Kept(t, b, Table(memo))
  {
    KnownKept(memo, Arms(t), firsts, b);
    KeptIsFilter(t, Table(memo), b);
  }

  lemma KnownKept(memo: seq<Memo>, arms: seq<nat>, firsts: seq<First>, b: nat)
    requires ArmsKnown(memo, arms, firsts) && b <= END_OF_INPUT
    ensures Select(arms, Startable(firsts, b, |firsts|)) == KeptArms(arms, Table(memo), b)
  {
    CaseIsFilter(arms, firsts, Table(memo), b, |arms|);
    assert arms[..|arms|] == arms;
  }

  lemma DispatchCases(memo: seq<Memo>, t: Tree, firsts: seq<First>, d: Dispatch, b: nat)
    requires d.arms == Arms(t) && ArmsKnown(memo, d.arms, firsts) && b <= END_OF_INPUT
    requires |d.caseOf| == 257 && CasesOk(firsts, d.caseOf, d.cases)
    ensures d.caseOf[b] < |d.cases| &&
            (forall i :: 0 <= i < |d.cases[d.caseOf[b]]| ==> d.cases[d.caseOf[b]][i] < |d.arms|)
    ensures ArmsAt(d, d.cases[d.caseOf[b]]) == Kept(t, b, Table(memo))
  {
    var list := d.cases[d.caseOf[b]];
    CaseKept(memo, t, firsts, b);
    SelectAt(d.arms, list);
    assert ArmsAt(d, list) == Select(d.arms, list);
  }

  lemma MakeCandidate(prog: Prog, start: nat, memo: seq<Memo>, c: Candidate, t: Tree, firsts: seq<First>)
    requires t.pc == c.pc && c.pc < |prog| && HeadTree(prog, start, t) && c.d.arms == Arms(t)
    requires c.inner == ForkList(t.left) + ForkList(t.right) && |memo| == |prog| && ArmsKnown(memo, c.d.arms, firsts)
    requires |c.d.caseOf| == 257 && CasesOk(firsts, c.d.caseOf, c.d.cases)
    ensures CandidateOk(prog, start, memo, c, t)
  {
    assert |Arms(t)| == |ForkList(t)| + 1 && |ForkList(t)| == 1 + |c.inner|;
    CasesValid(firsts, c.d, |prog|);
    forall b | 0 <= b <= END_OF_INPUT ensures ArmsAt(c.d, c.d.cases[c.d.caseOf[b]]) == Kept(t, b, Table(memo)) {
      DispatchCases(memo, t, firsts, c.d, b);
    }
  }

  lemma RootFork(prog: Prog, start: nat, pc: nat, l: Tree, r: Tree)
    requires pc < |prog| && prog[pc].Alt? && l.pc == prog[pc].out && r.pc == prog[pc].arg
    requires Flat(prog, start, pc, l) && Flat(prog, start, pc, r) && Unrepeated(l) && Unrepeated(r)
    requires Misses([pc], l) && Misses([pc], r)
    ensures HeadTree(prog, start, Fork(pc, l, r))
  {
    assert pc in [pc];
  }

  method FlattenHead(prog: Prog, start: nat, indeg: seq<nat>, pc: nat)
    returns (arms: seq<nat>, inner: seq<nat>, ghost t: Tree)
    requires Closed(prog) && Counted(prog, start, indeg) && pc < |prog| && prog[pc].Alt?
    ensures t.pc == pc && HeadTree(prog, start, t) && arms == Arms(t) && inner == ForkList(t.left) + ForkList(t.right)
  {
    ghost var e := prog[pc].Edges();
    assert e[0] == prog[pc].out && e[1] == prog[pc].arg;
    ghost var l, r;
    arms, inner, l := Flatten(prog, start, indeg, pc, prog[pc].out, [], [], [pc]);
    arms, inner, r := Flatten(prog, start, indeg, pc, prog[pc].arg, arms, inner, [pc]);
    t := Fork(pc, l, r);
    RootFork(prog, start, pc, l, r);
    assert [] + Arms(l) == Arms(l) && [] + ForkList(l) == ForkList(l);
  }

  lemma HeadArmsIn(prog: Prog, start: nat, t: Tree)
    requires HeadTree(prog, start, t)
    ensures forall i :: 0 <= i < |Arms(t)| ==>
              Arms(t)[i] < |prog| && !(prog[Arms(t)[i]].Alt? && Indegree(prog, start, Arms(t)[i]) == 1 &&
              Arms(t)[i] != t.pc)
  {
    FlatArms(prog, start, t.pc, t.left);
    FlatArms(prog, start, t.pc, t.right);
  }

  lemma CaseLengths(prog: Prog, start: nat, memo: seq<Memo>, c: Candidate, t: Tree)
    requires CandidateOk(prog, start, memo, c, t)
    ensures forall b :: 0 <= b <= END_OF_INPUT ==> |c.d.cases[c.d.caseOf[b]]| == |Kept(t, b, Table(memo))|
  {
    forall b | 0 <= b <= END_OF_INPUT ensures |c.d.cases[c.d.caseOf[b]]| == |Kept(t, b, Table(memo))| {
      assert |ArmsAt(c.d, c.d.cases[c.d.caseOf[b]])| == |c.d.cases[c.d.caseOf[b]]|;
    }
  }

  // t is the chain an Alt heads.
  ghost predicate ChainAt(prog: Prog, start: nat, pc: nat, t: Tree) {
    t.pc == pc && HeadTree(prog, start, t)
  }

  // The first sets of a chain's arms are known.
  ghost predicate ArmsLearnt(t: Tree, memo: seq<Memo>) {
    forall i :: 0 <= i < |Arms(t)| ==> Arms(t)[i] < |memo| && memo[Arms(t)[i]].Known?
  }

  ghost predicate ArmsSharp(prog: Prog, t: Tree, first: seq<set<nat>>) {
    forall i :: 0 <= i < |Arms(t)| ==> Sharp(prog, first, Arms(t)[i])
  }

  lemma LearntAreSharp(prog: Prog, t: Tree, memo: seq<Memo>)
    requires ArmsLearnt(t, memo)
    requires forall pc :: 0 <= pc < |memo| && memo[pc].Known? ==> Precise(prog, pc, memo[pc].first)
    ensures ArmsSharp(prog, t, Table(memo))
  {
    forall i | 0 <= i < |Arms(t)| ensures Sharp(prog, Table(memo), Arms(t)[i]) {
      TableSharp(prog, memo, Arms(t)[i]);
    }
  }

  // One Alt as a candidate head; none when nothing is gained.
  method Consider(prog: Prog, start: nat, indeg: seq<nat>, fs: Firsts, pairs: bool, pc: nat)
    returns (worth: bool, c: Candidate, ghost t: Tree)
    requires Closed(prog) && Counted(prog, start, indeg) && fs.Valid() && fs.Idle() && fs.prog == prog
    requires pc < |prog| && prog[pc].Alt?
    modifies fs
    ensures fs.Valid() && fs.Idle() && Grown(old(fs.memo), fs.memo)
    ensures worth ==> CandidateOk(prog, start, fs.memo, c, t) && c.pc == pc
    ensures ChainAt(prog, start, pc, t) && (worth <==> Gains(t, Table(fs.memo), pairs))
    ensures worth || (|Arms(t)| == 2 && !pairs) || ArmsLearnt(t, fs.memo)
  {
    var arms, inner;
    arms, inner, t := FlattenHead(prog, start, indeg, pc);
    c := Candidate(pc, inner, Dispatch(arms, [], []));
    worth := false;
    if |arms| == 2 && !pairs {
      return;
    }
    HeadArmsIn(prog, start, t);
    var firsts := FirstsOf(fs, arms);
    var caseOf, cases := Cases(firsts);
    c := Candidate(pc, inner, Dispatch(arms, caseOf, cases));
    MakeCandidate(prog, start, fs.memo, c, t, firsts);
    CaseLengths(prog, start, fs.memo, c, t);
    WorthIsGain(firsts, c.d, t, Table(fs.memo), pairs);
    worth := WorthIt(c.d, pairs);
  }

  // The chain of one Alt has been looked at: it is a candidate exactly when dispatching it gains something.
  ghost predicate Considered(prog: Prog, start: nat, memo: seq<Memo>, cands: seq<Candidate>, all: map<nat, Tree>,
                             pairs: bool, pc: nat)
  {
    && pc in all && ChainAt(prog, start, pc, all[pc]) && ((|Arms(all[pc])| == 2 && !pairs) || ArmsLearnt(all[pc], memo))
    && (HasCandidate(cands, pc) <==> Gains(all[pc], Table(memo), pairs))
  }

  ghost predicate HasCandidate(cands: seq<Candidate>, pc: nat) {
    exists c :: c in cands && c.pc == pc
  }

  lemma StillConsidered(prog: Prog, start: nat, memo: seq<Memo>, memo': seq<Memo>, cands: seq<Candidate>,
                        cands': seq<Candidate>, all: map<nat, Tree>, all': map<nat, Tree>, pairs: bool, pc: nat)
    requires Considered(prog, start, memo, cands, all, pairs, pc) && Grown(memo, memo')
    requires pc in all' && all'[pc] == all[pc] && (HasCandidate(cands', pc) <==> HasCandidate(cands, pc))
    ensures Considered(prog, start, memo', cands', all', pairs, pc)
  {
    var t := all[pc];
    if |Arms(t)| != 2 || pairs {
      forall b | 0 <= b <= END_OF_INPUT ensures Kept(t, b, Table(memo)) == Kept(t, b, Table(memo')) {
        KeptSame(t, b, memo, memo');
      }
      SameGains(t, Table(memo), Table(memo'), pairs);
    }
  }

  lemma SameGains(t: Tree, sets: seq<set<nat>>, sets': seq<set<nat>>, pairs: bool)
    requires forall b :: 0 <= b <= END_OF_INPUT ==> Kept(t, b, sets) == Kept(t, b, sets')
    ensures Gains(t, sets, pairs) <==> Gains(t, sets', pairs)
  {
    if b :| 0 <= b <= END_OF_INPUT && |Kept(t, b, sets)| < |Arms(t)| {
      assert |Kept(t, b, sets')| < |Arms(t)|;
    }
    if b :| 0 <= b <= END_OF_INPUT && |Kept(t, b, sets')| < |Arms(t)| {
      assert |Kept(t, b, sets)| < |Arms(t)|;
    }
  }

  ghost predicate Through(prog: Prog, start: nat, memo: seq<Memo>, cands: seq<Candidate>, all: map<nat, Tree>,
                          pairs: bool,
                          n: nat)
  {
    forall q :: 0 <= q < n && q < |prog| && prog[q].Alt? ==> Considered(prog, start, memo, cands, all, pairs, q)
  }

  // Every candidate is one of the first n instructions, with the chain recorded for it.
  ghost predicate Recorded(prog: Prog, cands: seq<Candidate>, trees: map<nat, Tree>, all: map<nat, Tree>, n: nat) {
    forall c :: c in cands ==>
      c.pc < n && c.pc < |prog| && prog[c.pc].Alt? && c.pc in all && c.pc in trees && trees[c.pc] == all[c.pc]
  }

  // Every Alt of the program, in order.
  method Candidates(prog: Prog, start: nat, indeg: seq<nat>, fs: Firsts, pairs: bool)
    returns (cands: seq<Candidate>, ghost trees: map<nat, Tree>, ghost all: map<nat, Tree>)
    requires Closed(prog) && Counted(prog, start, indeg) && fs.Valid() && fs.Idle() && fs.prog == prog
    modifies fs
    ensures fs.Valid() && AllOk(prog, start, fs.memo, cands, trees)
    ensures Through(prog, start, fs.memo, cands, all, pairs, |prog|) && Recorded(prog, cands, trees, all, |prog|)
  {
    cands, trees, all := [], map[], map[];
    for pc := 0 to |prog|
      invariant fs.Valid() && fs.Idle() && AllOk(prog, start, fs.memo, cands, trees)
      invariant Through(prog, start, fs.memo, cands, all, pairs, pc) && Recorded(prog, cands, trees, all, pc)
    {
      if prog[pc].Alt? {
        cands, trees, all := OneCandidate(prog, start, indeg, fs, pairs, pc, cands, trees, all);
      }
    }
  }

  method OneCandidate(prog: Prog, start: nat, indeg: seq<nat>, fs: Firsts, pairs: bool, pc: nat, cands0: seq<Candidate>,
                      ghost trees0: map<nat, Tree>, ghost all0: map<nat, Tree>)
    returns (cands: seq<Candidate>, ghost trees: map<nat, Tree>, ghost all: map<nat, Tree>)
    requires Closed(prog) && Counted(prog, start, indeg) && fs.Valid() && fs.Idle() && fs.prog == prog
    requires pc < |prog| && prog[pc].Alt? && AllOk(prog, start, fs.memo, cands0, trees0)
    requires Through(prog, start, fs.memo, cands0, all0, pairs, pc) && Recorded(prog, cands0, trees0, all0, pc)
    modifies fs
    ensures fs.Valid() && fs.Idle() && AllOk(prog, start, fs.memo, cands, trees)
    ensures Through(prog, start, fs.memo, cands, all, pairs, pc + 1) && Recorded(prog, cands, trees, all, pc + 1)
  {
    ghost var before := fs.memo;
    var worth, c, t := Consider(prog, start, indeg, fs, pairs, pc);
    AllStay(prog, start, before, fs.memo, cands0, trees0);
    cands, trees, all := cands0, trees0, all0[pc := t];
    if worth {
      cands, trees := cands + [c], trees[pc := t];
    }
    AllConsidered(prog, start, before, fs.memo, cands0, cands, all0, all, pairs, pc, c);
    ThisCandidate(cands0, cands, c, pc, worth);
    assert Considered(prog, start, fs.memo, cands, all, pairs, pc);
  }

  lemma AllConsidered(prog: Prog, start: nat, memo: seq<Memo>, memo': seq<Memo>, was: seq<Candidate>,
                      cands: seq<Candidate>, had: map<nat, Tree>, all: map<nat, Tree>, pairs: bool, pc: nat,
                      c: Candidate)
    requires pc <= |prog| && Grown(memo, memo') && (cands == was || (cands == was + [c] && c.pc == pc))
    requires forall q :: q in had && q < pc ==> q in all && all[q] == had[q]
    requires Through(prog, start, memo, was, had, pairs, pc)
    ensures Through(prog, start, memo', cands, all, pairs, pc)
  {
    forall q | 0 <= q < pc && prog[q].Alt? ensures Considered(prog, start, memo', cands, all, pairs, q) {
      OneMoreCandidate(was, cands, c, q);
      StillConsidered(prog, start, memo, memo', was, cands, had, all, pairs, q);
    }
  }

  lemma OneMoreCandidate(was: seq<Candidate>, cands: seq<Candidate>, c: Candidate, q: nat)
    requires cands == was || (cands == was + [c] && c.pc != q)
    ensures HasCandidate(cands, q) <==> HasCandidate(was, q)
  {
    if cands != was && HasCandidate(was, q) {
      var d :| d in was && d.pc == q;
      assert d in cands;
    }
  }

  lemma ThisCandidate(was: seq<Candidate>, cands: seq<Candidate>, c: Candidate, pc: nat, worth: bool)
    requires (forall d :: d in was ==> d.pc < pc) && cands == (if worth then was + [c] else was) &&
             (worth ==> c.pc == pc)
    ensures HasCandidate(cands, pc) <==> worth
  {
    if worth {
      assert c in cands;
    }
  }

  ghost predicate AllOk(prog: Prog, start: nat, memo: seq<Memo>, cands: seq<Candidate>, trees: map<nat, Tree>) {
    forall c :: c in cands ==> c.pc in trees && CandidateOk(prog, start, memo, c, trees[c.pc])
  }

  lemma AllStay(prog: Prog, start: nat, memo: seq<Memo>, memo': seq<Memo>, cands: seq<Candidate>, trees: map<nat, Tree>)
    requires AllOk(prog, start, memo, cands, trees) && Grown(memo, memo')
    ensures AllOk(prog, start, memo', cands, trees)
  {
    forall c | c in cands ensures CandidateOk(prog, start, memo', c, trees[c.pc]) {
      CandidateStays(prog, start, memo, memo', c, trees[c.pc]);
    }
  }

  // ---- Widest first ----

  predicate WidestFirst(cands: seq<Candidate>) {
    forall i, j :: 0 <= i < j < |cands| ==> |cands[i].d.arms| >= |cands[j].d.arms|
  }

  lemma InsertedWide(sorted: seq<Candidate>, c: Candidate, k: nat)
    requires WidestFirst(sorted) && k <= |sorted| && forall i :: k <= i < |sorted| ==> |sorted[i].d.arms| < |c.d.arms|
    requires k > 0 ==> |sorted[k - 1].d.arms| >= |c.d.arms|
    ensures WidestFirst(sorted[..k] + [c] + sorted[k..])
  {
    var out := sorted[..k] + [c] + sorted[k..];
    forall i, j | 0 <= i < j < |out| ensures |out[i].d.arms| >= |out[j].d.arms| {
      assert out[i] == if i < k then sorted[i] else if i == k then c else sorted[i - 1];
      assert out[j] == if j < k then sorted[j] else if j == k then c else sorted[j - 1];
    }
  }

  // A stable insertion: before the first strictly narrower candidate.
  lemma InsertedSame(sorted: seq<Candidate>, c: Candidate, k: nat)
    requires k <= |sorted|
    ensures multiset(sorted[..k] + [c] + sorted[k..]) == multiset(sorted) + multiset{c}
  {
    assert sorted == sorted[..k] + sorted[k..];
  }

  // The candidates of one width, in order.
  ghost function OfWidth(cands: seq<Candidate>, width: nat): (r: seq<Candidate>)
    ensures forall c :: c in r <==> c in cands && |c.d.arms| == width
  {
    if cands == [] then []
    else
      assert forall c :: c in cands <==> c in cands[..|cands| - 1] || c == cands[|cands| - 1];
      OfWidth(cands[..|cands| - 1], width) + LastOf(cands[|cands| - 1], width)
  }

  ghost function LastOf(c: Candidate, width: nat): seq<Candidate> {
    if |c.d.arms| == width then [c] else []
  }

  lemma {:induction false} WidthsConcat(a: seq<Candidate>, b: seq<Candidate>, width: nat)
    ensures OfWidth(a + b, width) == OfWidth(a, width) + OfWidth(b, width)
  {
    if b == [] {
      assert a + b == a;
    } else {
      var init := b[..|b| - 1];
      assert (a + b)[..|a + b| - 1] == a + init;
      WidthsConcat(a, init, width);
    }
  }

  lemma {:induction false} NoneOfWidth(cands: seq<Candidate>, width: nat)
    requires forall i :: 0 <= i < |cands| ==> |cands[i].d.arms| < width
    ensures OfWidth(cands, width) == []
  {
    if cands != [] {
      NoneOfWidth(cands[..|cands| - 1], width);
    }
  }

  lemma OneMoreOfWidth(cands: seq<Candidate>, c: Candidate, width: nat)
    ensures OfWidth(cands + [c], width) == OfWidth(cands, width) + LastOf(c, width)
  {
    assert (cands + [c])[..|cands|] == cands;
  }

  // Inserted behind every candidate as wide, c comes last of its width.
  lemma InsertedStable(sorted: seq<Candidate>, c: Candidate, k: nat, width: nat)
    requires k <= |sorted| && forall i :: k <= i < |sorted| ==> |sorted[i].d.arms| < |c.d.arms|
    ensures OfWidth(sorted[..k] + [c] + sorted[k..], width) == OfWidth(sorted, width) + LastOf(c, width)
  {
    var low, high := sorted[..k], sorted[k..];
    if |c.d.arms| == width {
      NoneOfWidth(high, width);
    }
    StableSplit(low, c, high, width);
    assert sorted == low + high;
  }

  lemma StableSplit(low: seq<Candidate>, c: Candidate, high: seq<Candidate>, width: nat)
    requires |c.d.arms| == width ==> OfWidth(high, width) == []
    ensures OfWidth(low + [c] + high, width) == OfWidth(low + high, width) + LastOf(c, width)
  {
    WidthsConcat(low + [c], high, width);
    OneMoreOfWidth(low, c, width);
    WidthsConcat(low, high, width);
    LastOrNone(OfWidth(low, width), LastOf(c, width), OfWidth(high, width));
  }

  lemma LastOrNone(a: seq<Candidate>, last: seq<Candidate>, b: seq<Candidate>)
    requires last == [] || b == []
    ensures a + last + b == a + b + last
  {
    if last == [] {
      assert a + last == a;
    } else {
      assert a + b == a;
    }
  }

  ghost predicate SameOrder(cands: seq<Candidate>, sorted: seq<Candidate>) {
    forall width: nat :: OfWidth(sorted, width) == OfWidth(cands, width)
  }

  method Insert(sorted: seq<Candidate>, c: Candidate) returns (out: seq<Candidate>)
    requires WidestFirst(sorted)
    ensures WidestFirst(out) && multiset(out) == multiset(sorted) + multiset{c}
    ensures forall width: nat :: OfWidth(out, width) == OfWidth(sorted, width) + LastOf(c, width)
  {
    var k := |sorted|;
    while k > 0 && |sorted[k - 1].d.arms| < |c.d.arms|
      invariant 0 <= k <= |sorted|
      invariant forall i :: k <= i < |sorted| ==> |sorted[i].d.arms| < |c.d.arms|
    {
      k := k - 1;
    }
    InsertedWide(sorted, c, k);
    InsertedSame(sorted, c, k);
    forall width: nat ensures OfWidth(sorted[..k] + [c] + sorted[k..], width)
                              == OfWidth(sorted, width) + LastOf(c, width) {
      InsertedStable(sorted, c, k, width);
    }
    out := sorted[..k] + [c] + sorted[k..];
  }

  // A stable sort: candidates as wide as each other stay in program order.
  method SortWidest(cands: seq<Candidate>) returns (sorted: seq<Candidate>)
    ensures WidestFirst(sorted) && multiset(sorted) == multiset(cands) && SameOrder(cands, sorted)
  {
    sorted := [];
    for i := 0 to |cands|
      invariant WidestFirst(sorted) && multiset(sorted) == multiset(cands[..i]) && SameOrder(cands[..i], sorted)
    {
      sorted := Insert(sorted, cands[i]);
      assert cands[..i + 1] == cands[..i] + [cands[i]] && cands[..i + 1][..i] == cands[..i];
    }
    assert cands[..|cands|] == cands;
  }

  // ---- Acceptance ----

  // Each dead Alt belongs to the one accepted head whose chain it is in.
  ghost predicate Owned(heads: set<nat>, trees: map<nat, Tree>, owner: map<nat, nat>) {
    heads !! owner.Keys && OwnsDown(heads, trees, owner) && OwnsUp(heads, trees, owner)
  }

  // d is a candidate's dispatch at h.
  ghost predicate HeadFrom(prog: Prog, start: nat, memo: seq<Memo>, h: nat, d: Dispatch, t: Tree) {
    t.Fork? && CandidateOk(prog, start, memo, Candidate(h, ForkList(t.left) + ForkList(t.right), d), t)
  }

  ghost predicate Accepted(prog: Prog, start: nat, memo: seq<Memo>, plan: Plan, trees: map<nat, Tree>,
                           owner: map<nat, nat>) {
    && plan.dead == owner.Keys && Owned(plan.heads.Keys, trees, owner)
    && forall h :: h in plan.heads ==> HeadFrom(prog, start, memo, h, plan.heads[h], trees[h])
  }

  lemma HeadsApart(prog: Prog, start: nat, t: Tree, t': Tree)
    requires HeadTree(prog, start, t) && HeadTree(prog, start, t') && t.pc != t'.pc && t'.pc !in Inner(t)
    requires |Arms(t)| >= |Arms(t')|
    ensures t.pc !in Inner(t') && Inner(t) !! Inner(t')
  {
    HeadIsChain(prog, start, t);
    HeadIsChain(prog, start, t');
    if t.pc in Inner(t') {
      InnerIsNarrower(prog, start, t', t);
    }
    if q :| q in Inner(t) && q in Inner(t') {
      SharedMeansNested(prog, start, t, t', q);
    }
  }

  function Owns(t: Tree, h: nat): map<nat, nat> {
    map q | q in Inner(t) :: h
  }

  ghost predicate OwnsDown(heads: set<nat>, trees: map<nat, Tree>, owner: map<nat, nat>) {
    heads <= trees.Keys && forall h, q :: h in heads && q in Inner(trees[h]) ==> q in owner && owner[q] == h
  }

  ghost predicate OwnsUp(heads: set<nat>, trees: map<nat, Tree>, owner: map<nat, nat>) {
    heads <= trees.Keys && forall q :: q in owner ==> owner[q] in heads && q in Inner(trees[owner[q]])
  }

  lemma OwnsDownMore(heads: set<nat>, trees: map<nat, Tree>, owner: map<nat, nat>, h: nat)
    requires OwnsDown(heads, trees, owner) && h in trees
    requires forall g :: g in heads && g != h ==> Inner(trees[g]) !! Inner(trees[h])
    ensures OwnsDown(heads + {h}, trees, owner + Owns(trees[h], h))
  {
    forall g, q | g in heads + {h} && q in Inner(trees[g])
      ensures q in owner + Owns(trees[h], h) && (owner + Owns(trees[h], h))[q] == g
    {
      assert g != h ==> q !in Inner(trees[h]);
    }
  }

  lemma OwnsUpMore(heads: set<nat>, trees: map<nat, Tree>, owner: map<nat, nat>, h: nat)
    requires OwnsUp(heads, trees, owner) && h in trees
    ensures OwnsUp(heads + {h}, trees, owner + Owns(trees[h], h))
  {
  }

  lemma OwnedMore(heads: set<nat>, trees: map<nat, Tree>, owner: map<nat, nat>, h: nat)
    requires Owned(heads, trees, owner) && h in trees && h !in owner && h !in Inner(trees[h])
    requires forall g :: g in heads && g != h ==> g !in Inner(trees[h]) && Inner(trees[g]) !! Inner(trees[h])
    ensures Owned(heads + {h}, trees, owner + Owns(trees[h], h))
  {
    OwnsDownMore(heads, trees, owner, h);
    OwnsUpMore(heads, trees, owner, h);
  }

  lemma NotOwned(heads: set<nat>, trees: map<nat, Tree>, owner: map<nat, nat>, h: nat, q: nat)
    requires Owned(heads, trees, owner) && h in heads && q !in owner
    ensures q !in Inner(trees[h])
  {
  }

  // Accepting the next widest live candidate takes nothing from the heads before it.
  lemma AcceptKeeps(prog: Prog, start: nat, memo: seq<Memo>, plan: Plan, trees: map<nat, Tree>, owner: map<nat, nat>,
                    c: Candidate)
    requires Accepted(prog, start, memo, plan, trees, owner) && c.pc in trees
    requires CandidateOk(prog, start, memo, c, trees[c.pc])
    requires c.pc !in plan.dead && forall h :: h in plan.heads ==> |plan.heads[h].arms| >= |c.d.arms|
    ensures Accepted(prog, start, memo, Plan(plan.heads[c.pc := c.d], plan.dead + Elements(c.inner)), trees,
            owner + Owns(trees[c.pc], c.pc))
  {
    var t := trees[c.pc];
    HeadIsChain(prog, start, t);
    forall h | h in plan.heads.Keys && h != c.pc ensures h !in Inner(t) && Inner(trees[h]) !! Inner(t) {
      assert HeadFrom(prog, start, memo, h, plan.heads[h], trees[h]);
      NotOwned(plan.heads.Keys, trees, owner, h, c.pc);
      CandidatesApart(prog, start, memo, plan.heads[h], trees[h], c, t, h);
    }
    OwnedMore(plan.heads.Keys, trees, owner, c.pc);
    InnerElements(t);
    AcceptedBy(prog, start, memo, plan, trees, owner, c, plan.dead + Elements(c.inner));
  }

  lemma CandidatesApart(prog: Prog, start: nat, memo: seq<Memo>, d: Dispatch, t: Tree, c: Candidate, t': Tree, h: nat)
    requires HeadFrom(prog, start, memo, h, d, t) && CandidateOk(prog, start, memo, c, t')
    requires h != c.pc && c.pc !in Inner(t) && |d.arms| >= |c.d.arms|
    ensures h !in Inner(t') && Inner(t) !! Inner(t')
  {
    HeadsApart(prog, start, t, t');
  }

  lemma HeadsMore(prog: Prog, start: nat, memo: seq<Memo>, heads: map<nat, Dispatch>, trees: map<nat, Tree>,
                  c: Candidate)
    requires c.pc in trees && CandidateOk(prog, start, memo, c, trees[c.pc]) && heads.Keys <= trees.Keys
    requires forall h :: h in heads ==> HeadFrom(prog, start, memo, h, heads[h], trees[h])
    ensures heads[c.pc := c.d].Keys == heads.Keys + {c.pc}
    ensures forall h :: h in heads[c.pc := c.d] ==>
              h in trees && HeadFrom(prog, start, memo, h, heads[c.pc := c.d][h], trees[h])
  {
    assert HeadFrom(prog, start, memo, c.pc, c.d, trees[c.pc]);
  }

  lemma AcceptedBy(prog: Prog, start: nat, memo: seq<Memo>, plan: Plan, trees: map<nat, Tree>, owner: map<nat, nat>,
                   c: Candidate, dead: set<nat>)
    requires c.pc in trees && CandidateOk(prog, start, memo, c, trees[c.pc]) && plan.heads.Keys <= trees.Keys
    requires forall h :: h in plan.heads ==> HeadFrom(prog, start, memo, h, plan.heads[h], trees[h])
    requires Owned(plan.heads.Keys + {c.pc}, trees, owner + Owns(trees[c.pc], c.pc))
    requires dead == (owner + Owns(trees[c.pc], c.pc)).Keys
    ensures Accepted(prog, start, memo, Plan(plan.heads[c.pc := c.d], dead), trees, owner + Owns(trees[c.pc], c.pc))
  {
    HeadsMore(prog, start, memo, plan.heads, trees, c);
  }

  lemma InnerElements(t: Tree)
    requires t.Fork?
    ensures Elements(ForkList(t.left) + ForkList(t.right)) == Inner(t)
  {
  }

  // Every head is a candidate, and each of the first n candidates is a head or in another's chain.
  ghost predicate Settled(cands: seq<Candidate>, plan: Plan, n: nat) {
    && (forall h :: h in plan.heads ==> HasCandidate(cands, h))
    && forall j :: 0 <= j < n && j < |cands| ==> cands[j].pc in plan.heads || cands[j].pc in plan.dead
  }

  lemma OneSettled(cands: seq<Candidate>, plan: Plan, plan': Plan, n: nat)
    requires Settled(cands, plan, n) && n < |cands| && plan.dead <= plan'.dead
    requires if cands[n].pc in plan.dead then plan' == plan else plan'.heads == plan.heads[cands[n].pc := cands[n].d]
    ensures Settled(cands, plan', n + 1)
  {
    assert cands[n] in cands;
  }

  // No head accepted so far is narrower than the candidates still to come.
  ghost predicate WiderThan(cands: seq<Candidate>, plan: Plan, n: nat) {
    forall h, j :: h in plan.heads && n <= j < |cands| ==> |plan.heads[h].arms| >= |cands[j].d.arms|
  }

  // One candidate: dropped when an accepted chain holds it, else a head, its inner Alts taken out of the program.
  method AcceptOne(prog: Prog, start: nat, cands: seq<Candidate>, i: nat, plan0: Plan, ghost memo: seq<Memo>,
                   ghost trees: map<nat, Tree>, ghost owner0: map<nat, nat>)
    returns (plan: Plan, ghost owner: map<nat, nat>)
    requires i < |cands| && WidestFirst(cands) && AllOk(prog, start, memo, cands, trees)
    requires Accepted(prog, start, memo, plan0, trees, owner0) && WiderThan(cands, plan0, i)
    ensures Accepted(prog, start, memo, plan, trees, owner) && WiderThan(cands, plan, i + 1)
    ensures plan0.dead <= plan.dead
    ensures if cands[i].pc in plan0.dead then plan == plan0 else plan.heads == plan0.heads[cands[i].pc := cands[i].d]
  {
    var c := cands[i];
    assert c in cands;
    plan, owner := plan0, owner0;
    if c.pc !in plan.dead {
      AcceptKeeps(prog, start, memo, plan, trees, owner, c);
      owner := owner + Owns(trees[c.pc], c.pc);
      plan := Plan(plan.heads[c.pc := c.d], plan.dead + Elements(c.inner));
    }
  }

  method Accept(prog: Prog, start: nat, cands: seq<Candidate>, ghost memo: seq<Memo>, ghost trees: map<nat, Tree>)
    returns (plan: Plan, ghost owner: map<nat, nat>)
    requires WidestFirst(cands) && AllOk(prog, start, memo, cands, trees)
    ensures Accepted(prog, start, memo, plan, trees, owner)
    ensures Settled(cands, plan, |cands|)
  {
    plan, owner := NO_PLAN, map[];
    for i := 0 to |cands|
      invariant Accepted(prog, start, memo, plan, trees, owner) && WiderThan(cands, plan, i)
      invariant Settled(cands, plan, i)
    {
      ghost var before := plan;
      plan, owner := AcceptOne(prog, start, cands, i, plan, memo, trees, owner);
      OneSettled(cands, before, plan, i);
    }
  }

  // ---- What the finished plan is ----

  function Kin(trees: map<nat, Tree>, heads: set<nat>): map<nat, Tree> {
    map h | h in heads && h in trees :: trees[h]
  }

  // A finished plan, its cases aside: every head's chain, and who owns each dead Alt.
  ghost predicate Chained(prog: Prog, start: nat, plan: Plan, trees: map<nat, Tree>, owner: map<nat, nat>) {
    && plan.dead == owner.Keys && Owned(plan.heads.Keys, trees, owner)
    && forall h :: h in plan.heads ==> HeadShape(prog, start, h, plan.heads[h], trees[h])
  }

  ghost predicate HeadShape(prog: Prog, start: nat, h: nat, d: Dispatch, t: Tree) {
    h < |prog| && HeadTree(prog, start, t) && t.pc == h && d.arms == Arms(t) && ValidDispatch(d, |prog|)
  }

  lemma AcceptedIsChained(prog: Prog, start: nat, plan: Plan, trees: map<nat, Tree>, owner: map<nat, nat>,
                          memo: seq<Memo>)
    requires Accepted(prog, start, memo, plan, trees, owner)
    ensures Chained(prog, start, plan, trees, owner)
  {
    forall h | h in plan.heads ensures HeadShape(prog, start, h, plan.heads[h], trees[h]) {
      assert HeadFrom(prog, start, memo, h, plan.heads[h], trees[h]);
    }
  }

  lemma ForksOf(t: Tree, q: nat)
    requires q in DispatchKeeps.Forks(t)
    ensures q == t.pc || q in Inner(t)
  {
  }

  // Whatever names an inner Alt is in its chain.
  lemma ChainUser(prog: Prog, start: nat, t: Tree, pc: nat, q: nat)
    requires HeadTree(prog, start, t) && q in Inner(t) && pc < |prog| && q in prog[pc].Edges()
    ensures pc == t.pc || pc in Inner(t)
  {
    HeadIsChain(prog, start, t);
    var p := UserAbove(prog, t, q);
    OnlyUse(prog, start, q, p, pc);
    ForksOf(t, pc);
  }

  lemma InnerAlt(prog: Prog, start: nat, t: Tree, q: nat)
    requires HeadTree(prog, start, t) && q in Inner(t)
    ensures q != start && q < |prog| && prog[q].Alt? && Indegree(prog, start, q) == 1
  {
    HeadIsChain(prog, start, t);
    var p := UserAbove(prog, t, q);
    OnlyUse(prog, start, q, p, p);
  }

  lemma OwnersUser(prog: Prog, start: nat, plan: Plan, trees: map<nat, Tree>, owner: map<nat, nat>, pc: nat, q: nat)
    requires Owned(plan.heads.Keys, trees, owner) && q in owner && pc < |prog| && q in prog[pc].Edges()
    requires HeadShape(prog, start, owner[q], plan.heads[owner[q]], trees[owner[q]])
    ensures pc in plan.heads || pc in owner
  {
    ChainUser(prog, start, trees[owner[q]], pc, q);
    OwnsInner(plan.heads.Keys, trees, owner, owner[q], pc);
  }

  lemma OwnsInner(heads: set<nat>, trees: map<nat, Tree>, owner: map<nat, nat>, h: nat, pc: nat)
    requires OwnsDown(heads, trees, owner) && h in heads && (pc == h || pc in Inner(trees[h]))
    ensures pc in heads || pc in owner
  {
  }

  // No live instruction but a head leads into a dispatched chain, and neither does the entry.
  lemma DeadIsUnreached(prog: Prog, start: nat, plan: Plan, trees: map<nat, Tree>, owner: map<nat, nat>, q: nat)
    requires Chained(prog, start, plan, trees, owner) && q in plan.dead
    ensures q != start && q < |prog| && prog[q].Alt? && Indegree(prog, start, q) == 1
  {
    assert HeadShape(prog, start, owner[q], plan.heads[owner[q]], trees[owner[q]]);
    InnerAlt(prog, start, trees[owner[q]], q);
  }

  lemma ArmsAlive(prog: Prog, start: nat, plan: Plan, trees: map<nat, Tree>, owner: map<nat, nat>, h: nat, i: nat)
    requires Chained(prog, start, plan, trees, owner) && h in plan.heads && i < |plan.heads[h].arms|
    ensures plan.heads[h].arms[i] !in plan.dead
  {
    assert HeadShape(prog, start, h, plan.heads[h], trees[h]);
    HeadArmsIn(prog, start, trees[h]);
    var a := plan.heads[h].arms[i];
    assert a == Arms(trees[h])[i];
    if a in plan.dead {
      DeadIsUnreached(prog, start, plan, trees, owner, a);
    }
  }

  lemma PlanIsValid(prog: Prog, start: nat, plan: Plan, trees: map<nat, Tree>, owner: map<nat, nat>)
    requires Chained(prog, start, plan, trees, owner)
    ensures ValidPlan(plan, prog)
  {
    forall h | h in plan.heads ensures h < |prog| && prog[h].Alt? && h !in plan.dead &&
      ValidDispatch(plan.heads[h], |prog|) {
      assert HeadShape(prog, start, h, plan.heads[h], trees[h]);
    }
    forall h, i | h in plan.heads && 0 <= i < |plan.heads[h].arms| ensures plan.heads[h].arms[i] !in plan.dead {
      ArmsAlive(prog, start, plan, trees, owner, h, i);
    }
    forall pc, k | 0 <= pc < |prog| && pc !in plan.dead && pc !in plan.heads && 0 <= k < |prog[pc].Edges()|
      ensures prog[pc].Edges()[k] !in plan.dead
    {
      if prog[pc].Edges()[k] in plan.dead {
        var h := owner[prog[pc].Edges()[k]];
        assert HeadShape(prog, start, h, plan.heads[h], trees[h]);
        OwnersUser(prog, start, plan, trees, owner, pc, prog[pc].Edges()[k]);
      }
    }
  }

  lemma CandidateHeadOk(prog: Prog, start: nat, memo: seq<Memo>, plan: Plan, p: Proof, h: nat)
    requires h in plan.heads && h in p.trees && ValidDispatch(plan.heads[h], |prog|) && p.first == Table(memo)
    requires HeadFrom(prog, start, memo, h, plan.heads[h], p.trees[h])
    requires forall q :: q in Inner(p.trees[h]) ==> q in plan.dead && q in p.owner && p.owner[q] == h
    ensures HeadOk(prog, plan, p, h)
  {
    HeadIsChain(prog, start, p.trees[h]);
  }

  lemma HeadIsOk(prog: Prog, start: nat, plan: Plan, trees: map<nat, Tree>, owner: map<nat, nat>, memo: seq<Memo>,
                 p: Proof, h: nat)
    requires p == Proof(Kin(trees, plan.heads.Keys), owner, Table(memo)) && h in plan.heads
    requires Owned(plan.heads.Keys, trees, owner)
    requires plan.dead == owner.Keys && HeadFrom(prog, start, memo, h, plan.heads[h], trees[h])
    ensures h in p.trees && ValidDispatch(plan.heads[h], |prog|) && HeadOk(prog, plan, p, h)
  {
    CandidateHeadOk(prog, start, memo, plan, p, h);
  }

  lemma PlanIsOk(prog: Prog, start: nat, plan: Plan, trees: map<nat, Tree>, owner: map<nat, nat>, memo: seq<Memo>,
                 p: Proof)
    requires Accepted(prog, start, memo, plan, trees, owner) && FirstOk(prog, Table(memo))
    requires p == Proof(Kin(trees, plan.heads.Keys), owner, Table(memo))
    ensures PlanOk(prog, plan, p)
  {
    AcceptedIsChained(prog, start, plan, trees, owner, memo);
    PlanIsValid(prog, start, plan, trees, owner);
    ReadOff(prog, start, plan, trees, owner, memo, p);
  }

  lemma ReadOff(prog: Prog, start: nat, plan: Plan, trees: map<nat, Tree>, owner: map<nat, nat>, memo: seq<Memo>,
                p: Proof)
    requires Accepted(prog, start, memo, plan, trees, owner) && FirstOk(prog, Table(memo))
    requires p == Proof(Kin(trees, plan.heads.Keys), owner, Table(memo))
    requires ValidPlan(plan, prog) && Chained(prog, start, plan, trees, owner)
    ensures PlanOk(prog, plan, p)
  {
    forall h | h in plan.heads ensures h in p.trees && HeadOk(prog, plan, p, h) {
      HeadIsOk(prog, start, plan, trees, owner, memo, p, h);
    }
    forall q | q in plan.dead ensures q < |prog| && prog[q].Alt? {
      DeadIsUnreached(prog, start, plan, trees, owner, q);
    }
  }

  // ---- Dispatching pushes no more frames than it has Alts ----

  // The Alts whose frames a visit of pc can push.
  function Charged(plan: Plan, trees: map<nat, Tree>, prog: Prog, pc: nat): set<nat>
    requires pc < |prog|
  {
    if pc in plan.dead then {}
    else if pc in plan.heads then (if pc in trees then {pc} + Inner(trees[pc]) else {pc})
    else if prog[pc].IsAlt() then {pc} else {}
  }

  function ChargedBelow(plan: Plan, trees: map<nat, Tree>, prog: Prog, n: nat): set<nat>
    requires n <= |prog|
  {
    if n == 0 then {} else ChargedBelow(plan, trees, prog, n - 1) + Charged(plan, trees, prog, n - 1)
  }

  lemma {:induction false} ChargedFrom(plan: Plan, trees: map<nat, Tree>, owner: map<nat, nat>, prog: Prog, n: nat,
                                       q: nat)
    requires n <= |prog| && Owned(plan.heads.Keys, trees, owner) && plan.dead == owner.Keys
    requires q in ChargedBelow(plan, trees, prog, n)
    ensures if q in plan.dead then owner[q] < n else q < n
  {
    if q in ChargedBelow(plan, trees, prog, n - 1) {
      ChargedFrom(plan, trees, owner, prog, n - 1, q);
    }
  }

  lemma ChargedBy(plan: Plan, trees: map<nat, Tree>, owner: map<nat, nat>, prog: Prog, pc: nat, q: nat)
    requires pc < |prog| && Owned(plan.heads.Keys, trees, owner) && plan.dead == owner.Keys
    requires q in Charged(plan, trees, prog, pc)
    ensures if q in plan.dead then owner[q] == pc else q == pc
  {
  }

  lemma ChargedApart(prog: Prog, plan: Plan, trees: map<nat, Tree>, owner: map<nat, nat>, n: nat)
    requires n < |prog| && Owned(plan.heads.Keys, trees, owner) && plan.dead == owner.Keys
    ensures ChargedBelow(plan, trees, prog, n) !! Charged(plan, trees, prog, n)
  {
    forall q | q in ChargedBelow(plan, trees, prog, n) ensures q !in Charged(plan, trees, prog, n) {
      ChargedFrom(plan, trees, owner, prog, n, q);
      if q in Charged(plan, trees, prog, n) {
        ChargedBy(plan, trees, owner, prog, n, q);
      }
    }
  }

  lemma ChainWeight(prog: Prog, start: nat, t: Tree)
    requires HeadTree(prog, start, t)
    ensures |Arms(t)| - 1 == |{t.pc} + Inner(t)|
  {
    HeadIsChain(prog, start, t);
    ForksOnce(prog, start, t);
    assert DispatchKeeps.Forks(t) == {t.pc} + Inner(t);
    assert |Arms(t)| == |ForkList(t)| + 1;
  }

  lemma WeightIsCharged(prog: Prog, start: nat, plan: Plan, trees: map<nat, Tree>, owner: map<nat, nat>, pc: nat)
    requires Chained(prog, start, plan, trees, owner) && pc < |prog|
    ensures Weight(prog, plan, pc) <= |Charged(plan, trees, prog, pc)|
  {
    if pc in plan.heads {
      assert HeadShape(prog, start, pc, plan.heads[pc], trees[pc]);
      ChainWeight(prog, start, trees[pc]);
    }
  }

  ghost predicate Fits(prog: Prog, plan: Plan, trees: map<nat, Tree>, pc: nat)
    requires pc < |prog|
  {
    && Weight(prog, plan, pc) <= |Charged(plan, trees, prog, pc)|
    && ChargedBelow(plan, trees, prog, pc) !! Charged(plan, trees, prog, pc)
  }

  lemma {:induction false} WeightsFit(prog: Prog, plan: Plan, trees: map<nat, Tree>, n: nat)
    requires n <= |prog| && forall pc :: 0 <= pc < |prog| ==> Fits(prog, plan, trees, pc)
    ensures TotalWeight(prog, plan, n) <= |ChargedBelow(plan, trees, prog, n)|
  {
    if n > 0 {
      WeightsFit(prog, plan, trees, n - 1);
      assert Fits(prog, plan, trees, n - 1);
      WeightsStep(prog, plan, trees, n);
    }
  }

  lemma WeightsStep(prog: Prog, plan: Plan, trees: map<nat, Tree>, n: nat)
    requires 0 < n <= |prog| && TotalWeight(prog, plan, n - 1) <= |ChargedBelow(plan, trees, prog, n - 1)|
    requires Weight(prog, plan, n - 1) <= |Charged(plan, trees, prog, n - 1)|
    requires ChargedBelow(plan, trees, prog, n - 1) !! Charged(plan, trees, prog, n - 1)
    ensures TotalWeight(prog, plan, n) <= |ChargedBelow(plan, trees, prog, n)|
  {
    Union(ChargedBelow(plan, trees, prog, n - 1), Charged(plan, trees, prog, n - 1));
  }

  lemma Union<T>(a: set<T>, b: set<T>)
    requires a !! b
    ensures |a + b| == |a| + |b|
  {
  }

  lemma {:induction false} SmallSet(s: set<nat>, n: nat)
    requires forall q :: q in s ==> q < n
    ensures |s| <= n
  {
    if n > 0 {
      SmallSet(s - {n - 1}, n - 1);
      assert s <= (s - {n - 1}) + {n - 1};
    } else {
      assert s == {};
    }
  }

  lemma WeightAtMostProgram(prog: Prog, start: nat, plan: Plan, trees: map<nat, Tree>, owner: map<nat, nat>)
    requires Chained(prog, start, plan, trees, owner)
    ensures TotalWeight(prog, plan, |prog|) <= |prog|
  {
    forall pc | 0 <= pc < |prog| ensures Fits(prog, plan, trees, pc) {
      WeightIsCharged(prog, start, plan, trees, owner, pc);
      ChargedApart(prog, plan, trees, owner, pc);
    }
    WeightsFit(prog, plan, trees, |prog|);
    var all := ChargedBelow(plan, trees, prog, |prog|);
    forall q | q in all ensures q < |prog| {
      ChargedFrom(plan, trees, owner, prog, |prog|, q);
      if q in plan.dead {
        DeadIsUnreached(prog, start, plan, trees, owner, q);
      }
    }
    SmallSet(all, |prog|);
  }

  // ---- The builder ----

  lemma IsSettled(cands: seq<Candidate>, plan: Plan, pc: nat)
    requires Settled(cands, plan, |cands|)
    ensures pc in plan.heads ==> HasCandidate(cands, pc)
    ensures HasCandidate(cands, pc) ==> pc in plan.heads || pc in plan.dead
  {
    if HasCandidate(cands, pc) {
      var c :| c in cands && c.pc == pc;
      var j :| 0 <= j < |cands| && cands[j] == c;
    }
  }

  lemma SortedHas(cands: seq<Candidate>, sorted: seq<Candidate>, pc: nat)
    requires multiset(sorted) == multiset(cands)
    ensures HasCandidate(sorted, pc) <==> HasCandidate(cands, pc)
  {
    if HasCandidate(cands, pc) {
      var c :| c in cands && c.pc == pc;
      assert c in multiset(cands) && c in sorted;
    }
    if HasCandidate(sorted, pc) {
      var c :| c in sorted && c.pc == pc;
      assert c in multiset(sorted) && c in cands;
    }
  }

  // all is each Alt's chain. A chain is dispatched exactly when that gains something and no wider head has taken its
  // Alt.
  method BuildPlan(prog: Prog, start: nat, pairs: bool)
    returns (plan: Plan, ghost p: Proof, ghost all: map<nat, Tree>)
    requires Closed(prog) && start < |prog|
    ensures PlanOk(prog, plan, p) && start !in plan.dead
    ensures TotalWeight(prog, plan, |prog|) <= |prog|
    ensures forall pc :: 0 <= pc < |prog| && prog[pc].Alt? ==>
              && pc in all && ChainAt(prog, start, pc, all[pc])
              && (pc in plan.heads <==> pc !in plan.dead && Gains(all[pc], p.first, pairs))
              && ((|Arms(all[pc])| == 2 && !pairs) || ArmsSharp(prog, all[pc], p.first))
  {
    var indeg := Indegrees(prog, start);
    var fs := new Firsts(prog);
    var cands;
    ghost var trees;
    cands, trees, all := Candidates(prog, start, indeg, fs, pairs);
    ghost var memo := fs.memo;
    var sorted := SortWidest(cands);
    forall c | c in sorted ensures c in cands {
      assert c in multiset(sorted);
    }
    ghost var owner;
    plan, owner := Accept(prog, start, sorted, memo, trees);
    TableOk(prog, memo);
    p := Proof(Kin(trees, plan.heads.Keys), owner, Table(memo));
    PlanIsOk(prog, start, plan, trees, owner, memo, p);
    AcceptedIsChained(prog, start, plan, trees, owner, memo);
    WeightAtMostProgram(prog, start, plan, trees, owner);
    if start in plan.dead {
      DeadIsUnreached(prog, start, plan, trees, owner, start);
    }
    forall pc | 0 <= pc < |prog| && prog[pc].Alt?
      ensures pc in all && ChainAt(prog, start, pc, all[pc])
      ensures pc in plan.heads <==> pc !in plan.dead && Gains(all[pc], p.first, pairs)
      ensures (|Arms(all[pc])| == 2 && !pairs) || ArmsSharp(prog, all[pc], p.first)
    {
      assert Considered(prog, start, memo, cands, all, pairs, pc);
      if |Arms(all[pc])| != 2 || pairs {
        LearntAreSharp(prog, all[pc], memo);
      }
      SortedHas(cands, sorted, pc);
      IsSettled(sorted, plan, pc);
    }
  }
}
