/** newTDFA's canonical register numbers, and the operations that move a transition's registers into them: what makes
    two thread lists one state, and why every tag survives the move. */
module TransitionOps {
  import opened FiniteSets
  import opened TagOps
  import opened ParallelCopy
  import opened RegisterMinimize

  // A tag no path has set, and one the transition sets here.
  const UNSET := -1
  const HERE := -2

  datatype Thread = Thread(pc: nat, regMap: seq<int>)

  predicate Wide(threads: seq<Thread>, numTags: nat) {
    forall i :: 0 <= i < |threads| ==> |threads[i].regMap| == numTags
  }

  // What getOrAddState is given: unset, set here, or a register below nextReg.
  ghost predicate Raw(threads: seq<Thread>, numTags: nat, nextReg: nat) {
    Wide(threads, numTags) &&
    forall i, j :: 0 <= i < |threads| && 0 <= j < numTags ==> HERE <= threads[i].regMap[j] < nextReg
  }

  // ---- Numbers in order of first appearance ----

  function Numbering(vals: seq<int>): (m: map<int, nat>)
    ensures forall v :: v in m <==> v in vals && v >= 0
  {
    if vals == [] then map[]
    else
      var init, v := vals[..|vals| - 1], vals[|vals| - 1];
      assert vals == init + [v];
      var m := Numbering(init);
      if v < 0 || v in m then m else m[v := |m|]
  }

  // No two registers get one number.
  ghost predicate OneToOne(rename: map<int, nat>) {
    && (forall v :: v in rename ==> v >= 0 && rename[v] < |rename|)
    && forall v, w :: v in rename && w in rename && rename[v] == rename[w] ==> v == w
  }

  lemma OneMoreApart(m: map<int, nat>, v: int)
    requires OneToOne(m) && v >= 0 && v !in m
    ensures OneToOne(m[v := |m|])
  {
    assert m[v := |m|].Keys == m.Keys + {v};
  }

  lemma {:induction false} NumbersApart(vals: seq<int>)
    ensures OneToOne(Numbering(vals))
  {
    if vals != [] {
      var init, v := vals[..|vals| - 1], vals[|vals| - 1];
      NumbersApart(init);
      if v >= 0 && v !in Numbering(init) {
        OneMoreApart(Numbering(init), v);
      }
    }
  }

  function NumberOf(m: map<int, nat>, v: int): int
    requires v >= 0 ==> v in m
  {
    if v < 0 then UNSET else m[v]
  }

  ghost predicate Knows(m: map<int, nat>, vals: seq<int>) {
    forall j :: 0 <= j < |vals| && vals[j] >= 0 ==> vals[j] in m
  }

  function NumbersOf(m: map<int, nat>, vals: seq<int>): (out: seq<int>)
    requires Knows(m, vals)
    ensures |out| == |vals| && forall j :: 0 <= j < |vals| ==> out[j] == NumberOf(m, vals[j])
  {
    seq(|vals|, j requires 0 <= j < |vals| => NumberOf(m, vals[j]))
  }

  ghost predicate Extends(m: map<int, nat>, m': map<int, nat>) {
    forall v :: v in m ==> v in m' && m'[v] == m[v]
  }

  lemma NumbersStay(m: map<int, nat>, m': map<int, nat>, vals: seq<int>)
    requires Knows(m, vals) && Extends(m, m')
    ensures Knows(m', vals) && NumbersOf(m', vals) == NumbersOf(m, vals)
  {
  }

  lemma NumbersNext(m: map<int, nat>, vals: seq<int>, v: int)
    requires Knows(m, vals) && (v >= 0 ==> v in m)
    ensures Knows(m, vals + [v]) && NumbersOf(m, vals + [v]) == NumbersOf(m, vals) + [NumberOf(m, v)]
  {
  }

  // Every number below the count is some register's.
  lemma {:induction false} NumbersUsed(vals: seq<int>, c: nat)
    requires c < |Numbering(vals)|
    ensures exists v :: v in Numbering(vals) && Numbering(vals)[v] == c
  {
    var init, v := vals[..|vals| - 1], vals[|vals| - 1];
    var m := Numbering(init);
    if v >= 0 && v !in m {
      assert m[v := |m|].Keys == m.Keys + {v};
    }
    if c < |m| {
      NumbersUsed(init, c);
      var w :| w in m && m[w] == c;
      assert w in Numbering(vals) && Numbering(vals)[w] == c;
    } else {
      assert v in Numbering(vals) && Numbering(vals)[v] == c;
    }
  }

  // A register's number is how many different ones appear before it first does.
  lemma {:induction false} NumbersCount(vals: seq<int>, v: int)
    requires v in Numbering(vals)
    ensures exists j :: FirstAt(vals, v, j) && Numbering(vals)[v] == |Named(vals[..j])|
  {
    var init, last := vals[..|vals| - 1], vals[|vals| - 1];
    if v in Numbering(init) {
      NumbersCount(init, v);
      var j :| FirstAt(init, v, j) && Numbering(init)[v] == |Named(init[..j])|;
      assert init[..j] == vals[..j] && FirstAt(vals, v, j);
    } else {
      NumbersNamed(init);
      assert FirstAt(vals, v, |vals| - 1);
    }
  }

  ghost predicate FirstAt(vals: seq<int>, v: int, j: int) {
    0 <= j < |vals| && vals[j] == v && v !in vals[..j]
  }

  ghost function Named(vals: seq<int>): set<int> {
    set v | v in vals && v >= 0
  }

  lemma {:induction false} NumbersNamed(vals: seq<int>)
    ensures |Numbering(vals)| == |Named(vals)|
  {
    assert Numbering(vals).Keys == Named(vals);
  }

  // ---- Threads by instruction ----

  // A stable insertion by key.
  function InsertBy<T>(key: T -> int, sorted: seq<T>, x: T): seq<T> {
    if sorted == [] || key(x) < key(sorted[0]) then [x] + sorted else [sorted[0]] + InsertBy(key, sorted[1..], x)
  }

  ghost predicate SortedBy<T>(key: T -> int, xs: seq<T>) {
    forall i, j :: 0 <= i < j < |xs| ==> key(xs[i]) <= key(xs[j])
  }

  lemma {:induction false} InsertHas<T>(key: T -> int, sorted: seq<T>, x: T)
    ensures multiset(InsertBy(key, sorted, x)) == multiset(sorted) + multiset{x}
  {
    if sorted != [] && key(sorted[0]) <= key(x) {
      assert sorted == [sorted[0]] + sorted[1..];
      InsertHas(key, sorted[1..], x);
    }
  }

  lemma InsertedIn<T>(key: T -> int, sorted: seq<T>, x: T, y: T)
    requires y in InsertBy(key, sorted, x)
    ensures y == x || y in sorted
  {
    InsertHas(key, sorted, x);
    assert y in multiset(InsertBy(key, sorted, x));
  }

  lemma {:induction false} InsertSorts<T>(key: T -> int, sorted: seq<T>, x: T)
    requires SortedBy(key, sorted)
    ensures SortedBy(key, InsertBy(key, sorted, x))
  {
    if sorted != [] && key(sorted[0]) <= key(x) {
      var rest := sorted[1..];
      InsertSorts(key, rest, x);
      var out := InsertBy(key, rest, x);
      forall j | 0 <= j < |out| ensures key(sorted[0]) <= key(out[j]) {
        InsertedIn(key, rest, x, out[j]);
      }
    }
  }

  function PcOf(t: Thread): int {
    t.pc
  }

  function ByPc(threads: seq<Thread>): seq<Thread> {
    if threads == [] then [] else InsertBy(PcOf, ByPc(threads[..|threads| - 1]), threads[|threads| - 1])
  }

  lemma {:induction false} ByPcSorts(threads: seq<Thread>)
    ensures SortedBy(PcOf, ByPc(threads)) && multiset(ByPc(threads)) == multiset(threads)
    ensures forall i, j :: 0 <= i < j < |ByPc(threads)| ==> ByPc(threads)[i].pc <= ByPc(threads)[j].pc
  {
    if threads != [] {
      var init := threads[..|threads| - 1];
      assert threads == init + [threads[|threads| - 1]];
      ByPcSorts(init);
      InsertSorts(PcOf, ByPc(init), threads[|threads| - 1]);
      InsertHas(PcOf, ByPc(init), threads[|threads| - 1]);
    }
  }

  // The register maps, one after another.
  function Flat(threads: seq<Thread>): seq<int> {
    if threads == [] then [] else Flat(threads[..|threads| - 1]) + threads[|threads| - 1].regMap
  }

  lemma {:induction false} FlatHas(threads: seq<Thread>, i: nat, j: nat)
    requires i < |threads| && j < |threads[i].regMap|
    ensures threads[i].regMap[j] in Flat(threads)
  {
    var k := |threads| - 1;
    if i < k {
      FlatHas(threads[..k], i, j);
    }
  }

  lemma {:induction false} InFlat(threads: seq<Thread>, v: int)
    requires v in Flat(threads)
    ensures exists i, j :: 0 <= i < |threads| && 0 <= j < |threads[i].regMap| && threads[i].regMap[j] == v
  {
    var k := |threads| - 1;
    if v in Flat(threads[..k]) {
      InFlat(threads[..k], v);
      var i, j :| 0 <= i < k && 0 <= j < |threads[..k][i].regMap| && threads[..k][i].regMap[j] == v;
      assert threads[i].regMap[j] == v;
    } else {
      var j :| 0 <= j < |threads[k].regMap| && threads[k].regMap[j] == v;
    }
  }

  // ---- The canonical form ----

  ghost predicate KnowsAll(m: map<int, nat>, threads: seq<Thread>) {
    forall i :: 0 <= i < |threads| ==> Knows(m, threads[i].regMap)
  }

  function Renumbered(m: map<int, nat>, threads: seq<Thread>): (out: seq<Thread>)
    requires KnowsAll(m, threads)
    ensures |out| == |threads|
    ensures forall i :: 0 <= i < |threads| ==>
              out[i] == Thread(threads[i].pc, NumbersOf(m, threads[i].regMap))
  {
    seq(|threads|, i requires 0 <= i < |threads| => Thread(threads[i].pc, NumbersOf(m, threads[i].regMap)))
  }

  lemma FlatKnows(threads: seq<Thread>)
    ensures KnowsAll(Numbering(Flat(threads)), threads)
  {
    forall i, j | 0 <= i < |threads| && 0 <= j < |threads[i].regMap| ensures threads[i].regMap[j] in Flat(threads) {
      FlatHas(threads, i, j);
    }
  }

  function Canonical(threads: seq<Thread>): seq<Thread> {
    var sorted := ByPc(threads);
    FlatKnows(sorted);
    Renumbered(Numbering(Flat(sorted)), sorted)
  }

  // ---- When two thread lists have one canonical form ----

  // Unset in the same places, and the same register in two places of one exactly when so in the other.
  ghost predicate SamePattern(a: seq<int>, b: seq<int>) {
    && |a| == |b| && (forall j :: 0 <= j < |a| ==> (a[j] >= 0 <==> b[j] >= 0))
    && forall j, k :: 0 <= j < |a| && 0 <= k < |a| && a[j] >= 0 && a[k] >= 0 ==> (a[j] == a[k] <==> b[j] == b[k])
  }

  ghost predicate SameShape(a: seq<Thread>, b: seq<Thread>) {
    |a| == |b| && forall i :: 0 <= i < |a| ==> a[i].pc == b[i].pc && |a[i].regMap| == |b[i].regMap|
  }

  lemma NumberingNext(vals: seq<int>, v: int)
    ensures var m := Numbering(vals);
            Numbering(vals + [v]) == Grown(m, v)
  {
    assert (vals + [v])[..|vals|] == vals;
  }

  lemma PatternInit(a: seq<int>, b: seq<int>, k: nat)
    requires SamePattern(a, b) && |a| == k + 1
    ensures SamePattern(a[..k], b[..k]) && (a[k] >= 0 <==> b[k] >= 0)
    ensures a[k] >= 0 ==> (a[k] in a[..k] <==> b[k] in b[..k])
  {
    if a[k] >= 0 && a[k] in a[..k] {
      var j :| 0 <= j < k && a[j] == a[k];
      assert b[..k][j] == b[k];
    }
    if a[k] >= 0 && b[k] in b[..k] {
      var j :| 0 <= j < k && b[j] == b[k];
      assert a[..k][j] == a[k];
    }
  }

  ghost predicate Alike(m: map<int, nat>, a: seq<int>, m': map<int, nat>, b: seq<int>) {
    Knows(m, a) && Knows(m', b) && NumbersOf(m, a) == NumbersOf(m', b)
  }

  lemma AlikeAt(m: map<int, nat>, a: seq<int>, m': map<int, nat>, b: seq<int>, j: nat)
    requires Alike(m, a, m', b) && j < |a| && a[j] >= 0
    ensures |a| == |b| && NumberOf(m', b[j]) == m[a[j]]
  {
    assert NumbersOf(m, a)[j] == NumbersOf(m', b)[j] && |NumbersOf(m, a)| == |NumbersOf(m', b)|;
  }

  function Grown(m: map<int, nat>, v: int): map<int, nat> {
    if v < 0 || v in m then m else m[v := |m|]
  }

  lemma GrownKnows(m: map<int, nat>, vals: seq<int>, v: int)
    requires Knows(m, vals)
    ensures Knows(Grown(m, v), vals + [v])
    ensures NumbersOf(Grown(m, v), vals + [v]) == NumbersOf(m, vals) + [NumberOf(Grown(m, v), v)]
    ensures |Grown(m, v)| == |m| + if v < 0 || v in m then 0 else 1
  {
    if v >= 0 && v !in m {
      assert m[v := |m|].Keys == m.Keys + {v};
    }
    NumbersStay(m, Grown(m, v), vals);
    NumbersNext(Grown(m, v), vals, v);
  }

  // One more pair, new in both or old in both.
  lemma AlikeNext(m: map<int, nat>, a: seq<int>, m': map<int, nat>, b: seq<int>, v: int, w: int)
    requires Alike(m, a, m', b) && |m| == |m'| && (v >= 0 <==> w >= 0)
    requires v >= 0 ==> if v in m then w in m' && m[v] == m'[w] else w !in m'
    ensures |Grown(m, v)| == |Grown(m', w)| && Alike(Grown(m, v), a + [v], Grown(m', w), b + [w])
  {
    GrownKnows(m, a, v);
    GrownKnows(m', b, w);
  }

  lemma {:induction false} PatternNumbers(a: seq<int>, b: seq<int>)
    requires SamePattern(a, b)
    ensures |Numbering(a)| == |Numbering(b)| && Alike(Numbering(a), a, Numbering(b), b)
  {
    if a != [] {
      var k := |a| - 1;
      var m, m' := Numbering(a[..k]), Numbering(b[..k]);
      PatternInit(a, b, k);
      PatternNumbers(a[..k], b[..k]);
      assert a == a[..k] + [a[k]] && b == b[..k] + [b[k]];
      if a[k] in m {
        SameOld(a, b, k);
      }
      AlikeNext(m, a[..k], m', b[..k], a[k], b[k]);
      NumberingNext(a[..k], a[k]);
      NumberingNext(b[..k], b[k]);
    }
  }

  lemma SameOld(a: seq<int>, b: seq<int>, k: nat)
    requires SamePattern(a, b) && |a| == k + 1 && a[k] >= 0 && a[k] in a[..k]
    requires Alike(Numbering(a[..k]), a[..k], Numbering(b[..k]), b[..k])
    ensures b[k] in b[..k] && Numbering(a[..k])[a[k]] == Numbering(b[..k])[b[k]]
  {
    var j :| 0 <= j < k && a[..k][j] == a[k];
    assert a[j] == a[k] && b[..k][j] == b[j] == b[k];
    AlikeAt(Numbering(a[..k]), a[..k], Numbering(b[..k]), b[..k], j);
  }

  lemma NumbersAgree(a: seq<int>, b: seq<int>, j: nat)
    requires |a| == |b| && j < |a| && NumbersOf(Numbering(a), a) == NumbersOf(Numbering(b), b)
    ensures NumberOf(Numbering(a), a[j]) == NumberOf(Numbering(b), b[j]) && (a[j] >= 0 <==> b[j] >= 0)
  {
    assert NumbersOf(Numbering(a), a)[j] == NumbersOf(Numbering(b), b)[j];
  }

  lemma NumbersPattern(a: seq<int>, b: seq<int>)
    requires |a| == |b| && NumbersOf(Numbering(a), a) == NumbersOf(Numbering(b), b)
    ensures SamePattern(a, b)
  {
    NumbersApart(a);
    NumbersApart(b);
    forall j | 0 <= j < |a| ensures NumberOf(Numbering(a), a[j]) == NumberOf(Numbering(b), b[j]) &&
                                    (a[j] >= 0 <==> b[j] >= 0) {
      NumbersAgree(a, b, j);
    }
  }

  lemma {:induction false} FlatRenumbered(m: map<int, nat>, threads: seq<Thread>)
    requires KnowsAll(m, threads) && Knows(m, Flat(threads))
    ensures Flat(Renumbered(m, threads)) == NumbersOf(m, Flat(threads))
  {
    if threads != [] {
      var init := threads[..|threads| - 1];
      assert Renumbered(m, threads)[..|threads| - 1] == Renumbered(m, init);
      assert Flat(threads) == Flat(init) + threads[|threads| - 1].regMap;
      assert forall j :: 0 <= j < |Flat(init)| ==> Flat(init)[j] == Flat(threads)[j];
      FlatRenumbered(m, init);
    }
  }

  lemma {:induction false} FlatInjective(a: seq<Thread>, b: seq<Thread>)
    requires SameShape(a, b) && Flat(a) == Flat(b)
    ensures a == b
  {
    if a != [] {
      var k := |a| - 1;
      var n := |a[k].regMap|;
      assert Flat(a)[|Flat(a)| - n..] == a[k].regMap && Flat(a)[..|Flat(a)| - n] == Flat(a[..k]);
      assert Flat(b)[|Flat(b)| - n..] == b[k].regMap && Flat(b)[..|Flat(b)| - n] == Flat(b[..k]);
      FlatInjective(a[..k], b[..k]);
      assert a == a[..k] + [a[k]] && b == b[..k] + [b[k]];
    }
  }

  lemma CanonicalFlat(threads: seq<Thread>)
    ensures var p := ByPc(threads);
            Knows(Numbering(Flat(p)), Flat(p)) && Flat(Canonical(threads)) == NumbersOf(Numbering(Flat(p)), Flat(p))
  {
    var p := ByPc(threads);
    FlatKnows(p);
    FlatRenumbered(Numbering(Flat(p)), p);
  }

  lemma AlikeNumbers(a: seq<int>, b: seq<int>)
    requires SamePattern(a, b) && Knows(Numbering(a), a) && Knows(Numbering(b), b)
    ensures NumbersOf(Numbering(a), a) == NumbersOf(Numbering(b), b)
  {
    PatternNumbers(a, b);
  }

  lemma SameShapes(a: seq<Thread>, b: seq<Thread>)
    requires SameShape(ByPc(a), ByPc(b))
    ensures SameShape(Canonical(a), Canonical(b))
  {
  }

  lemma SamePatternCanonical(a: seq<Thread>, b: seq<Thread>)
    requires SameShape(ByPc(a), ByPc(b)) && SamePattern(Flat(ByPc(a)), Flat(ByPc(b)))
    ensures Canonical(a) == Canonical(b)
  {
    CanonicalFlat(a);
    CanonicalFlat(b);
    AlikeNumbers(Flat(ByPc(a)), Flat(ByPc(b)));
    SameShapes(a, b);
    FlatInjective(Canonical(a), Canonical(b));
  }

  lemma CanonicalSamePattern(a: seq<Thread>, b: seq<Thread>)
    requires Canonical(a) == Canonical(b)
    ensures SameShape(ByPc(a), ByPc(b)) && SamePattern(Flat(ByPc(a)), Flat(ByPc(b)))
  {
    var p, q := ByPc(a), ByPc(b);
    CanonicalFlat(a);
    CanonicalFlat(b);
    assert |NumbersOf(Numbering(Flat(p)), Flat(p))| == |NumbersOf(Numbering(Flat(q)), Flat(q))|;
    NumbersPattern(Flat(p), Flat(q));
    forall i | 0 <= i < |p| ensures p[i].pc == q[i].pc && |p[i].regMap| == |q[i].regMap| {
      assert Canonical(a)[i] == Canonical(b)[i];
    }
  }

  // A state is its instructions and which tags share a register: exactly then are two thread lists the same state.
  lemma CanonicalIff(a: seq<Thread>, b: seq<Thread>)
    ensures Canonical(a) == Canonical(b) <==>
            SameShape(ByPc(a), ByPc(b)) && SamePattern(Flat(ByPc(a)), Flat(ByPc(b)))
  {
    if Canonical(a) == Canonical(b) {
      CanonicalSamePattern(a, b);
    }
    if SameShape(ByPc(a), ByPc(b)) && SamePattern(Flat(ByPc(a)), Flat(ByPc(b))) {
      SamePatternCanonical(a, b);
    }
  }

  // ---- canonicalise ----

  method SortThreads(threads: seq<Thread>) returns (sorted: seq<Thread>)
    ensures sorted == ByPc(threads)
  {
    sorted := [];
    for i := 0 to |threads|
      invariant sorted == ByPc(threads[..i])
    {
      assert threads[..i + 1][..i] == threads[..i];
      sorted := InsertBy(PcOf, sorted, threads[i]);
    }
    assert threads[..|threads|] == threads;
  }

  // One tag's register, numbered if it is met for the first time.
  method NumberTag(reg: int, before: map<int, nat>, ghost seen: seq<int>) returns (c: int, rename: map<int, nat>)
    requires before == Numbering(seen)
    ensures rename == Numbering(seen + [reg]) && Extends(before, rename)
    ensures (reg >= 0 ==> reg in rename) && c == NumberOf(rename, reg)
  {
    NumberingNext(seen, reg);
    c, rename := UNSET, before;
    if reg >= 0 {
      if reg !in rename {
        rename := rename[reg := |rename|];
      }
      c := rename[reg];
    }
  }

  method NumberNext(regMap: seq<int>, tag: nat, newMap: seq<int>, before: map<int, nat>, ghost seen: seq<int>)
    returns (longer: seq<int>, rename: map<int, nat>)
    requires tag < |regMap| && before == Numbering(seen + regMap[..tag])
    requires Knows(before, regMap[..tag]) && newMap == NumbersOf(before, regMap[..tag])
    ensures rename == Numbering(seen + regMap[..tag + 1]) && Extends(before, rename)
    ensures Knows(rename, regMap[..tag + 1]) && longer == NumbersOf(rename, regMap[..tag + 1])
  {
    var c;
    c, rename := NumberTag(regMap[tag], before, seen + regMap[..tag]);
    NumbersStay(before, rename, regMap[..tag]);
    NumbersNext(rename, regMap[..tag], regMap[tag]);
    assert regMap[..tag + 1] == regMap[..tag] + [regMap[tag]];
    assert seen + regMap[..tag + 1] == seen + regMap[..tag] + [regMap[tag]];
    longer := newMap + [c];
  }

  // One thread's tags, numbering the registers met for the first time.
  method NumberThread(regMap: seq<int>, before: map<int, nat>, ghost seen: seq<int>)
    returns (newMap: seq<int>, rename: map<int, nat>)
    requires before == Numbering(seen)
    ensures rename == Numbering(seen + regMap) && Knows(rename, regMap) && newMap == NumbersOf(rename, regMap)
    ensures Extends(before, rename)
  {
    newMap, rename := [], before;
    assert seen + regMap[..0] == seen;
    for tag := 0 to |regMap|
      invariant rename == Numbering(seen + regMap[..tag]) && Extends(before, rename)
      invariant Knows(rename, regMap[..tag]) && newMap == NumbersOf(rename, regMap[..tag])
    {
      newMap, rename := NumberNext(regMap, tag, newMap, rename, seen);
    }
    assert regMap[..|regMap|] == regMap;
  }

  lemma FlatNext(threads: seq<Thread>, i: nat)
    requires i < |threads|
    ensures Flat(threads[..i + 1]) == Flat(threads[..i]) + threads[i].regMap
  {
    assert threads[..i + 1][..i] == threads[..i];
  }

  // canonical is the state's key, in instruction order; priority the same threads in the order given.
  method Canonicalise(threads: seq<Thread>)
    returns (canonical: seq<Thread>, priority: seq<Thread>, rename: map<int, nat>, counter: nat)
    ensures canonical == Canonical(threads) && counter == |rename|
    ensures rename == Numbering(Flat(ByPc(threads))) && KnowsAll(rename, threads)
    ensures priority == Renumbered(rename, threads)
  {
    var sorted := SortThreads(threads);
    FlatKnows(sorted);
    canonical, rename := [], map[];
    for i := 0 to |sorted|
      invariant rename == Numbering(Flat(sorted[..i])) && KnowsAll(rename, sorted[..i])
      invariant canonical == Renumbered(rename, sorted[..i])
    {
      FlatNext(sorted, i);
      var newMap, next := NumberThread(sorted[i].regMap, rename, Flat(sorted[..i]));
      OneMoreThread(rename, next, sorted, i);
      canonical, rename := canonical + [Thread(sorted[i].pc, newMap)], next;
    }
    assert sorted[..|sorted|] == sorted;
    counter := |rename|;
    SortedKnows(rename, threads);
    priority := Renumbered(rename, threads);
  }

  lemma OneMoreThread(m: map<int, nat>, m': map<int, nat>, threads: seq<Thread>, i: nat)
    requires i < |threads| && KnowsAll(m, threads[..i]) && Extends(m, m') && Knows(m', threads[i].regMap)
    ensures KnowsAll(m', threads[..i + 1])
    ensures Renumbered(m', threads[..i + 1])
            == Renumbered(m, threads[..i]) + [Thread(threads[i].pc, NumbersOf(m', threads[i].regMap))]
  {
    forall k | 0 <= k < i ensures Knows(m', threads[k].regMap) && NumbersOf(m', threads[k].regMap)
                                  == NumbersOf(m, threads[k].regMap) {
      assert threads[..i][k] == threads[k];
      NumbersStay(m, m', threads[k].regMap);
    }
  }

  lemma SortedKnows(m: map<int, nat>, threads: seq<Thread>)
    requires KnowsAll(m, ByPc(threads))
    ensures KnowsAll(m, threads)
  {
    ByPcSorts(threads);
    forall i | 0 <= i < |threads| ensures Knows(m, threads[i].regMap) {
      assert threads[i] in multiset(threads) && threads[i] in ByPc(threads);
    }
  }

  // ---- Tags set on this transition ----

  // Each tag set here gets one number of its own, from base up, shared by every thread that sets it.
  ghost predicate Sentinels(sent: map<nat, nat>, base: nat) {
    && (forall j :: j in sent ==> base <= sent[j] < base + |sent|)
    && forall j, k :: j in sent && k in sent && sent[j] == sent[k] ==> j == k
  }

  ghost predicate Marks(sent: map<nat, nat>, regMap: seq<int>) {
    forall j :: 0 <= j < |regMap| && regMap[j] == HERE ==> j in sent
  }

  function Marked(sent: map<nat, nat>, regMap: seq<int>): (out: seq<int>)
    requires Marks(sent, regMap)
    ensures |out| == |regMap|
    ensures forall j :: 0 <= j < |regMap| ==> out[j] == if regMap[j] == HERE then sent[j] else regMap[j]
  {
    seq(|regMap|, j requires 0 <= j < |regMap| => if regMap[j] == HERE then sent[j] else regMap[j])
  }

  ghost predicate Shares(sent: map<nat, nat>, sent': map<nat, nat>) {
    forall j :: j in sent ==> j in sent' && sent'[j] == sent[j]
  }

  lemma MarkedStays(sent: map<nat, nat>, sent': map<nat, nat>, regMap: seq<int>)
    requires Marks(sent, regMap) && Shares(sent, sent')
    ensures Marks(sent', regMap) && Marked(sent', regMap) == Marked(sent, regMap)
  {
  }

  method MarkTag(v: int, j: nat, base: nat, before: map<nat, nat>) returns (w: int, sent: map<nat, nat>)
    requires Sentinels(before, base)
    ensures Sentinels(sent, base) && Shares(before, sent) && (v == HERE ==> j in sent)
    ensures w == if v == HERE then sent[j] else v
  {
    w, sent := v, before;
    if v == HERE {
      if j !in sent {
        assert sent[j := base + |sent|].Keys == sent.Keys + {j};
        sent := sent[j := base + |sent|];
      }
      w := sent[j];
    }
  }

  method MarkThread(regMap: seq<int>, base: nat, before: map<nat, nat>) returns (rm: seq<int>, sent: map<nat, nat>)
    requires Sentinels(before, base)
    ensures Sentinels(sent, base) && Shares(before, sent) && Marks(sent, regMap) && rm == Marked(sent, regMap)
  {
    rm, sent := [], before;
    for j := 0 to |regMap|
      invariant Sentinels(sent, base) && Shares(before, sent)
      invariant Marks(sent, regMap[..j]) && rm == Marked(sent, regMap[..j])
    {
      var w, next := MarkTag(regMap[j], j, base, sent);
      MarkedStays(sent, next, regMap[..j]);
      MarkedNext(next, regMap, j);
      rm, sent := rm + [w], next;
    }
    assert regMap[..|regMap|] == regMap;
  }

  lemma MarkedNext(sent: map<nat, nat>, regMap: seq<int>, j: nat)
    requires j < |regMap| && Marks(sent, regMap[..j]) && (regMap[j] == HERE ==> j in sent)
    ensures Marks(sent, regMap[..j + 1])
    ensures Marked(sent, regMap[..j + 1])
            == Marked(sent, regMap[..j]) + [if regMap[j] == HERE then sent[j] else regMap[j]]
  {
  }

  ghost predicate IsMarked(sent: map<nat, nat>, threads: seq<Thread>, work: seq<Thread>) {
    && |work| == |threads|
    && forall i :: 0 <= i < |threads| ==>
         Marks(sent, threads[i].regMap) && work[i] == Thread(threads[i].pc, Marked(sent, threads[i].regMap))
  }

  method MarkThreads(threads: seq<Thread>, base: nat) returns (work: seq<Thread>, sent: map<nat, nat>)
    ensures Sentinels(sent, base) && IsMarked(sent, threads, work)
  {
    work, sent := [], map[];
    for i := 0 to |threads|
      invariant Sentinels(sent, base) && IsMarked(sent, threads[..i], work)
    {
      var rm, next := MarkThread(threads[i].regMap, base, sent);
      AllMarkedStay(sent, next, threads[..i], work);
      OneMoreMarked(next, threads, i, work);
      work, sent := work + [Thread(threads[i].pc, rm)], next;
    }
    assert threads[..|threads|] == threads;
  }

  lemma OneMoreMarked(sent: map<nat, nat>, threads: seq<Thread>, i: nat, work: seq<Thread>)
    requires i < |threads| && IsMarked(sent, threads[..i], work) && Marks(sent, threads[i].regMap)
    ensures IsMarked(sent, threads[..i + 1], work + [Thread(threads[i].pc, Marked(sent, threads[i].regMap))])
  {
  }

  lemma AllMarkedStay(sent: map<nat, nat>, sent': map<nat, nat>, threads: seq<Thread>, work: seq<Thread>)
    requires IsMarked(sent, threads, work) && Shares(sent, sent')
    ensures IsMarked(sent', threads, work)
  {
    forall i | 0 <= i < |threads| ensures Marks(sent', threads[i].regMap) &&
                                          Marked(sent', threads[i].regMap) == Marked(sent, threads[i].regMap) {
      MarkedStays(sent, sent', threads[i].regMap);
    }
  }

  // ---- The operations ----

  // Every register below base that changes its number, copied; nothing else.
  ghost predicate CopiesFor(copies: seq<TagOp>, rename: map<int, nat>, base: nat, done: set<int>) {
    && Distinct(copies)
    && (forall i :: 0 <= i < |copies| ==>
          0 <= copies[i].src < base && copies[i].src in done && copies[i].src in rename &&
          rename[copies[i].src] == copies[i].dst != copies[i].src)
    && forall o :: o in done && o in rename && o < base && rename[o] != o ==> TagOp(rename[o], o) in copies
  }

  // Every register from base up, set to the position; nothing else.
  ghost predicate SetsFor(sets: seq<TagOp>, rename: map<int, nat>, base: nat, done: set<int>) {
    && (forall i :: 0 <= i < |sets| ==> sets[i].src == POS && IsSet(sets[i].dst, rename, base, done))
    && forall o :: o in done && o in rename && o >= base ==> TagOp(rename[o], POS) in sets
  }

  ghost predicate IsSet(dst: int, rename: map<int, nat>, base: nat, done: set<int>) {
    exists o :: o in done && o in rename && o >= base && rename[o] == dst
  }

  lemma NextCopy(copies: seq<TagOp>, rename: map<int, nat>, base: nat, done: set<int>, o: int)
    requires CopiesFor(copies, rename, base, done) && OneToOne(rename) && o in rename && o !in done
    ensures o >= base || rename[o] == o ==> CopiesFor(copies, rename, base, done + {o})
    ensures o < base && rename[o] != o ==> CopiesFor(copies + [TagOp(rename[o], o)], rename, base, done + {o})
  {
    if o < base && rename[o] != o {
      var more := copies + [TagOp(rename[o], o)];
      forall p | p in done + {o} && p in rename && p < base && rename[p] != p ensures TagOp(rename[p], p) in more {
        if p == o {
          assert more[|copies|] == TagOp(rename[o], o);
        }
      }
    }
  }

  lemma NextSet(sets: seq<TagOp>, rename: map<int, nat>, base: nat, done: set<int>, o: int)
    requires SetsFor(sets, rename, base, done) && o in rename
    ensures o < base ==> SetsFor(sets, rename, base, done + {o})
    ensures o >= base ==> SetsFor(sets + [TagOp(rename[o], POS)], rename, base, done + {o})
  {
    forall i | 0 <= i < |sets| ensures IsSet(sets[i].dst, rename, base, done + {o}) {
      assert IsSet(sets[i].dst, rename, base, done);
      var p :| p in done && p in rename && p >= base && rename[p] == sets[i].dst;
      assert p in done + {o};
    }
    if o >= base {
      var more := sets + [TagOp(rename[o], POS)];
      assert more[|sets|] == TagOp(rename[o], POS) && o in done + {o};
    }
  }

  // The map is walked in any order.
  method Split(rename: map<int, nat>, base: nat) returns (copies: seq<TagOp>, sets: seq<TagOp>)
    requires OneToOne(rename)
    ensures CopiesFor(copies, rename, base, rename.Keys) && SetsFor(sets, rename, base, rename.Keys)
  {
    copies, sets := [], [];
    var todo := rename.Keys;
    ghost var done: set<int> := {};
    while todo != {}
      invariant todo <= rename.Keys && done == rename.Keys - todo
      invariant CopiesFor(copies, rename, base, done) && SetsFor(sets, rename, base, done)
    {
      var orig := Pick(todo);
      NextCopy(copies, rename, base, done, orig);
      NextSet(sets, rename, base, done, orig);
      if orig >= base {
        sets := sets + [TagOp(rename[orig], POS)];
      } else if rename[orig] != orig {
        copies := copies + [TagOp(rename[orig], orig)];
      }
      todo, done := todo - {orig}, done + {orig};
    }
  }

  function DstOf(op: TagOp): int {
    op.dst
  }

  method SortByDst(ops: seq<TagOp>) returns (sorted: seq<TagOp>)
    ensures SortedBy(DstOf, sorted) && multiset(sorted) == multiset(ops)
    ensures forall i, j :: 0 <= i < j < |sorted| ==> sorted[i].dst <= sorted[j].dst
  {
    sorted := [];
    for i := 0 to |ops|
      invariant SortedBy(DstOf, sorted) && multiset(sorted) == multiset(ops[..i])
    {
      assert ops[..i + 1] == ops[..i] + [ops[i]];
      InsertSorts(DstOf, sorted, ops[i]);
      InsertHas(DstOf, sorted, ops[i]);
      sorted := InsertBy(DstOf, sorted, ops[i]);
    }
    assert ops[..|ops|] == ops;
  }

  // ---- What they do ----

  lemma {:induction false} ExecSets(sets: seq<TagOp>, regs: Regs, r: int)
    requires forall i :: 0 <= i < |sets| ==> sets[i].src == POS && sets[i].dst >= 0
    ensures Exec(sets, regs)(r) == if exists i :: 0 <= i < |sets| && sets[i].dst == r then regs(POS) else regs(r)
  {
    if sets != [] {
      var rest := sets[1..];
      assert forall i :: 0 <= i < |rest| ==> rest[i] == sets[i + 1];
      var one := Set(regs, sets[0].dst, regs(POS));
      ExecSets(rest, one, r);
      if i :| 0 <= i < |sets| && sets[i].dst == r && i > 0 {
        assert rest[i - 1].dst == r;
      }
    }
  }

  // Behind the copies each register is where its number says.
  lemma CopiesMove(copies: seq<TagOp>, rename: map<int, nat>, base: nat, before: Regs, mid: Regs, v: int)
    requires OneToOne(rename) && CopiesFor(copies, rename, base, rename.Keys) && IsAssigned(copies, before, mid)
    requires v in rename && v < base
    ensures mid(rename[v]) == before(v)
  {
    if rename[v] != v {
      var i :| 0 <= i < |copies| && copies[i] == TagOp(rename[v], v);
    } else {
      assert forall i :: 0 <= i < |copies| ==> copies[i].dst != v;
    }
  }

  // The whole batch: what a register held before, or the position, is in its canonical register behind it.
  lemma BatchMoves(copies: seq<TagOp>, ordered: seq<TagOp>, sets: seq<TagOp>, rename: map<int, nat>, base: nat,
                   regs: Regs, v: int)
    requires OneToOne(rename) && v in rename
    requires CopiesFor(copies, rename, base, rename.Keys) && SetsFor(sets, rename, base, rename.Keys)
    requires IsAssigned(copies, regs, Exec(ordered, regs))
    ensures Exec(ordered + sets, regs)(rename[v]) == if v < base then regs(v) else regs(POS)
  {
    var mid := Exec(ordered, regs);
    ExecConcat(ordered, sets, regs);
    SetsName(sets, rename, base);
    ExecSets(sets, mid, rename[v]);
    assert mid(POS) == regs(POS);
    if v < base {
      CopiesMove(copies, rename, base, regs, mid, v);
      forall i | 0 <= i < |sets| ensures sets[i].dst != rename[v] {
        assert IsSet(sets[i].dst, rename, base, rename.Keys);
      }
    } else {
      var i :| 0 <= i < |sets| && sets[i] == TagOp(rename[v], POS);
    }
  }

  lemma SetsName(sets: seq<TagOp>, rename: map<int, nat>, base: nat)
    requires SetsFor(sets, rename, base, rename.Keys)
    ensures forall i :: 0 <= i < |sets| ==> sets[i].src == POS && sets[i].dst >= 0
  {
    forall i | 0 <= i < |sets| ensures sets[i].dst >= 0 {
      assert IsSet(sets[i].dst, rename, base, rename.Keys);
    }
  }

  // A tag's register behind the operations, against what the thread held before them.
  ghost predicate Carried(ops: seq<TagOp>, regs: Regs, v: int, c: int) {
    if v == HERE then c >= 0 && Exec(ops, regs)(c) == regs(POS)
    else if v < 0 then c == UNSET
    else c >= 0 && Exec(ops, regs)(c) == regs(v)
  }

  // Whatever the registers held, every thread finds every tag in its canonical register.
  ghost predicate CarriesAll(threads: seq<Thread>, priority: seq<Thread>, ops: seq<TagOp>, regs: Regs) {
    && |priority| == |threads|
    && forall i :: 0 <= i < |threads| ==>
         && priority[i].pc == threads[i].pc && |priority[i].regMap| == |threads[i].regMap|
         && forall j :: 0 <= j < |threads[i].regMap| ==>
              Carried(ops, regs, threads[i].regMap[j], priority[i].regMap[j])
  }

  lemma Carry(threads: seq<Thread>, work: seq<Thread>, sent: map<nat, nat>, rename: map<int, nat>, base: nat,
              copies: seq<TagOp>, ordered: seq<TagOp>, sets: seq<TagOp>, regs: Regs)
    requires Sentinels(sent, base) && IsMarked(sent, threads, work) && KnowsAll(rename, work) && OneToOne(rename)
    requires forall i, j :: 0 <= i < |threads| && 0 <= j < |threads[i].regMap| ==> HERE <= threads[i].regMap[j] < base
    requires CopiesFor(copies, rename, base, rename.Keys) && SetsFor(sets, rename, base, rename.Keys)
    requires IsAssigned(copies, regs, Exec(ordered, regs))
    ensures CarriesAll(threads, Renumbered(rename, work), ordered + sets, regs)
  {
    forall i, j | 0 <= i < |threads| && 0 <= j < |threads[i].regMap|
      ensures Carried(ordered + sets, regs, threads[i].regMap[j], NumberOf(rename, work[i].regMap[j]))
    {
      assert Knows(rename, work[i].regMap);
      var w := work[i].regMap[j];
      if w >= 0 {
        BatchMoves(copies, ordered, sets, rename, base, regs, w);
      }
    }
  }

  // c is the canonical register of some tag of some thread.
  ghost predicate IsNumber(threads: seq<Thread>, c: int) {
    c >= 0 && exists i, j :: 0 <= i < |threads| && 0 <= j < |threads[i].regMap| && threads[i].regMap[j] == c
  }

  lemma NumbersAre(work: seq<Thread>, rename: map<int, nat>)
    requires rename == Numbering(Flat(ByPc(work))) && KnowsAll(rename, work)
    ensures forall c: int :: 0 <= c < |rename| <==> IsNumber(Renumbered(rename, work), c)
  {
    var out := Renumbered(rename, work);
    NumbersApart(Flat(ByPc(work)));
    forall c: int | 0 <= c < |rename| ensures IsNumber(out, c) {
      NumbersUsed(Flat(ByPc(work)), c);
      var v :| v in rename && rename[v] == c;
      InWork(work, v);
      var i, j :| 0 <= i < |work| && 0 <= j < |work[i].regMap| && work[i].regMap[j] == v;
      assert out[i].regMap[j] == c;
    }
    forall c | IsNumber(out, c) ensures 0 <= c < |rename| {
      var i, j :| 0 <= i < |out| && 0 <= j < |out[i].regMap| && out[i].regMap[j] == c;
      assert Knows(rename, work[i].regMap);
    }
  }

  lemma InWork(work: seq<Thread>, v: int)
    requires v in Flat(ByPc(work))
    ensures exists i, j :: 0 <= i < |work| && 0 <= j < |work[i].regMap| && work[i].regMap[j] == v
  {
    var sorted := ByPc(work);
    InFlat(sorted, v);
    var i, j :| 0 <= i < |sorted| && 0 <= j < |sorted[i].regMap| && sorted[i].regMap[j] == v;
    ByPcSorts(work);
    assert sorted[i] in multiset(work) && sorted[i] in work;
    var k :| 0 <= k < |work| && work[k] == sorted[i];
    assert work[k].regMap[j] == v;
  }

  // Every register the operations name is below n.
  ghost predicate NamesBelow(ops: seq<TagOp>, n: nat) {
    forall i :: 0 <= i < |ops| ==> ops[i].dst < n && ops[i].src < n
  }

  lemma {:induction false} CopiesBelow(dsts: seq<int>, src: seq<int>, idx: seq<nat>, n: nat)
    requires |dsts| == |src| && forall p :: 0 <= p < |idx| ==> idx[p] < |dsts|
    requires forall i :: 0 <= i < |dsts| ==> dsts[i] < n && src[i] < n
    ensures NamesBelow(CopiesAt(dsts, src, idx), n)
  {
    if idx != [] {
      CopiesBelow(dsts, src, idx[..|idx| - 1], n);
    }
  }

  lemma {:induction false} RoundsBelow(dsts: seq<int>, src: seq<int>, rem: seq<bool>, n: nat)
    requires |dsts| == |src| == |rem| && forall i :: 0 <= i < |dsts| ==> dsts[i] < n && src[i] < n
    ensures NamesBelow(Rounds(dsts, src, rem), n)
    decreases Pending(rem)
  {
    if Pending(rem) > 0 {
      var ready := ReadyBelow(dsts, src, rem, |dsts|);
      if ready != [] {
        PendingDrops(rem, ready);
        CopiesBelow(dsts, src, ready, n);
        RoundsBelow(dsts, src, Without(rem, ready), n);
      } else {
        var b := FirstPending(rem);
        var left := Without(rem, [b]);
        PendingDrops(rem, [b]);
        RoundsBelow(dsts, Redirect(src, left, dsts[b]), left, n);
      }
    }
  }

  // The cycle-breaking slot is the only register sequencing adds.
  lemma SequenceBelow(ops: seq<TagOp>, n: nat)
    requires Distinct(ops) && NamesBelow(ops, n)
    ensures NamesBelow(Sequence(ops), n)
  {
    var dsts := SortedDsts(ops);
    var src := SourceColumn(dsts, SourceMap(ops));
    forall k | 0 <= k < |dsts| ensures dsts[k] < n && src[k] < n {
      assert dsts[k] in Elements(dsts);
      var i :| 0 <= i < |ops| && ops[i].dst == dsts[k];
    }
    RoundsBelow(dsts, src, AllTrue(|dsts|), n);
  }

  lemma BatchBelow(copies: seq<TagOp>, sets: seq<TagOp>, rename: map<int, nat>, base: nat, n: nat)
    requires OneToOne(rename) && |rename| <= n && base <= n
    requires CopiesFor(copies, rename, base, rename.Keys) && SetsFor(sets, rename, base, rename.Keys)
    ensures NamesBelow(Sequence(copies) + sets, n)
  {
    SequenceBelow(copies, n);
    forall i | 0 <= i < |sets| ensures sets[i].dst < n {
      assert IsSet(sets[i].dst, rename, base, rename.Keys);
    }
  }

  // getOrAddState up to the state's key: tags set here get numbers of their own, everything is renumbered in order of
  // first appearance, and the operations carry each value to its new register.
  method Transition(threads: seq<Thread>, numTags: nat, nextReg: nat)
    returns (key: seq<Thread>, priority: seq<Thread>, ops: seq<TagOp>, counter: nat, next: nat,
             ghost sent: map<nat, nat>)
    requires Raw(threads, numTags, nextReg)
    ensures forall regs: Regs :: CarriesAll(threads, priority, ops, regs)
    ensures forall c: int :: 0 <= c < counter <==> IsNumber(priority, c)
    ensures next == (if counter > nextReg then counter else nextReg) && NamesBelow(ops, next)
    ensures Sentinels(sent, nextReg) && exists work :: IsMarked(sent, threads, work) && key == Canonical(work)
    ensures FirstState(threads) ==> Positional(ops)
  {
    var work, tags := MarkThreads(threads, nextReg);
    sent := tags;
    var rename;
    key, priority, rename, counter := Canonicalise(work);
    NumbersApart(Flat(ByPc(work)));
    NumbersAre(work, rename);
    var copies, sets := Split(rename, nextReg);
    AreCopies(copies, rename, nextReg);
    var sequenced := SequentializeCopies(copies);
    var sorted := SortByDst(sets);
    SetsSorted(sets, sorted, rename, nextReg);
    ops := sequenced.ops + sorted;
    next := if counter > nextReg then counter else nextReg;
    BatchBelow(copies, sorted, rename, nextReg, next);
    forall regs: Regs ensures CarriesAll(threads, priority, ops, regs) {
      Carry(threads, work, tags, rename, nextReg, copies, sequenced.ops, sorted, regs);
    }
    if FirstState(threads) {
      NothingToCopy(threads, work, tags, rename, nextReg, copies);
      SetsName(sorted, rename, nextReg);
    }
  }

  lemma AreCopies(copies: seq<TagOp>, rename: map<int, nat>, base: nat)
    requires CopiesFor(copies, rename, base, rename.Keys)
    ensures IsCopyBatch(copies) && Distinct(copies)
  {
  }

  lemma SetsSorted(sets: seq<TagOp>, sorted: seq<TagOp>, rename: map<int, nat>, base: nat)
    requires SetsFor(sets, rename, base, rename.Keys) && multiset(sorted) == multiset(sets)
    ensures SetsFor(sorted, rename, base, rename.Keys)
  {
    forall i | 0 <= i < |sorted| ensures sorted[i].src == POS && IsSet(sorted[i].dst, rename, base, rename.Keys) {
      assert sorted[i] in multiset(sets) && sorted[i] in sets;
      var k :| 0 <= k < |sets| && sets[k] == sorted[i];
    }
    forall o | o in rename && o >= base ensures TagOp(rename[o], POS) in sorted {
      assert TagOp(rename[o], POS) in multiset(sets);
    }
  }

  // The start threads name no register: their tags are unset, or set at position 0.
  ghost predicate FirstState(threads: seq<Thread>) {
    forall i, j :: 0 <= i < |threads| && 0 <= j < |threads[i].regMap| ==> threads[i].regMap[j] < 0
  }

  lemma NoRegisters(threads: seq<Thread>, work: seq<Thread>, sent: map<nat, nat>, base: nat)
    requires FirstState(threads) && Sentinels(sent, base) && IsMarked(sent, threads, work)
    ensures forall v :: v in Flat(ByPc(work)) ==> v < 0 || v >= base
  {
    forall v | v in Flat(ByPc(work)) ensures v < 0 || v >= base {
      InWork(work, v);
      var k, j :| 0 <= k < |work| && 0 <= j < |work[k].regMap| && work[k].regMap[j] == v;
      assert threads[k].regMap[j] < 0;
    }
  }

  lemma NothingToCopy(threads: seq<Thread>, work: seq<Thread>, sent: map<nat, nat>, rename: map<int, nat>, base: nat,
                      copies: seq<TagOp>)
    requires FirstState(threads) && Sentinels(sent, base) && IsMarked(sent, threads, work)
    requires rename == Numbering(Flat(ByPc(work))) && CopiesFor(copies, rename, base, rename.Keys)
    ensures copies == []
  {
    NoRegisters(threads, work, sent, base);
    assert copies == [] || copies[0].src in Flat(ByPc(work));
  }

  // ---- The scratch register ----

  function Concrete(r: int, scratch: nat): int {
    if r == SCRATCH then scratch else r
  }

  // Once every register is known, the cycle-breaking slot becomes one register past them all.
  function Resolve(ops: seq<TagOp>, scratch: nat): (out: seq<TagOp>)
    ensures |out| == |ops|
  {
    seq(|ops|, i requires 0 <= i < |ops| => TagOp(Concrete(ops[i].dst, scratch), Concrete(ops[i].src, scratch)))
  }

  ghost predicate SameBut(scratch: nat, a: Regs, b: Regs) {
    a(SCRATCH) == b(scratch) && forall r :: r != SCRATCH && r != scratch ==> a(r) == b(r)
  }

  lemma {:induction false} ResolveKeeps(ops: seq<TagOp>, scratch: nat, a: Regs, b: Regs)
    requires NamesBelow(ops, scratch) && SameBut(scratch, a, b)
    ensures SameBut(scratch, Exec(ops, a), Exec(Resolve(ops, scratch), b))
  {
    if ops != [] {
      var op := TagOp(Concrete(ops[0].dst, scratch), Concrete(ops[0].src, scratch));
      assert Resolve(ops, scratch)[0] == op && Resolve(ops, scratch)[1..] == Resolve(ops[1..], scratch);
      ResolveKeeps(ops[1..], scratch, Set(a, ops[0].dst, a(ops[0].src)), Set(b, op.dst, b(op.src)));
    }
  }
}
