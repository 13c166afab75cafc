/** Depth-first search with marks, against the paths of a graph. */
module PrioritySearch {
  // A node's successors are listed in priority order. A path is the list of choices taken; the path that matters is the
  // lexicographically least one that repeats no guarded node and ends at a goal. The search marks guarded nodes on
  // arrival and never unmarks them; this file proves it finds exactly that path, and what its marks mean afterwards.

  import opened FiniteSets

  datatype Graph<!N(==)> = Graph(
    succ: map<N, seq<N>>,    // successors in priority order
    goals: set<N>,
    guarded: set<N>,         // the nodes the search marks
    rank: map<N, nat>,       // falls along every edge out of an unguarded node
    bound: nat)
  {
    ghost predicate Valid() {
      && guarded <= succ.Keys && succ.Keys <= rank.Keys
      && (forall n :: n in succ ==> rank[n] < bound)
      && (forall n, i :: n in succ && 0 <= i < |succ[n]| ==>
            succ[n][i] in succ && (n !in guarded ==> rank[succ[n][i]] < rank[n]))
    }

    // The ceiling on the successors' ranks.
    function Level(n: N): nat
      requires n in succ && n in rank
    {
      if n in guarded then bound else rank[n]
    }

    function With(s: set<N>, n: N): set<N> {
      if n in guarded then s + {n} else s
    }
  }

  // ---- Paths ----

  // cs leads from n to a goal, passing no node of avoid and stopping at the first goal.
  ghost predicate Leads<N>(g: Graph<N>, n: N, cs: seq<nat>, avoid: set<N>) {
    && n in g.succ && n !in avoid
    && if n in g.goals then cs == []
       else cs != [] && cs[0] < |g.succ[n]| && Leads(g, g.succ[n][cs[0]], cs[1..], avoid)
  }

  // The same, repeating no guarded node.
  ghost predicate Simple<N>(g: Graph<N>, n: N, cs: seq<nat>, avoid: set<N>) {
    && n in g.succ && n !in avoid
    && if n in g.goals then cs == []
       else cs != [] && cs[0] < |g.succ[n]| && Simple(g, g.succ[n][cs[0]], cs[1..], g.With(avoid, n))
  }

  // The nodes of a path, the last included.
  function Nodes<N>(g: Graph<N>, n: N, cs: seq<nat>): seq<N> {
    [n] + if cs != [] && n in g.succ && cs[0] < |g.succ[n]| then Nodes(g, g.succ[n][cs[0]], cs[1..]) else []
  }

  // Lexicographic order on choices.
  predicate Before(a: seq<nat>, b: seq<nat>) {
    a == [] || (b != [] && (a[0] < b[0] || (a[0] == b[0] && Before(a[1..], b[1..]))))
  }

  // No path at all leads from n to a goal while avoiding avoid.
  ghost predicate Dead<N>(g: Graph<N>, n: N, avoid: set<N>) {
    forall cs :: !Leads(g, n, cs, avoid)
  }

  datatype Found = NotFound | Found(path: seq<nat>)

  // ---- The reference: recurse over simple paths, first choice first ----

  ghost function Best<N>(g: Graph<N>, n: N, avoid: set<N>): Found
    requires g.Valid() && n in g.succ
    decreases |g.guarded - avoid|, g.rank[n], |g.succ[n]| + 1
  {
    if n in avoid then NotFound
    else if n in g.goals then Found([])
    else
      Shrinks(g, n, avoid);
      BestOf(g, g.succ[n], 0, g.Level(n), g.With(avoid, n))
  }

  ghost function BestOf<N>(g: Graph<N>, ms: seq<N>, i: nat, level: nat, avoid: set<N>): Found
    requires g.Valid() && i <= |ms| && forall j :: 0 <= j < |ms| ==> ms[j] in g.succ && g.rank[ms[j]] < level
    decreases |g.guarded - avoid|, level, |ms| - i
  {
    if i == |ms| then NotFound
    else
      match Best(g, ms[i], avoid)
      case Found(cs) => Found([i] + cs)
      case NotFound => BestOf(g, ms, i + 1, level, avoid)
  }

  lemma Shrinks<N>(g: Graph<N>, n: N, avoid: set<N>)
    requires n in g.guarded ==> n !in avoid
    ensures n in g.guarded ==> |g.guarded - g.With(avoid, n)| < |g.guarded - avoid|
  {
    if n in g.guarded {
      assert g.guarded - g.With(avoid, n) == (g.guarded - avoid) - {n};
    }
  }

  // Best is the least simple path, and finds none only when there is none.
  lemma {:induction false} BestIsLeast<N>(g: Graph<N>, n: N, avoid: set<N>)
    requires g.Valid() && n in g.succ
    ensures var b := Best(g, n, avoid);
            && (b.Found? ==> Simple(g, n, b.path, avoid))
            && (forall cs :: Simple(g, n, cs, avoid) ==> b.Found? && Before(b.path, cs))
    decreases |g.guarded - avoid|, g.rank[n], |g.succ[n]| + 1
  {
    if n !in avoid && n !in g.goals {
      Shrinks(g, n, avoid);
      BestOfIsLeast(g, g.succ[n], 0, g.Level(n), g.With(avoid, n));
    }
  }

  lemma {:induction false} BestOfIsLeast<N>(g: Graph<N>, ms: seq<N>, i: nat, level: nat, avoid: set<N>)
    requires g.Valid() && i <= |ms| && forall j :: 0 <= j < |ms| ==> ms[j] in g.succ && g.rank[ms[j]] < level
    ensures var b := BestOf(g, ms, i, level, avoid);
            && (b.Found? ==> b.path != [] && i <= b.path[0] < |ms| && Simple(g, ms[b.path[0]], b.path[1..], avoid))
            && (forall cs :: cs != [] && i <= cs[0] < |ms| && Simple(g, ms[cs[0]], cs[1..], avoid) ==>
                 b.Found? && Before(b.path, cs))
    decreases |g.guarded - avoid|, level, |ms| - i
  {
    if i < |ms| {
      BestIsLeast(g, ms[i], avoid);
      BestOfIsLeast(g, ms, i + 1, level, avoid);
    }
  }

  // ---- Cutting loops ----

  lemma {:induction false} SimpleLeads<N>(g: Graph<N>, n: N, cs: seq<nat>, avoid: set<N>)
    requires Simple(g, n, cs, avoid)
    ensures Leads(g, n, cs, avoid)
    decreases |cs|
  {
    if n !in g.goals {
      SimpleLeads(g, g.succ[n][cs[0]], cs[1..], g.With(avoid, n));
      LeadsWeaken(g, g.succ[n][cs[0]], cs[1..], g.With(avoid, n), avoid);
    }
  }

  lemma {:induction false} LeadsWeaken<N>(g: Graph<N>, n: N, cs: seq<nat>, more: set<N>, less: set<N>)
    requires Leads(g, n, cs, more) && less <= more
    ensures Leads(g, n, cs, less)
    decreases |cs|
  {
    if n !in g.goals {
      LeadsWeaken(g, g.succ[n][cs[0]], cs[1..], more, less);
    }
  }

  // A path either misses x or has a suffix that starts at x.
  lemma {:induction false} SplitAt<N>(g: Graph<N>, n: N, cs: seq<nat>, avoid: set<N>, x: N) returns (k: nat)
    requires Leads(g, n, cs, avoid)
    ensures k <= |cs| && (Leads(g, n, cs, avoid + {x}) || Leads(g, x, cs[k..], avoid))
    decreases |cs|
  {
    k := 0;
    assert cs[0..] == cs;
    if n != x && n !in g.goals {
      var j := SplitAt(g, g.succ[n][cs[0]], cs[1..], avoid, x);
      assert cs[1..][j..] == cs[j + 1..];
      k := j + 1;
    }
  }

  // Where some path leads, a simple one does.
  lemma {:induction false} CutLoops<N>(g: Graph<N>, n: N, cs: seq<nat>, avoid: set<N>) returns (simple: seq<nat>)
    requires Leads(g, n, cs, avoid)
    ensures Simple(g, n, simple, avoid)
    decreases |cs|
  {
    simple := [];
    if n !in g.goals {
      var m, tail := g.succ[n][cs[0]], cs[1..];
      var k := SplitAt(g, m, tail, avoid, n);
      if n !in g.guarded || Leads(g, m, tail, avoid + {n}) {
        var rest := CutLoops(g, m, tail, g.With(avoid, n));
        simple := [cs[0]] + rest;
      } else {
        simple := CutLoops(g, n, tail[k..], avoid);
      }
    }
  }

  lemma BestFindsOrDead<N>(g: Graph<N>, n: N, avoid: set<N>)
    requires g.Valid() && n in g.succ
    ensures Best(g, n, avoid).NotFound? <==> Dead(g, n, avoid)
  {
    BestIsLeast(g, n, avoid);
    var b := Best(g, n, avoid);
    if b.Found? {
      SimpleLeads(g, n, b.path, avoid);
    } else {
      forall cs ensures !Leads(g, n, cs, avoid) {
        if Leads(g, n, cs, avoid) {
          var simple := CutLoops(g, n, cs, avoid);
        }
      }
    }
  }

  // ---- The search with marks ----

  datatype Outcome<N> = Outcome(found: Found, marks: set<N>, steps: nat)

  ghost function Search<N>(g: Graph<N>, n: N, marks: set<N>): (o: Outcome<N>)
    requires g.Valid() && n in g.succ
    ensures marks <= o.marks <= marks + g.guarded
    decreases |g.guarded - marks|, g.rank[n], |g.succ[n]| + 1
  {
    if n in g.guarded && n in marks then Outcome(NotFound, marks, 1)
    else if n in g.goals then Outcome(Found([]), marks, 1)
    else
      Shrinks(g, n, marks);
      var o := SearchOf(g, g.succ[n], 0, g.Level(n), g.With(marks, n));
      o.(steps := o.steps + 1)
  }

  ghost function SearchOf<N>(g: Graph<N>, ms: seq<N>, i: nat, level: nat, marks: set<N>): (o: Outcome<N>)
    requires g.Valid() && i <= |ms| && forall j :: 0 <= j < |ms| ==> ms[j] in g.succ && g.rank[ms[j]] < level
    ensures marks <= o.marks <= marks + g.guarded
    decreases |g.guarded - marks|, level, |ms| - i
  {
    if i == |ms| then Outcome(NotFound, marks, 0)
    else
      var o := Search(g, ms[i], marks);
      if o.found.Found? then o.(found := Found([i] + o.found.path))
      else
        FewerLeft(g, marks, o.marks);
        var p := SearchOf(g, ms, i + 1, level, o.marks);
        p.(steps := p.steps + o.steps + 1)
  }

  lemma FewerLeft<N>(g: Graph<N>, a: set<N>, b: set<N>)
    requires a <= b
    ensures |g.guarded - b| <= |g.guarded - a|
  {
    SubsetSize(g.guarded - b, g.guarded - a);
  }

  // Marks off the current path are spent: nothing leads from them except across the path.
  ghost predicate Spent<N>(g: Graph<N>, marks: set<N>, path: set<N>) {
    path <= marks && forall b :: b in marks && b !in path ==> Dead(g, b, path)
  }

  lemma SpentOn<N>(g: Graph<N>, marks: set<N>, path: set<N>, n: N)
    requires g.Valid() && n in g.succ && n !in marks && Spent(g, marks, path)
    ensures Spent(g, g.With(marks, n), g.With(path, n))
  {
    forall b | b in g.With(marks, n) && b !in g.With(path, n) ensures Dead(g, b, g.With(path, n)) {
      forall cs ensures !Leads(g, b, cs, g.With(path, n)) {
        if Leads(g, b, cs, g.With(path, n)) {
          LeadsWeaken(g, b, cs, g.With(path, n), path);
        }
      }
    }
  }

  lemma SpentOff<N>(g: Graph<N>, marks: set<N>, path: set<N>, n: N)
    requires Spent(g, marks, path + {n}) && Dead(g, n, path)
    ensures Spent(g, marks, path)
  {
    forall b | b in marks && b !in path ensures Dead(g, b, path) {
      forall cs ensures !Leads(g, b, cs, path) {
        if Leads(g, b, cs, path) {
          var k := SplitAt(g, b, cs, path, n);
        }
      }
    }
  }

  // The marking search finds exactly the reference path; when it fails, all its marks are spent.
  lemma {:induction false} SearchIsBest<N>(g: Graph<N>, n: N, marks: set<N>, path: set<N>)
    requires g.Valid() && n in g.succ && path <= g.guarded && Spent(g, marks, path)
    ensures var o := Search(g, n, marks);
            && o.found == Best(g, n, path)
            && (o.found.NotFound? ==> Spent(g, o.marks, path))
    decreases |g.guarded - marks|, g.rank[n], |g.succ[n]| + 1
  {
    BestFindsOrDead(g, n, path);
    if n !in g.goals && !(n in g.guarded && n in marks) {
      Shrinks(g, n, marks);
      if n in g.guarded {
        SpentOn(g, marks, path, n);
      }
      SearchOfIsBest(g, g.succ[n], 0, g.Level(n), g.With(marks, n), g.With(path, n));
      var o := Search(g, n, marks);
      if o.found.NotFound? && n in g.guarded {
        SpentOff(g, o.marks, path, n);
      }
    }
  }

  lemma {:induction false} SearchOfIsBest<N>(g: Graph<N>, ms: seq<N>, i: nat, level: nat, marks: set<N>, path: set<N>)
    requires g.Valid() && i <= |ms| && forall j :: 0 <= j < |ms| ==> ms[j] in g.succ && g.rank[ms[j]] < level
    requires path <= g.guarded && Spent(g, marks, path)
    ensures var o := SearchOf(g, ms, i, level, marks);
            && o.found == BestOf(g, ms, i, level, path)
            && (o.found.NotFound? ==> Spent(g, o.marks, path))
    decreases |g.guarded - marks|, level, |ms| - i
  {
    if i < |ms| {
      SearchIsBest(g, ms[i], marks, path);
      var o := Search(g, ms[i], marks);
      if o.found.NotFound? {
        FewerLeft(g, marks, o.marks);
        SearchOfIsBest(g, ms, i + 1, level, o.marks, path);
      }
    }
  }

  // The guarded nodes of a path.
  ghost function OnPath<N>(g: Graph<N>, n: N, cs: seq<nat>): set<N> {
    set x | x in Nodes(g, n, cs) && x in g.guarded
  }

  // After a success, every mark off the found path is spent: nothing leads from it except across that path.
  lemma {:induction false} SuccessSpent<N>(g: Graph<N>, n: N, marks: set<N>, path: set<N>)
    requires g.Valid() && n in g.succ && path <= g.guarded && Spent(g, marks, path)
    requires Search(g, n, marks).found.Found?
    ensures var o := Search(g, n, marks);
            forall b :: b in o.marks && b !in path + OnPath(g, n, o.found.path) ==>
                Dead(g, b, path + OnPath(g, n, o.found.path))
    decreases |g.guarded - marks|, g.rank[n], |g.succ[n]| + 1
  {
    var o := Search(g, n, marks);
    if n in g.goals {
      assert OnPath(g, n, []) == if n in g.guarded then {n} else {};
      if n in g.guarded {
        SpentOn(g, marks, path, n);
      }
      assert path + OnPath(g, n, []) == g.With(path, n);
    } else {
      Shrinks(g, n, marks);
      if n in g.guarded {
        SpentOn(g, marks, path, n);
      }
      SuccessSpentOf(g, g.succ[n], 0, g.Level(n), g.With(marks, n), g.With(path, n));
      var c, tail := o.found.path[0], o.found.path[1..];
      var m := g.succ[n][c];
      assert Nodes(g, n, o.found.path) == [n] + Nodes(g, m, tail);
      assert path + OnPath(g, n, o.found.path) == g.With(path, n) + OnPath(g, m, tail);
    }
  }

  lemma {:induction false} SuccessSpentOf<N>(g: Graph<N>, ms: seq<N>, i: nat, level: nat, marks: set<N>, path: set<N>)
    requires g.Valid() && i <= |ms| && forall j :: 0 <= j < |ms| ==> ms[j] in g.succ && g.rank[ms[j]] < level
    requires path <= g.guarded && Spent(g, marks, path) && SearchOf(g, ms, i, level, marks).found.Found?
    ensures var o := SearchOf(g, ms, i, level, marks);
            && o.found.path != [] && i <= o.found.path[0] < |ms|
            && var on := path + OnPath(g, ms[o.found.path[0]], o.found.path[1..]);
               forall b :: b in o.marks && b !in on ==> Dead(g, b, on)
    decreases |g.guarded - marks|, level, |ms| - i
  {
    SearchIsBest(g, ms[i], marks, path);
    var o := Search(g, ms[i], marks);
    if o.found.Found? {
      SuccessSpent(g, ms[i], marks, path);
      assert ([i] + o.found.path)[1..] == o.found.path;
    } else {
      FewerLeft(g, marks, o.marks);
      SuccessSpentOf(g, ms, i + 1, level, o.marks, path);
    }
  }
}
