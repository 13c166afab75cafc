/** Which nodes a search marks does not change its answer, as long as every cycle crosses a marked node. */
module PathGuards {
  import opened PrioritySearch

  // The same graph with every node guarded: a path is then simple when it repeats nothing at all.
  function FullyGuarded<N>(g: Graph<N>): (h: Graph<N>)
    requires g.Valid()
    ensures h.Valid() && h.succ == g.succ && h.goals == g.goals && h.guarded == g.succ.Keys
  {
    g.(guarded := g.succ.Keys)
  }

  lemma {:induction false} BeforeAntisymmetric(a: seq<nat>, b: seq<nat>)
    requires Before(a, b) && Before(b, a)
    ensures a == b
  {
    if a != [] && b != [] {
      BeforeAntisymmetric(a[1..], b[1..]);
      assert a == [a[0]] + a[1..] && b == [b[0]] + b[1..];
    }
  }

  // Two graphs with the same simple paths have the same least one.
  lemma SameBest<N>(g: Graph<N>, h: Graph<N>, n: N)
    requires g.Valid() && h.Valid() && n in g.succ && n in h.succ
    requires forall cs :: Simple(g, n, cs, {}) <==> Simple(h, n, cs, {})
    ensures Best(g, n, {}) == Best(h, n, {})
  {
    BestIsLeast(g, n, {});
    BestIsLeast(h, n, {});
    var a, b := Best(g, n, {}), Best(h, n, {});
    if a.Found? {
      assert Simple(h, n, a.path, {});
      assert Simple(g, n, b.path, {});
      BeforeAntisymmetric(a.path, b.path);
    }
  }

  lemma {:induction false} FullSimpleIsSimple<N>(g: Graph<N>, n: N, cs: seq<nat>, more: set<N>, less: set<N>)
    requires g.Valid() && less <= more && Simple(FullyGuarded(g), n, cs, more)
    ensures Simple(g, n, cs, less)
    decreases |cs|
  {
    if n !in g.goals {
      FullSimpleIsSimple(g, g.succ[n][cs[0]], cs[1..], more + {n}, g.With(less, n));
    }
  }

  // ---- No guards at all, in an acyclic graph ----

  lemma {:induction false} AcyclicSimple<N>(g: Graph<N>, n: N, cs: seq<nat>, seen: set<N>)
    requires g.Valid() && g.guarded == {} && Leads(g, n, cs, {})
    requires forall u :: u in seen ==> u in g.rank && g.rank[n] < g.rank[u]
    ensures Simple(FullyGuarded(g), n, cs, seen)
    decreases |cs|
  {
    if n !in g.goals {
      AcyclicSimple(g, g.succ[n][cs[0]], cs[1..], seen + {n});
    }
  }

  lemma UnguardedBest<N>(g: Graph<N>, n: N)
    requires g.Valid() && g.guarded == {} && n in g.succ
    ensures Best(g, n, {}) == Best(FullyGuarded(g), n, {})
    ensures forall cs :: Leads(g, n, cs, {}) ==> Best(g, n, {}).Found? && Before(Best(g, n, {}).path, cs)
  {
    forall cs ensures Simple(g, n, cs, {}) <==> Simple(FullyGuarded(g), n, cs, {}) {
      if Simple(g, n, cs, {}) {
        SimpleLeads(g, n, cs, {});
        AcyclicSimple(g, n, cs, {});
      }
      if Simple(FullyGuarded(g), n, cs, {}) {
        FullSimpleIsSimple(g, n, cs, {}, {});
      }
    }
    SameBest(g, FullyGuarded(g), n);
    BestIsLeast(g, n, {});
    forall cs | Leads(g, n, cs, {}) ensures Simple(g, n, cs, {}) {
      AcyclicSimple(g, n, cs, {});
      FullSimpleIsSimple(g, n, cs, {}, {});
    }
  }

  // ---- Guards at every branching node ----

  ghost predicate Deterministic<N>(g: Graph<N>) {
    forall n :: n in g.succ && n !in g.guarded ==> |g.succ[n]| <= 1
  }

  // Past unguarded nodes cannot be met again: each is dead now, or reaches anything only through n.
  ghost predicate Behind<N>(g: Graph<N>, n: N, path: set<N>, seen: set<N>) {
    forall u :: u in seen ==>
      Dead(g, u, path) || (u in g.rank && n in g.rank && g.rank[n] < g.rank[u] && Dead(g, u, path + {n}))
  }

  lemma OnlyThrough<N>(g: Graph<N>, n: N, m: N, cs: seq<nat>, avoid: set<N>)
    requires n in g.succ && n !in g.goals && g.succ[n] == [m] && m in avoid
    ensures !Leads(g, n, cs, avoid)
  {
    if cs != [] {
      assert !Leads(g, m, cs[1..], avoid);
    }
  }

  lemma DeadThrough<N>(g: Graph<N>, u: N, n: N, m: N, path: set<N>)
    requires g.Valid() && n in g.succ && n !in g.goals && g.succ[n] == [m]
    requires u == n || Dead(g, u, path + {n})
    ensures Dead(g, u, path + {m})
  {
    forall cs ensures !Leads(g, u, cs, path + {m}) {
      OnlyThrough(g, n, m, cs, path + {m});
      if u != n && Leads(g, u, cs, path + {m}) {
        var k := SplitAt(g, u, cs, path + {m}, n);
        OnlyThrough(g, n, m, cs[k..], path + {m});
        LeadsWeaken(g, u, cs, path + {m} + {n}, path + {n});
      }
    }
  }

  lemma {:induction false} GuardedSimple<N>(g: Graph<N>, n: N, cs: seq<nat>, path: set<N>, seen: set<N>)
    requires g.Valid() && Deterministic(g) && Simple(g, n, cs, path) && Behind(g, n, path, seen)
    ensures Simple(FullyGuarded(g), n, cs, path + seen)
    decreases |cs|
  {
    SimpleLeads(g, n, cs, path);
    if n !in g.goals {
      var m := g.succ[n][cs[0]];
      if n in g.guarded {
        forall u | u in seen ensures Dead(g, u, path + {n}) {
          forall c ensures !Leads(g, u, c, path + {n}) {
            if Leads(g, u, c, path + {n}) {
              LeadsWeaken(g, u, c, path + {n}, path);
            }
          }
        }
        GuardedSimple(g, m, cs[1..], path + {n}, seen);
        assert path + {n} + seen == path + seen + {n};
      } else {
        forall u | u in seen + {n} ensures Dead(g, u, path) ||
          (u in g.rank && g.rank[m] < g.rank[u] && Dead(g, u, path + {m})) {
          if u == n || !Dead(g, u, path) {
            DeadThrough(g, u, n, m, path);
          }
        }
        GuardedSimple(g, m, cs[1..], path, seen + {n});
        assert path + (seen + {n}) == path + seen + {n};
      }
    }
  }

  // Marking only the branching nodes finds the least path that repeats no node at all.
  lemma GuardedBest<N>(g: Graph<N>, n: N)
    requires g.Valid() && Deterministic(g) && n in g.succ
    ensures Best(g, n, {}) == Best(FullyGuarded(g), n, {})
  {
    forall cs ensures Simple(g, n, cs, {}) <==> Simple(FullyGuarded(g), n, cs, {}) {
      if Simple(g, n, cs, {}) {
        var none: set<N> := {};
        GuardedSimple(g, n, cs, none, none);
        assert none + none == none;
      }
      if Simple(FullyGuarded(g), n, cs, {}) {
        FullSimpleIsSimple(g, n, cs, {}, {});
      }
    }
    SameBest(g, FullyGuarded(g), n);
  }
}
