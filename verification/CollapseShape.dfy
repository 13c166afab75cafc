/** The tree a collapse leaves: no repeat over nothing but assertions, and smaller exactly when it says it changed. */
module CollapseShape {
  import opened BtProgram
  import opened RegexpTree
  import opened Rewriting = Collapse

  // ---- What is left of a tree ----

  function Parts(re: Regexp): (parts: seq<Regexp>)
    ensures forall i :: 0 <= i < |parts| ==> parts[i] < re
  {
    match re
    case Capturing(_, x) => [x]
    case Star(x, _) => [x]
    case Plus(x, _) => [x]
    case Quest(x, _) => [x]
    case Repeat(x, _, _, _) => [x]
    case Concat(subs) => subs
    case Alternate(subs) => subs
    case _ => []
  }

  // x is the tree, or somewhere below its root.
  ghost predicate Inside(x: Regexp, re: Regexp) {
    x == re || exists i :: 0 <= i < |Parts(re)| && Inside(x, Parts(re)[i])
  }

  predicate IsRepeat(x: Regexp) {
    x.Star? || x.Plus? || x.Quest? || x.Repeat?
  }

  // A group, or a leaf that is neither an assertion nor the empty match.
  predicate IsMore(x: Regexp) {
    x.Capturing? || x.Never? || x.Literal? || x.Class? || x.AnyChar? || x.AnyCharNotNL?
  }

  ghost predicate HoldsMore(re: Regexp) {
    exists x :: Inside(x, re) && IsMore(x)
  }

  // Every repeat left repeats something that could read a byte, fail, or capture.
  ghost predicate Clean(re: Regexp) {
    forall x :: Inside(x, re) && IsRepeat(x) ==> HoldsMore(x.sub)
  }

  lemma {:induction false} InsidePart(x: Regexp, re: Regexp, i: nat)
    requires i < |Parts(re)| && Inside(x, Parts(re)[i])
    ensures Inside(x, re)
  {
  }

  // The recogniser tells exactly the trees of assertions and empty matches, without a group.
  lemma {:induction false} OnlyEmptyIs(re: Regexp)
    ensures MatchesOnlyEmpty(re) <==> !HoldsMore(re)
    decreases re
  {
    forall i | 0 <= i < |Parts(re)| ensures MatchesOnlyEmpty(Parts(re)[i]) <==> !HoldsMore(Parts(re)[i]) {
      OnlyEmptyIs(Parts(re)[i]);
    }
    MoreBelow(re);
    OnlyEmptyBelow(re);
  }

  lemma {:induction false} OnlyEmptyBelow(re: Regexp)
    ensures MatchesOnlyEmpty(re) <==> !IsMore(re) && forall i :: 0 <= i < |Parts(re)| ==> MatchesOnlyEmpty(Parts(re)[i])
  {
    match re
    case Concat(subs) => assert Parts(re) == subs;
    case Alternate(subs) => assert Parts(re) == subs;
    case Star(x, _) => assert Parts(re)[0] == x;
    case Plus(x, _) => assert Parts(re)[0] == x;
    case Quest(x, _) => assert Parts(re)[0] == x;
    case Repeat(x, _, _, _) => assert Parts(re)[0] == x;
    case _ =>
  }

  lemma {:induction false} MoreBelow(re: Regexp)
    ensures HoldsMore(re) <==> IsMore(re) || exists i :: 0 <= i < |Parts(re)| && HoldsMore(Parts(re)[i])
  {
    if i :| 0 <= i < |Parts(re)| && HoldsMore(Parts(re)[i]) {
      var x :| Inside(x, Parts(re)[i]) && IsMore(x);
      InsidePart(x, re, i);
    }
    if HoldsMore(re) && !IsMore(re) {
      var x :| Inside(x, re) && IsMore(x);
      var i :| 0 <= i < |Parts(re)| && Inside(x, Parts(re)[i]);
      assert HoldsMore(Parts(re)[i]);
    }
    assert IsMore(re) ==> Inside(re, re);
  }

  lemma {:induction false} CleanIs(re: Regexp)
    requires forall i :: 0 <= i < |Parts(re)| ==> Clean(Parts(re)[i])
    requires IsRepeat(re) ==> !MatchesOnlyEmpty(re.sub)
    ensures Clean(re)
  {
    forall x | Inside(x, re) && IsRepeat(x) ensures HoldsMore(x.sub) {
      if x == re {
        OnlyEmptyIs(re.sub);
      } else {
        var i :| 0 <= i < |Parts(re)| && Inside(x, Parts(re)[i]);
        assert Clean(Parts(re)[i]);
      }
    }
  }

  lemma {:induction false} KeptFrom(subs: seq<Regexp>)
    ensures forall x :: x in Kept(subs) ==> x in subs && !x.EmptyMatch?
  {
    if subs != [] {
      KeptFrom(subs[1..]);
      assert subs == [subs[0]] + subs[1..];
    }
  }

  lemma {:induction false} CollapseIsClean(re: Regexp)
    ensures Clean(Collapse(re).re)
    decreases re
  {
    match re
    case Capturing(_, x) => CollapseIsClean(x); CleanIs(Collapse(re).re);
    case Star(x, _) => CollapseIsClean(x); CleanIs(Collapse(re).re);
    case Plus(x, _) => CollapseIsClean(x); RepeatIsClean(re);
    case Quest(x, _) => CollapseIsClean(x); CleanIs(Collapse(re).re);
    case Repeat(x, _, _, _) => CollapseIsClean(x); RepeatIsClean(re);
    case Concat(subs) =>
      AllClean(subs);
      RejoinIsClean(Trees(CollapseAll(subs)));
      ListIsClean(Trees(CollapseAll(subs)));
    case Alternate(subs) =>
      AllClean(subs);
      ListIsClean(Trees(CollapseAll(subs)));
    case _ => CleanIs(re);
  }

  lemma {:induction false} AllClean(subs: seq<Regexp>)
    ensures forall i :: 0 <= i < |subs| ==> Clean(Trees(CollapseAll(subs))[i])
    decreases subs, 0
  {
    forall i | 0 <= i < |subs| ensures Clean(Trees(CollapseAll(subs))[i]) {
      CollapseIsClean(subs[i]);
    }
  }

  lemma {:induction false} ListIsClean(subs: seq<Regexp>)
    requires forall i :: 0 <= i < |subs| ==> Clean(subs[i])
    ensures Clean(Concat(subs)) && Clean(Alternate(subs))
  {
    assert Parts(Concat(subs)) == subs == Parts(Alternate(subs));
    CleanIs(Concat(subs));
    CleanIs(Alternate(subs));
  }

  lemma {:induction false} RepeatIsClean(re: Regexp)
    requires (re.Plus? || re.Repeat?) && Clean(Collapse(re.sub).re)
    ensures Clean(Collapse(re).re)
  {
    CleanIs(EmptyMatch);
    if !MatchesOnlyEmpty(Collapse(re.sub).re) {
      CleanIs(Collapse(re).re);
    }
  }

  lemma {:induction false} RejoinIsClean(subs: seq<Regexp>)
    requires forall i :: 0 <= i < |subs| ==> Clean(subs[i])
    ensures Clean(Rejoin(subs))
  {
    KeptFrom(subs);
    var kept := Kept(subs);
    forall i | 0 <= i < |kept| ensures Clean(kept[i]) {
      assert kept[i] in kept;
    }
    CleanIs(EmptyMatch);
    ListIsClean(kept);
  }

  // And when nothing changed, it is the same tree.
  lemma {:induction false} UnchangedIsSame(re: Regexp)
    requires !Collapse(re).changed
    ensures Collapse(re).re == re
    decreases re
  {
    match re
    case Capturing(_, x) => UnchangedIsSame(x);
    case Star(x, _) => UnchangedIsSame(x);
    case Plus(x, _) => UnchangedIsSame(x);
    case Quest(x, _) => UnchangedIsSame(x);
    case Repeat(x, _, _, _) => UnchangedIsSame(x);
    case Concat(subs) =>
      forall i | 0 <= i < |subs| ensures Collapse(subs[i]).re == subs[i] {
        assert !CollapseAll(subs)[i].changed;
        UnchangedIsSame(subs[i]);
      }
      assert Trees(CollapseAll(subs)) == subs;
    case Alternate(subs) =>
      forall i | 0 <= i < |subs| ensures Collapse(subs[i]).re == subs[i] {
        assert !CollapseAll(subs)[i].changed;
        UnchangedIsSame(subs[i]);
      }
      assert Trees(CollapseAll(subs)) == subs;
    case _ =>
  }

  // ---- What a change leaves ----

  function Size(re: Regexp): (n: nat)
    ensures n >= 1
  {
    match re
    case Capturing(_, x) => 1 + Size(x)
    case Star(x, _) => 1 + Size(x)
    case Plus(x, _) => 1 + Size(x)
    case Quest(x, _) => 1 + Size(x)
    case Repeat(x, _, _, _) => 1 + Size(x)
    case Concat(subs) => 1 + SizeAll(subs)
    case Alternate(subs) => 1 + SizeAll(subs)
    case _ => 1
  }

  function SizeAll(subs: seq<Regexp>): nat {
    if subs == [] then 0 else Size(subs[0]) + SizeAll(subs[1..])
  }

  // A rewrite never grows a tree, and reports a change exactly when it shrank it.
  lemma {:induction false} ChangedIsSmaller(re: Regexp)
    ensures Size(Collapse(re).re) <= Size(re)
    ensures Collapse(re).changed <==> Size(Collapse(re).re) < Size(re)
    ensures Collapse(re).changed <==> Collapse(re).re != re
    decreases re, 1
  {
    if !Collapse(re).changed {
      UnchangedIsSame(re);
    }
    match re
    case Capturing(_, x) => ChangedIsSmaller(x);
    case Star(x, _) => ChangedIsSmaller(x);
    case Plus(x, _) => ChangedIsSmaller(x);
    case Quest(x, _) => ChangedIsSmaller(x);
    case Repeat(x, _, _, _) => ChangedIsSmaller(x);
    case Concat(subs) => ConcatSmaller(subs);
    case Alternate(subs) => AllSmaller(subs);
    case _ =>
  }

  lemma {:induction false} ConcatSmaller(subs: seq<Regexp>)
    ensures var c := Collapse(Concat(subs));
            Size(c.re) <= Size(Concat(subs)) && (c.changed <==> Size(c.re) < Size(Concat(subs)))
    decreases subs, 1
  {
    AllSmaller(subs);
    RejoinSize(Trees(CollapseAll(subs)));
  }

  lemma {:induction false} AllSmaller(subs: seq<Regexp>)
    ensures var rs := CollapseAll(subs);
            && SizeAll(Trees(rs)) <= SizeAll(subs)
            && (SizeAll(Trees(rs)) < SizeAll(subs) <==> exists i :: 0 <= i < |rs| && rs[i].changed)
    decreases subs, 0
  {
    if subs != [] {
      var rs, rest := CollapseAll(subs), CollapseAll(subs[1..]);
      ChangedIsSmaller(subs[0]);
      AllSmaller(subs[1..]);
      assert Trees(rs)[1..] == Trees(rest);
      assert forall i :: 0 < i < |rs| ==> rs[i] == rest[i - 1];
    }
  }

  lemma {:induction false} RejoinSize(subs: seq<Regexp>)
    ensures Size(Rejoin(subs)) <= Size(Concat(subs))
  {
    KeptSize(subs);
    var kept := Kept(subs);
    if |kept| == 1 {
      assert SizeAll(kept) == Size(kept[0]) + SizeAll(kept[1..]);
    }
  }

  lemma {:induction false} SizeCons(x: Regexp, rest: seq<Regexp>)
    ensures SizeAll([x] + rest) == Size(x) + SizeAll(rest)
  {
    assert ([x] + rest)[1..] == rest;
  }

  lemma {:induction false} KeptSize(subs: seq<Regexp>)
    ensures SizeAll(Kept(subs)) <= SizeAll(subs)
  {
    if subs != [] {
      KeptSize(subs[1..]);
      SizeCons(subs[0], Kept(subs[1..]));
      assert [] + Kept(subs[1..]) == Kept(subs[1..]);
    }
  }

  // A changed concatenation is its collapsed parts joined again: empty matches drop out, one part stands alone, none
  // is the empty match, and two or more stay a concatenation.
  lemma {:induction false} RejoinLaws(a: seq<Regexp>, x: Regexp, b: seq<Regexp>)
    ensures Rejoin(a + [EmptyMatch] + b) == Rejoin(a + b)
    ensures Rejoin([]) == EmptyMatch && Rejoin([x]) == x
    ensures |a| >= 2 && EmptyMatch !in a ==> Rejoin(a) == Concat(a)
  {
    EmptyDrops(a, b);
    KeptOne(x);
    if EmptyMatch !in a {
      KeptAll(a);
    }
  }

  lemma {:induction false} EmptyDrops(a: seq<Regexp>, b: seq<Regexp>)
    ensures Kept(a + [EmptyMatch] + b) == Kept(a + b)
  {
    KeptConcat(a + [EmptyMatch], b);
    KeptConcat(a, [EmptyMatch]);
    KeptConcat(a, b);
    KeptOne(EmptyMatch);
  }

  lemma {:induction false} KeptOne(x: Regexp)
    ensures Kept([x]) == if x == EmptyMatch then [] else [x]
  {
    assert Kept([x][1..]) == [];
  }

  lemma {:induction false} KeptAll(a: seq<Regexp>)
    requires EmptyMatch !in a
    ensures Kept(a) == a
  {
    if a != [] {
      assert a == [a[0]] + a[1..] && a[0] in a;
      KeptAll(a[1..]);
    }
  }

  lemma {:induction false} ChangedConcat(subs: seq<Regexp>)
    requires Collapse(Concat(subs)).changed
    ensures Collapse(Concat(subs)).re == Rejoin(Trees(CollapseAll(subs)))
    ensures exists i :: 0 <= i < |subs| && Collapse(subs[i]).changed
  {
    var rs := CollapseAll(subs);
    var i :| 0 <= i < |rs| && rs[i].changed;
    assert Collapse(subs[i]).changed;
  }

  lemma {:induction false} KeptConcat(a: seq<Regexp>, b: seq<Regexp>)
    ensures Kept(a + b) == Kept(a) + Kept(b)
  {
    if a == [] {
      assert a + b == b;
    } else {
      KeptConcat(a[1..], b);
      var first := if a[0].EmptyMatch? then [] else [a[0]];
      assert (a + b)[1..] == a[1..] + b && (a + b)[0] == a[0];
      assert first + (Kept(a[1..]) + Kept(b)) == first + Kept(a[1..]) + Kept(b);
    }
  }
}
