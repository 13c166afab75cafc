/** collapseZeroWidthRepeatsRe: a repeat over a body that matches only the empty string becomes the body itself, or an
    empty match, and nothing a match reports changes. */
module Collapse {
  import opened BtProgram
  import opened RegexpTree

  // Nothing but assertions and empty matches, and no capture.
  predicate MatchesOnlyEmpty(re: Regexp) {
    match re
    case EmptyMatch => true
    case Zero(_) => true
    case Star(x, _) => MatchesOnlyEmpty(x)
    case Plus(x, _) => MatchesOnlyEmpty(x)
    case Quest(x, _) => MatchesOnlyEmpty(x)
    case Repeat(x, _, _, _) => MatchesOnlyEmpty(x)
    case Concat(subs) => forall i :: 0 <= i < |subs| ==> MatchesOnlyEmpty(subs[i])
    case Alternate(subs) => forall i :: 0 <= i < |subs| ==> MatchesOnlyEmpty(subs[i])
    case _ => false
  }

  // A rewritten tree, and whether anything changed.
  datatype Rewritten = Rewritten(re: Regexp, changed: bool)

  function CollapseAll(subs: seq<Regexp>): (rs: seq<Rewritten>)
    ensures |rs| == |subs| && forall i :: 0 <= i < |subs| ==> rs[i] == Collapse(subs[i])
    decreases subs, 0
  {
    seq(|subs|, i requires 0 <= i < |subs| => Collapse(subs[i]))
  }

  function Trees(rs: seq<Rewritten>): (subs: seq<Regexp>)
    ensures |subs| == |rs| && forall i :: 0 <= i < |rs| ==> subs[i] == rs[i].re
  {
    seq(|rs|, i requires 0 <= i < |rs| => rs[i].re)
  }

  // A concatenation without its empty matches.
  function Kept(subs: seq<Regexp>): (kept: seq<Regexp>) {
    if subs == [] then [] else (if subs[0].EmptyMatch? then [] else [subs[0]]) + Kept(subs[1..])
  }

  function Rejoin(subs: seq<Regexp>): Regexp {
    var kept := Kept(subs);
    if kept == [] then EmptyMatch else if |kept| == 1 then kept[0] else Concat(kept)
  }

  // collapseZeroWidthRepeatsRe, bottom-up.
  function Collapse(re: Regexp): Rewritten
    decreases re, 1
  {
    match re
    case Capturing(k, x) => var c := Collapse(x); Rewritten(Capturing(k, c.re), c.changed)
    case Star(x, g) =>
      var c := Collapse(x);
      if MatchesOnlyEmpty(c.re) then Rewritten(EmptyMatch, true) else Rewritten(Star(c.re, g), c.changed)
    case Plus(x, g) =>
      var c := Collapse(x);
      if MatchesOnlyEmpty(c.re) then Rewritten(c.re, true) else Rewritten(Plus(c.re, g), c.changed)
    case Quest(x, g) =>
      var c := Collapse(x);
      if MatchesOnlyEmpty(c.re) then Rewritten(EmptyMatch, true) else Rewritten(Quest(c.re, g), c.changed)
    case Repeat(x, min, max, g) =>
      var c := Collapse(x);
      if MatchesOnlyEmpty(c.re) then Rewritten(if min >= 1 then c.re else EmptyMatch, true)
      else Rewritten(Repeat(c.re, min, max, g), c.changed)
    case Concat(subs) =>
      var rs := CollapseAll(subs);
      var changed := exists i :: 0 <= i < |rs| && rs[i].changed;
      Rewritten(if changed then Rejoin(Trees(rs)) else Concat(Trees(rs)), changed)
    case Alternate(subs) =>
      var rs := CollapseAll(subs);
      Rewritten(Alternate(Trees(rs)), exists i :: 0 <= i < |rs| && rs[i].changed)
    case _ => Rewritten(re, false)
  }

  // ---- Bodies that match only the empty string ----

  ghost predicate AllAre(rs: seq<State>, s: State) {
    forall r :: r in rs ==> r == s
  }

  lemma {:induction false} OneState(rs: seq<State>, s: State)
    requires AllAre(rs, s)
    ensures Distinct(rs) == if rs == [] then [] else [s]
  {
    if rs != [] {
      var init, last := rs[..|rs| - 1], rs[|rs| - 1];
      assert rs == init + [last] && last in rs && forall r :: r in init ==> r in rs;
      OneState(init, s);
    }
  }

  // What follows a list of one state only is what follows that state, if anything does.
  lemma {:induction false} SpreadStays(next: map<State, seq<State>>, from: seq<State>, s: State)
    requires AllAre(from, s) && (forall r :: r in from ==> r in next) && (s in from ==> AllAre(next[s], s))
    ensures AllAre(Spread(next, from), s)
    ensures Spread(next, from) == [] <==> from == [] || next[from[0]] == []
  {
    if from != [] {
      var init, last := from[..|from| - 1], from[|from| - 1];
      assert from == init + [last] && last in from && forall r :: r in init ==> r in from;
      SpreadStays(next, init, s);
      assert from[0] in from;
    }
  }

  // Such a body never moves, so what follows it starts where it does.
  lemma {:induction false} StaysPut(re: Regexp, u: bool, t: Text, s: State)
    requires MatchesOnlyEmpty(re) && s.pos <= |t|
    ensures AllAre(Runs(re, u, t, s), s)
    decreases re, 0
  {
    match re
    case Star(x, g) => LoopStays(x, g, u, t, s);
    case Plus(x, g) => LoopStays(x, g, u, t, s);
    case Quest(x, _) => StaysPut(x, u, t, s);
    case Repeat(x, min, max, g) => CountedStays(x, min, max, g, u, t, s);
    case Concat(_) => InTurnStays(re, 0, u, t, s);
    case Alternate(_) => OneOfStays(re, 0, u, t, s);
    case _ =>
  }

  lemma {:induction false} LoopStays(x: Regexp, g: bool, u: bool, t: Text, s: State)
    requires MatchesOnlyEmpty(x) && s.pos <= |t|
    ensures AllAre(Loop(x, g, u, t, s), s)
    ensures Loop(x, g, u, t, s) == [] <==> Runs(x, u, t, s) == []
    decreases x, 1
  {
    StaysPut(x, u, t, s);
    var once := Runs(x, u, t, s);
    SpreadStays(LoopNext(x, g, u, t, s.pos, once), once, s);
    assert once != [] ==> once[0] in once;
  }

  lemma {:induction false} AtLeastStays(x: Regexp, k: nat, g: bool, u: bool, t: Text, s: State)
    requires MatchesOnlyEmpty(x) && s.pos <= |t|
    ensures AllAre(AtLeast(x, k, g, u, t, s), s)
    ensures AtLeast(x, k, g, u, t, s) == [] <==> Runs(x, u, t, s) == []
    decreases x, 2, k
  {
    if k == 0 {
      LoopStays(x, g, u, t, s);
    } else {
      StaysPut(x, u, t, s);
      AtLeastStays(x, Less(k), g, u, t, s);
      var once := Runs(x, u, t, s);
      SpreadStays(AtLeastNext(x, Less(k), g, u, t, s.pos, once), once, s);
      assert once != [] ==> once[0] in once;
    }
  }

  lemma {:induction false} BetweenStays(x: Regexp, min: nat, max: nat, g: bool, u: bool, t: Text, s: State)
    requires MatchesOnlyEmpty(x) && s.pos <= |t|
    ensures AllAre(Between(x, min, max, g, u, t, s), s)
    ensures Between(x, min, max, g, u, t, s) == [] <==> min > 0 && Runs(x, u, t, s) == []
    decreases x, 2, min + max
  {
    if min > 0 || max > 0 {
      StaysPut(x, u, t, s);
      BetweenStays(x, Less(min), Less(max), g, u, t, s);
      var once := Runs(x, u, t, s);
      SpreadStays(BetweenNext(x, Less(min), Less(max), g, u, t, s.pos, once), once, s);
      assert once != [] ==> once[0] in once;
    }
  }

  lemma {:induction false} CountedStays(x: Regexp, min: nat, max: int, g: bool, u: bool, t: Text, s: State)
    requires MatchesOnlyEmpty(x) && s.pos <= |t|
    ensures AllAre(Counted(x, min, max, g, u, t, s), s)
    ensures Counted(x, min, max, g, u, t, s) == [] <==> min > 0 && Runs(x, u, t, s) == []
    decreases x, 3
  {
    if max >= 0 {
      BetweenStays(x, min, max, g, u, t, s);
    } else if min > 0 {
      AtLeastStays(x, Less(min), g, u, t, s);
    } else {
      LoopStays(x, g, u, t, s);
    }
  }

  lemma {:induction false} InTurnStays(re: Regexp, i: nat, u: bool, t: Text, s: State)
    requires MatchesOnlyEmpty(re) && re.Concat? && i <= |re.subs| && s.pos <= |t|
    ensures AllAre(InTurn(re, i, u, t, s), s)
    decreases re, 0, |re.subs| - i
  {
    if i < |re.subs| {
      StaysPut(re.subs[i], u, t, s);
      InTurnStays(re, i + 1, u, t, s);
      var once := Runs(re.subs[i], u, t, s);
      SpreadStays(InTurnNext(re, i + 1, u, t, s.pos, once), once, s);
    }
  }

  lemma {:induction false} OneOfStays(re: Regexp, i: nat, u: bool, t: Text, s: State)
    requires MatchesOnlyEmpty(re) && re.Alternate? && i <= |re.subs| && s.pos <= |t|
    ensures AllAre(OneOf(re, i, u, t, s), s)
    decreases re, 0, |re.subs| - i
  {
    if i < |re.subs| {
      StaysPut(re.subs[i], u, t, s);
      OneOfStays(re, i + 1, u, t, s);
    }
  }

  // Two lists that hold nothing but s prefer the same as soon as both or neither are empty.
  lemma BothOne(a: seq<State>, b: seq<State>, s: State)
    requires AllAre(a, s) && AllAre(b, s) && (a == [] <==> b == [])
    ensures Same(a, b)
  {
    OneState(a, s);
    OneState(b, s);
  }

  // ---- The rewrite keeps what is preferred ----

  // Interchangeable at every position of one text.
  ghost predicate Alike(x: Regexp, y: Regexp, u: bool, t: Text) {
    forall s: State :: AlikeAt(x, y, u, t, s)
  }

  ghost predicate AlikeAt(x: Regexp, y: Regexp, u: bool, t: Text, s: State) {
    s.pos <= |t| ==> Same(Runs(x, u, t, s), Runs(y, u, t, s))
  }

  lemma SameEither(g: bool, a: seq<State>, a': seq<State>, b: seq<State>)
    requires Same(a, a')
    ensures Same(Either(g, a, b), Either(g, a', b))
  {
    SameConcat(a, a', b, b);
    SameConcat(b, b, a, a');
  }

  lemma SameMembers(a: seq<State>, b: seq<State>)
    requires Same(a, b)
    ensures forall r :: r in a <==> r in b
  {
    DistinctMembers(a);
    DistinctMembers(b);
  }

  lemma {:induction false} LoopAlike(x: Regexp, y: Regexp, g: bool, u: bool, t: Text, s: State)
    requires Alike(x, y, u, t) && s.pos <= |t|
    ensures Same(Loop(x, g, u, t, s), Loop(y, g, u, t, s))
    decreases |t| - s.pos
  {
    assert AlikeAt(x, y, u, t, s);
    var a, b := Runs(x, u, t, s), Runs(y, u, t, s);
    SameMembers(a, b);
    var next, next' := LoopNext(x, g, u, t, s.pos, a), LoopNext(y, g, u, t, s.pos, b);
    forall r | r in a ensures Same(next[r], next'[r]) {
      if r.pos > s.pos {
        LoopAlike(x, y, g, u, t, r);
        SameEither(g, Loop(x, g, u, t, r), Loop(y, g, u, t, r), [r]);
      }
    }
    SpreadSame(next, next', a, b);
  }

  lemma AtLeastOnce(x: Regexp, y: Regexp, k: nat, g: bool, u: bool, t: Text, s: State)
    requires s.pos <= |t| && k > 0 && Same(Runs(x, u, t, s), Runs(y, u, t, s))
    requires forall r :: r in Runs(x, u, t, s) ==>
               Same(AtLeast(x, Less(k), g, u, t, r), AtLeast(y, Less(k), g, u, t, r))
    ensures Same(AtLeast(x, k, g, u, t, s), AtLeast(y, k, g, u, t, s))
  {
    var a, b := Runs(x, u, t, s), Runs(y, u, t, s);
    SameMembers(a, b);
    AtLeastIs(x, k, g, u, t, s);
    AtLeastIs(y, k, g, u, t, s);
    SpreadSame(AtLeastNext(x, Less(k), g, u, t, s.pos, a), AtLeastNext(y, Less(k), g, u, t, s.pos, b), a, b);
  }

  lemma AtLeastIs(x: Regexp, k: nat, g: bool, u: bool, t: Text, s: State)
    requires s.pos <= |t| && k > 0
    ensures var a := Runs(x, u, t, s);
            AtLeast(x, k, g, u, t, s) == Spread(AtLeastNext(x, Less(k), g, u, t, s.pos, a), a)
  {
  }

  lemma {:induction false} AtLeastAlike(x: Regexp, y: Regexp, k: nat, g: bool, u: bool, t: Text, s: State)
    requires Alike(x, y, u, t) && s.pos <= |t|
    ensures Same(AtLeast(x, k, g, u, t, s), AtLeast(y, k, g, u, t, s))
    decreases k
  {
    if k == 0 {
      LoopAlike(x, y, g, u, t, s);
    } else {
      assert AlikeAt(x, y, u, t, s);
      forall r | r in Runs(x, u, t, s) ensures Same(AtLeast(x, Less(k), g, u, t, r), AtLeast(y, Less(k), g, u, t, r)) {
        AtLeastAlike(x, y, Less(k), g, u, t, r);
      }
      AtLeastOnce(x, y, k, g, u, t, s);
    }
  }

  // One iteration, when what follows it prefers the same.
  lemma BetweenOnce(x: Regexp, y: Regexp, min: nat, max: nat, g: bool, u: bool, t: Text, s: State)
    requires s.pos <= |t| && min + max > 0 && Same(Runs(x, u, t, s), Runs(y, u, t, s))
    requires forall r :: r in Runs(x, u, t, s) ==>
               Same(Between(x, Less(min), Less(max), g, u, t, r), Between(y, Less(min), Less(max), g, u, t, r))
    ensures Same(Between(x, min, max, g, u, t, s), Between(y, min, max, g, u, t, s))
  {
    var a, b := Runs(x, u, t, s), Runs(y, u, t, s);
    SameMembers(a, b);
    var next := BetweenNext(x, Less(min), Less(max), g, u, t, s.pos, a);
    var next' := BetweenNext(y, Less(min), Less(max), g, u, t, s.pos, b);
    forall r | r in a ensures r in next && r in next' && Same(next[r], next'[r]) {
      assert r in b;
    }
    SpreadSame(next, next', a, b);
    SameEither(g, Spread(next, a), Spread(next', b), [s]);
  }

  lemma {:induction false} BetweenAlike(x: Regexp, y: Regexp, min: nat, max: nat, g: bool, u: bool, t: Text, s: State)
    requires Alike(x, y, u, t) && s.pos <= |t|
    ensures Same(Between(x, min, max, g, u, t, s), Between(y, min, max, g, u, t, s))
    decreases min + max
  {
    if min + max > 0 {
      assert AlikeAt(x, y, u, t, s);
      forall r | r in Runs(x, u, t, s)
        ensures Same(Between(x, Less(min), Less(max), g, u, t, r), Between(y, Less(min), Less(max), g, u, t, r))
      {
        BetweenAlike(x, y, Less(min), Less(max), g, u, t, r);
      }
      BetweenOnce(x, y, min, max, g, u, t, s);
    }
  }

  // Part by part.
  ghost predicate PartsAlike(xs: seq<Regexp>, ys: seq<Regexp>, i: nat, u: bool, t: Text)
    decreases |xs| - i
  {
    && i <= |xs| == |ys|
    && (i < |xs| ==> Alike(xs[i], ys[i], u, t) && PartsAlike(xs, ys, i + 1, u, t))
  }

  lemma InTurnOnce(x: Regexp, y: Regexp, i: nat, u: bool, t: Text, s: State)
    requires x.Concat? && y.Concat? && i < |x.subs| == |y.subs| && s.pos <= |t|
    requires Same(Runs(x.subs[i], u, t, s), Runs(y.subs[i], u, t, s))
    requires forall r :: r in Runs(x.subs[i], u, t, s) ==> Same(InTurn(x, i + 1, u, t, r), InTurn(y, i + 1, u, t, r))
    ensures Same(InTurn(x, i, u, t, s), InTurn(y, i, u, t, s))
  {
    var a, b := Runs(x.subs[i], u, t, s), Runs(y.subs[i], u, t, s);
    SameMembers(a, b);
    SpreadSame(InTurnNext(x, i + 1, u, t, s.pos, a), InTurnNext(y, i + 1, u, t, s.pos, b), a, b);
  }

  lemma {:induction false} InTurnAlike(x: Regexp, y: Regexp, i: nat, u: bool, t: Text, s: State)
    requires x.Concat? && y.Concat? && PartsAlike(x.subs, y.subs, i, u, t) && s.pos <= |t|
    ensures Same(InTurn(x, i, u, t, s), InTurn(y, i, u, t, s))
    decreases |x.subs| - i, 1
  {
    if i < |x.subs| {
      assert AlikeAt(x.subs[i], y.subs[i], u, t, s);
      RestAlike(x, y, i + 1, u, t, Runs(x.subs[i], u, t, s));
      InTurnOnce(x, y, i, u, t, s);
    }
  }

  lemma {:induction false} RestAlike(x: Regexp, y: Regexp, i: nat, u: bool, t: Text, rs: seq<State>)
    requires x.Concat? && y.Concat? && PartsAlike(x.subs, y.subs, i, u, t) && Within(rs, 0, |t|)
    ensures forall r :: r in rs ==> Same(InTurn(x, i, u, t, r), InTurn(y, i, u, t, r))
    decreases |x.subs| - i, 2
  {
    forall r | r in rs ensures Same(InTurn(x, i, u, t, r), InTurn(y, i, u, t, r)) {
      InTurnAlike(x, y, i, u, t, r);
    }
  }

  lemma {:induction false} OneOfAlike(x: Regexp, y: Regexp, i: nat, u: bool, t: Text, s: State)
    requires x.Alternate? && y.Alternate? && PartsAlike(x.subs, y.subs, i, u, t) && s.pos <= |t|
    ensures Same(OneOf(x, i, u, t, s), OneOf(y, i, u, t, s))
    decreases |x.subs| - i
  {
    if i < |x.subs| {
      assert AlikeAt(x.subs[i], y.subs[i], u, t, s);
      OneOfAlike(x, y, i + 1, u, t, s);
      SameConcat(Runs(x.subs[i], u, t, s), Runs(y.subs[i], u, t, s), OneOf(x, i + 1, u, t, s),
      OneOf(y, i + 1, u, t, s));
    }
  }

  // ---- Dropping empty matches from a concatenation ----

  lemma {:induction false} SpreadOne(next: map<State, seq<State>>, s: State)
    requires s in next
    ensures Spread(next, [s]) == next[s]
  {
    assert Spread(next, [s]) == Spread(next, [s][..0]) + next[s];
  }

  // A concatenation is its last part after the rest.
  lemma {:induction false} InTurnFrom(x: Regexp, y: Regexp, i: nat, j: nat, u: bool, t: Text, s: State)
    requires x.Concat? && y.Concat? && i <= |x.subs| && j <= |y.subs| && x.subs[i..] == y.subs[j..] && s.pos <= |t|
    ensures InTurn(x, i, u, t, s) == InTurn(y, j, u, t, s)
    decreases |x.subs| - i
  {
    assert |x.subs[i..]| == |y.subs[j..]|;
    if i < |x.subs| {
      assert x.subs[i] == x.subs[i..][0] == y.subs[j];
      assert x.subs[i + 1..] == x.subs[i..][1..] == y.subs[j + 1..];
      var once := Runs(x.subs[i], u, t, s);
      forall r | r in once ensures InTurn(x, i + 1, u, t, r) == InTurn(y, j + 1, u, t, r) {
        InTurnFrom(x, y, i + 1, j + 1, u, t, r);
      }
      SpreadEqual(InTurnNext(x, i + 1, u, t, s.pos, once), InTurnNext(y, j + 1, u, t, s.pos, once), once);
    }
  }

  lemma {:induction false} SpreadEqual(next: map<State, seq<State>>, next': map<State, seq<State>>, from: seq<State>)
    requires forall s :: s in from ==> s in next && s in next' && next[s] == next'[s]
    ensures Spread(next, from) == Spread(next', from)
  {
    if from != [] {
      var init, last := from[..|from| - 1], from[|from| - 1];
      assert from == init + [last];
      SpreadEqual(next, next', init);
    }
  }

  lemma {:induction false} SpreadSelf(next: map<State, seq<State>>, from: seq<State>)
    requires forall s :: s in from ==> s in next && next[s] == [s]
    ensures Spread(next, from) == from
  {
    if from != [] {
      var init, last := from[..|from| - 1], from[|from| - 1];
      assert from == init + [last];
      SpreadSelf(next, init);
    }
  }

  // An empty match contributes nothing but a node.
  lemma {:induction false} KeptRuns(subs: seq<Regexp>, i: nat, u: bool, t: Text, s: State)
    requires i <= |subs| && s.pos <= |t|
    ensures InTurn(Concat(subs), i, u, t, s) == InTurn(Concat(Kept(subs[i..])), 0, u, t, s)
    decreases |subs| - i, 0
  {
    if i == |subs| {
      assert Kept(subs[i..]) == [];
    } else if subs[i].EmptyMatch? {
      EmptyPart(subs, i, u, t, s);
      KeptRuns(subs, i + 1, u, t, s);
    } else {
      KeptPart(subs, i, u, t, s);
    }
  }

  lemma EmptyPart(subs: seq<Regexp>, i: nat, u: bool, t: Text, s: State)
    requires i < |subs| && s.pos <= |t| && subs[i].EmptyMatch?
    ensures InTurn(Concat(subs), i, u, t, s) == InTurn(Concat(subs), i + 1, u, t, s)
    ensures Kept(subs[i..]) == Kept(subs[i + 1..])
  {
    assert subs[i..][1..] == subs[i + 1..] && subs[i..][0] == subs[i];
    var once := Runs(subs[i], u, t, s);
    assert once == [s];
    SpreadOne(InTurnNext(Concat(subs), i + 1, u, t, s.pos, once), s);
  }

  lemma {:induction false} KeptPart(subs: seq<Regexp>, i: nat, u: bool, t: Text, s: State)
    requires i < |subs| && s.pos <= |t| && !subs[i].EmptyMatch?
    ensures InTurn(Concat(subs), i, u, t, s) == InTurn(Concat(Kept(subs[i..])), 0, u, t, s)
    decreases |subs| - i - 1, 1
  {
    assert subs[i..][1..] == subs[i + 1..] && subs[i..][0] == subs[i];
    var kept, rest := Concat(Kept(subs[i..])), Concat(Kept(subs[i + 1..]));
    assert kept.subs == [subs[i]] + rest.subs && kept.subs[1..] == rest.subs[0..];
    var once := Runs(subs[i], u, t, s);
    forall r | r in once ensures InTurn(Concat(subs), i + 1, u, t, r) == InTurn(kept, 1, u, t, r) {
      KeptRuns(subs, i + 1, u, t, r);
      InTurnFrom(kept, rest, 1, 0, u, t, r);
    }
    SpreadEqual(InTurnNext(Concat(subs), i + 1, u, t, s.pos, once), InTurnNext(kept, 1, u, t, s.pos, once), once);
  }

  lemma RejoinRuns(subs: seq<Regexp>, u: bool, t: Text, s: State)
    requires s.pos <= |t|
    ensures Runs(Rejoin(subs), u, t, s) == Runs(Concat(subs), u, t, s)
  {
    var kept := Kept(subs);
    assert subs[0..] == subs;
    KeptRuns(subs, 0, u, t, s);
    WholeConcat(subs, u, t, s);
    WholeConcat(kept, u, t, s);
    RejoinKept(subs, kept, u, t, s);
  }

  lemma WholeConcat(subs: seq<Regexp>, u: bool, t: Text, s: State)
    requires s.pos <= |t|
    ensures Runs(Concat(subs), u, t, s) == InTurn(Concat(subs), 0, u, t, s)
  {
  }

  lemma RejoinKept(subs: seq<Regexp>, kept: seq<Regexp>, u: bool, t: Text, s: State)
    requires kept == Kept(subs) && s.pos <= |t|
    ensures Runs(Rejoin(subs), u, t, s) == InTurn(Concat(kept), 0, u, t, s)
  {
    if kept == [] {
      assert InTurn(Concat(kept), 0, u, t, s) == [s];
    } else if |kept| == 1 {
      OnePart(kept[0], u, t, s);
      assert kept == [kept[0]];
    } else {
      WholeConcat(kept, u, t, s);
    }
  }

  lemma OnePart(x: Regexp, u: bool, t: Text, s: State)
    requires s.pos <= |t|
    ensures InTurn(Concat([x]), 0, u, t, s) == Runs(x, u, t, s)
  {
    var once := Runs(x, u, t, s);
    SpreadSelf(InTurnNext(Concat([x]), 1, u, t, s.pos, once), once);
  }

  // ---- The result ----

  // Every repeat the collapse removes prefers what it left in its place prefers.
  lemma EmptyRepeat(re: Regexp, x: Regexp, u: bool, t: Text, s: State)
    requires MatchesOnlyEmpty(x) && s.pos <= |t|
    requires re.Star? || re.Plus? || re.Quest? || re.Repeat?
    requires re.sub == x
    ensures Same(Runs(if re.Plus? || (re.Repeat? && re.min >= 1) then x else EmptyMatch, u, t, s), Runs(re, u, t, s))
  {
    var left := if re.Plus? || (re.Repeat? && re.min >= 1) then x else EmptyMatch;
    StaysPut(re, u, t, s);
    StaysPut(left, u, t, s);
    LoopStays(x, re.greedy, u, t, s);
    if re.Repeat? {
      CountedStays(x, re.min, re.max, re.greedy, u, t, s);
    }
    BothOne(Runs(left, u, t, s), Runs(re, u, t, s), s);
  }

  lemma ClosedSame(k: nat, a: seq<State>, b: seq<State>)
    requires Same(a, b)
    ensures Same(Closed(k, a), Closed(k, b))
  {
    SameMembers(a, b);
    var next := map r | r in a :: [r.(caps := r.caps[2 * k + 1 := r.pos])];
    ClosedSpread(k, a, next);
    ClosedSpread(k, b, next);
    SpreadSame(next, next, a, b);
  }

  lemma {:induction false} ClosedSpread(k: nat, a: seq<State>, next: map<State, seq<State>>)
    requires forall r :: r in a ==> r in next && next[r] == [r.(caps := r.caps[2 * k + 1 := r.pos])]
    ensures Closed(k, a) == Spread(next, a)
  {
    if a != [] {
      var init, last := a[..|a| - 1], a[|a| - 1];
      assert a == init + [last];
      ClosedSpread(k, init, next);
      assert Closed(k, a) == Closed(k, init) + [last.(caps := last.caps[2 * k + 1 := last.pos])];
    }
  }

  lemma StarAlike(x: Regexp, y: Regexp, g: bool, u: bool, t: Text, s: State)
    requires Alike(x, y, u, t) && s.pos <= |t|
    ensures Same(Either(g, Loop(x, g, u, t, s), [s]), Either(g, Loop(y, g, u, t, s), [s]))
  {
    LoopAlike(x, y, g, u, t, s);
    SameEither(g, Loop(x, g, u, t, s), Loop(y, g, u, t, s), [s]);
  }

  lemma QuestAlike(x: Regexp, y: Regexp, g: bool, u: bool, t: Text, s: State)
    requires Alike(x, y, u, t) && s.pos <= |t|
    ensures Same(Either(g, Runs(x, u, t, s), [s]), Either(g, Runs(y, u, t, s), [s]))
  {
    assert AlikeAt(x, y, u, t, s);
    SameEither(g, Runs(x, u, t, s), Runs(y, u, t, s), [s]);
  }

  lemma CountedAlike(x: Regexp, y: Regexp, min: nat, max: int, g: bool, u: bool, t: Text, s: State)
    requires Alike(x, y, u, t) && s.pos <= |t|
    ensures Same(Counted(x, min, max, g, u, t, s), Counted(y, min, max, g, u, t, s))
  {
    if max >= 0 {
      BetweenAlike(x, y, min, max, g, u, t, s);
    } else if min == 0 {
      StarAlike(x, y, g, u, t, s);
    } else {
      AtLeastAlike(x, y, Less(min), g, u, t, s);
    }
  }

  // One repeat whose body was rewritten to prefer the same.
  lemma RepeatAlike(re: Regexp, x: Regexp, u: bool, t: Text, s: State)
    requires re.Star? || re.Plus? || re.Quest? || re.Repeat?
    requires Alike(x, re.sub, u, t) && s.pos <= |t|
    ensures Same(Runs(re.(sub := x), u, t, s), Runs(re, u, t, s))
  {
    match re
    case Star(y, g) => StarAlike(x, y, g, u, t, s);
    case Plus(y, g) => LoopAlike(x, y, g, u, t, s);
    case Quest(y, g) => QuestAlike(x, y, g, u, t, s);
    case Repeat(y, min, max, g) => CountedAlike(x, y, min, max, g, u, t, s);
  }

  lemma CapturingAlike(k: nat, x: Regexp, y: Regexp, u: bool, t: Text, s: State)
    requires Alike(x, y, u, t) && s.pos <= |t|
    ensures Same(Runs(Capturing(k, x), u, t, s), Runs(Capturing(k, y), u, t, s))
  {
    var inside := s.(caps := s.caps[2 * k := s.pos]);
    assert AlikeAt(x, y, u, t, inside);
    var a, b := Runs(x, u, t, inside), Runs(y, u, t, inside);
    assert Runs(Capturing(k, x), u, t, s) == Closed(k, a) && Runs(Capturing(k, y), u, t, s) == Closed(k, b);
    ClosedSame(k, a, b);
  }

  lemma {:induction false} PartsFrom(subs: seq<Regexp>, i: nat, u: bool, t: Text)
    requires i <= |subs| && forall j :: 0 <= j < |subs| ==> Alike(Collapse(subs[j]).re, subs[j], u, t)
    ensures PartsAlike(Trees(CollapseAll(subs)), subs, i, u, t)
    decreases |subs| - i
  {
    if i < |subs| {
      PartsFrom(subs, i + 1, u, t);
    }
  }

  // The collapsed tree prefers, from every position of every text, exactly what the tree did.
  lemma {:induction false} CollapseAlike(re: Regexp, u: bool, t: Text)
    ensures Alike(Collapse(re).re, re, u, t)
    decreases re
  {
    match re
    case Concat(subs) => ConcatCollapsed(re, u, t);
    case Alternate(subs) => AlternateCollapsed(re, u, t);
    case Capturing(k, x) =>
      CollapseAlike(x, u, t);
      forall s: State ensures AlikeAt(Collapse(re).re, re, u, t, s) {
        if s.pos <= |t| {
          CapturingAlike(k, Collapse(x).re, x, u, t, s);
        }
      }
    case Star(x, _) => RepeatCollapsed(re, u, t);
    case Plus(x, _) => RepeatCollapsed(re, u, t);
    case Quest(x, _) => RepeatCollapsed(re, u, t);
    case Repeat(x, _, _, _) => RepeatCollapsed(re, u, t);
    case _ =>
      forall s: State ensures AlikeAt(Collapse(re).re, re, u, t, s) {
      }
  }

  // The same repeat over the collapsed body.
  function Redone(re: Regexp): Regexp
    requires re.Star? || re.Plus? || re.Quest? || re.Repeat?
  {
    re.(sub := Collapse(re.sub).re)
  }

  lemma {:induction false} RepeatCollapsed(re: Regexp, u: bool, t: Text)
    requires re.Star? || re.Plus? || re.Quest? || re.Repeat?
    ensures Alike(Collapse(re).re, re, u, t)
    decreases re, 0
  {
    var x := Collapse(re.sub).re;
    CollapseAlike(re.sub, u, t);
    forall s: State ensures AlikeAt(Collapse(re).re, re, u, t, s) {
      if s.pos <= |t| {
        RepeatAlike(re, x, u, t, s);
        if MatchesOnlyEmpty(x) {
          EmptyRepeat(Redone(re), x, u, t, s);
        }
      }
    }
  }

  lemma {:induction false} ConcatCollapsed(re: Regexp, u: bool, t: Text)
    requires re.Concat?
    ensures Alike(Collapse(re).re, re, u, t)
    decreases re, 0
  {
    forall j | 0 <= j < |re.subs| ensures Alike(Collapse(re.subs[j]).re, re.subs[j], u, t) {
      CollapseAlike(re.subs[j], u, t);
    }
    PartsFrom(re.subs, 0, u, t);
    var subs := Trees(CollapseAll(re.subs));
    forall s: State ensures AlikeAt(Collapse(re).re, re, u, t, s) {
      if s.pos <= |t| {
        InTurnAlike(Concat(subs), re, 0, u, t, s);
        RejoinRuns(subs, u, t, s);
      }
    }
  }

  lemma {:induction false} AlternateCollapsed(re: Regexp, u: bool, t: Text)
    requires re.Alternate?
    ensures Alike(Collapse(re).re, re, u, t)
    decreases re, 0
  {
    forall j | 0 <= j < |re.subs| ensures Alike(Collapse(re.subs[j]).re, re.subs[j], u, t) {
      CollapseAlike(re.subs[j], u, t);
    }
    PartsFrom(re.subs, 0, u, t);
    forall s: State ensures AlikeAt(Collapse(re).re, re, u, t, s) {
      if s.pos <= |t| {
        OneOfAlike(Collapse(re).re, re, 0, u, t, s);
      }
    }
  }

  // Leftmost-first, it is the same expression: the same first match, its end and its captures, from any position.
  lemma CollapseKeepsMatch(re: Regexp, u: bool, t: Text, s: State)
    requires s.pos <= |t|
    ensures FirstMatch(Collapse(re).re, u, t, s) == FirstMatch(re, u, t, s)
    ensures forall r :: r in Runs(Collapse(re).re, u, t, s) <==> r in Runs(re, u, t, s)
  {
    CollapseAlike(re, u, t);
    assert AlikeAt(Collapse(re).re, re, u, t, s);
    SameFirst(Runs(Collapse(re).re, u, t, s), Runs(re, u, t, s));
    SameMembers(Runs(Collapse(re).re, u, t, s), Runs(re, u, t, s));
  }
}
