/** Stripping a tree's groups: no group is left, and every way through it ends where it did, in the same order. */
module StripKeeps {
  import opened BtProgram
  import opened RegexpTree
  import opened CollapseShape
  import opened Absence

  // ---- No group is left ----

  ghost predicate NoGroup(re: Regexp) {
    forall x :: Inside(x, re) ==> !x.Capturing?
  }

  lemma {:induction false} NoGroupIn(re: Regexp)
    requires !re.Capturing? && forall i :: 0 <= i < |Parts(re)| ==> NoGroup(Parts(re)[i])
    ensures NoGroup(re)
  {
    forall x | Inside(x, re) ensures !x.Capturing? {
      if x != re {
        var i :| 0 <= i < |Parts(re)| && Inside(x, Parts(re)[i]);
        assert NoGroup(Parts(re)[i]);
      }
    }
  }

  lemma {:induction false} StrippedHasNoGroup(re: Regexp)
    ensures NoGroup(StripCaptures(re))
    decreases re, 1
  {
    match re
    case Capturing(_, x) => StrippedHasNoGroup(x);
    case Star(x, _) => StrippedHasNoGroup(x); NoGroupIn(StripCaptures(re));
    case Plus(x, _) => StrippedHasNoGroup(x); NoGroupIn(StripCaptures(re));
    case Quest(x, _) => StrippedHasNoGroup(x); NoGroupIn(StripCaptures(re));
    case Repeat(x, _, _, _) => StrippedHasNoGroup(x); NoGroupIn(StripCaptures(re));
    case Concat(subs) => AllStripped(subs); NoGroupAmong(StripAll(subs));
    case Alternate(subs) => AllStripped(subs); NoGroupAmong(StripAll(subs));
    case _ => NoGroupIn(re);
  }

  lemma {:induction false} NoGroupAmong(subs: seq<Regexp>)
    requires forall i :: 0 <= i < |subs| ==> NoGroup(subs[i])
    ensures NoGroup(Concat(subs)) && NoGroup(Alternate(subs))
  {
    assert Parts(Concat(subs)) == subs == Parts(Alternate(subs));
    NoGroupIn(Concat(subs));
    NoGroupIn(Alternate(subs));
  }

  lemma {:induction false} AllStripped(subs: seq<Regexp>)
    ensures forall i :: 0 <= i < |subs| ==> NoGroup(StripAll(subs)[i])
    decreases subs, 0
  {
    forall i | 0 <= i < |subs| ensures NoGroup(StripAll(subs)[i]) {
      StrippedHasNoGroup(subs[i]);
    }
  }

  // ---- Nothing else changes ----

  // The same states, whatever they captured forgotten.
  function Bare(rs: seq<State>, caps: map<nat, nat>): (bare: seq<State>)
    ensures |bare| == |rs| && forall i :: 0 <= i < |rs| ==> bare[i] == State(rs[i].pos, caps)
  {
    seq(|rs|, i requires 0 <= i < |rs| => State(rs[i].pos, caps))
  }

  // From a position, x ends where y does, in the same order, and captures nothing.
  ghost predicate LevelAt(x: Regexp, y: Regexp, u: bool, t: Text, s: State, caps: map<nat, nat>) {
    s.pos <= |t| ==> Runs(x, u, t, State(s.pos, caps)) == Bare(Runs(y, u, t, s), caps)
  }

  ghost predicate Level(x: Regexp, y: Regexp, u: bool, t: Text) {
    forall s, caps :: LevelAt(x, y, u, t, s, caps)
  }

  lemma {:induction false} BareConcat(a: seq<State>, b: seq<State>, caps: map<nat, nat>)
    ensures Bare(a + b, caps) == Bare(a, caps) + Bare(b, caps)
  {
  }

  lemma {:induction false} BareEither(g: bool, a: seq<State>, b: seq<State>, caps: map<nat, nat>)
    ensures Bare(Either(g, a, b), caps) == Either(g, Bare(a, caps), Bare(b, caps))
  {
  }

  lemma {:induction false} BareSpread(next: map<State, seq<State>>, next': map<State, seq<State>>, from: seq<State>,
                                      caps: map<nat, nat>)
    requires forall r :: r in from ==>
               && r in next' && State(r.pos, caps) in next && next[State(r.pos, caps)] == Bare(next'[r], caps)
    ensures (forall r :: r in Bare(from, caps) ==> r in next)
            && Spread(next, Bare(from, caps)) == Bare(Spread(next', from), caps)
  {
    forall r | r in Bare(from, caps) ensures r in next {
      var i :| 0 <= i < |from| && Bare(from, caps)[i] == r;
      assert from[i] in from;
    }
    if from != [] {
      var init, last := from[..|from| - 1], from[|from| - 1];
      assert from == init + [last] && Bare(from, caps) == Bare(init, caps) + [State(last.pos, caps)];
      BareSpread(next, next', init, caps);
      BareConcat(Spread(next', init), next'[last], caps);
    }
  }

  lemma {:induction false} LoopLevel(x: Regexp, y: Regexp, g: bool, u: bool, t: Text, s: State, caps: map<nat, nat>)
    requires Level(x, y, u, t) && s.pos <= |t|
    ensures Loop(x, g, u, t, State(s.pos, caps)) == Bare(Loop(y, g, u, t, s), caps)
    decreases |t| - s.pos
  {
    assert LevelAt(x, y, u, t, s, caps);
    var a := Runs(y, u, t, s);
    var next, next' := LoopNext(x, g, u, t, s.pos, Bare(a, caps)), LoopNext(y, g, u, t, s.pos, a);
    forall r | r in a
      ensures r in next' && State(r.pos, caps) in next && next[State(r.pos, caps)] == Bare(next'[r], caps)
    {
      InBare(a, r, caps);
      if r.pos > s.pos {
        LoopLevel(x, y, g, u, t, r, caps);
        BareEither(g, Loop(y, g, u, t, r), [r], caps);
      }
    }
    BareSpread(next, next', a, caps);
  }

  lemma {:induction false} InBare(rs: seq<State>, r: State, caps: map<nat, nat>)
    requires r in rs
    ensures State(r.pos, caps) in Bare(rs, caps) && Bare([r], caps) == [State(r.pos, caps)]
  {
    var i :| 0 <= i < |rs| && rs[i] == r;
    assert Bare(rs, caps)[i] == State(r.pos, caps);
  }

  lemma {:induction false} AtLeastLevel(x: Regexp, y: Regexp, k: nat, g: bool, u: bool, t: Text, s: State,
                                        caps: map<nat, nat>)
    requires Level(x, y, u, t) && s.pos <= |t|
    ensures AtLeast(x, k, g, u, t, State(s.pos, caps)) == Bare(AtLeast(y, k, g, u, t, s), caps)
    decreases k
  {
    if k == 0 {
      LoopLevel(x, y, g, u, t, s, caps);
    } else {
      assert LevelAt(x, y, u, t, s, caps);
      var a := Runs(y, u, t, s);
      var next := AtLeastNext(x, Less(k), g, u, t, s.pos, Bare(a, caps));
      var next' := AtLeastNext(y, Less(k), g, u, t, s.pos, a);
      forall r | r in a
        ensures r in next' && State(r.pos, caps) in next && next[State(r.pos, caps)] == Bare(next'[r], caps)
      {
        InBare(a, r, caps);
        AtLeastLevel(x, y, Less(k), g, u, t, r, caps);
      }
      BareSpread(next, next', a, caps);
    }
  }

  lemma {:induction false} BetweenIs(x: Regexp, min: nat, max: nat, g: bool, u: bool, t: Text, s: State)
    requires s.pos <= |t| && min + max > 0
    ensures var a := Runs(x, u, t, s);
            var more := Spread(BetweenNext(x, Less(min), Less(max), g, u, t, s.pos, a), a);
            Between(x, min, max, g, u, t, s) == if min > 0 then more else Either(g, more, [s])
  {
  }

  lemma {:induction false} BetweenLevel(x: Regexp, y: Regexp, min: nat, max: nat, g: bool, u: bool, t: Text, s: State,
                                        caps: map<nat, nat>)
    requires Level(x, y, u, t) && s.pos <= |t|
    ensures Between(x, min, max, g, u, t, State(s.pos, caps)) == Bare(Between(y, min, max, g, u, t, s), caps)
    decreases min + max
  {
    if min + max > 0 {
      assert LevelAt(x, y, u, t, s, caps);
      var a := Runs(y, u, t, s);
      forall r | r in a
        ensures Between(x, Less(min), Less(max), g, u, t, State(r.pos, caps))
                == Bare(Between(y, Less(min), Less(max), g, u, t, r), caps)
      {
        BetweenLevel(x, y, Less(min), Less(max), g, u, t, r, caps);
      }
      BetweenOnce(x, y, min, max, g, u, t, s, caps);
    }
  }

  // One iteration, when what follows it is level.
  lemma {:induction false} BetweenOnce(x: Regexp, y: Regexp, min: nat, max: nat, g: bool, u: bool, t: Text, s: State,
                                       caps: map<nat, nat>)
    requires s.pos <= |t| && min + max > 0 && Runs(x, u, t, State(s.pos, caps)) == Bare(Runs(y, u, t, s), caps)
    requires forall r :: r in Runs(y, u, t, s) ==>
               Between(x, Less(min), Less(max), g, u, t, State(r.pos, caps))
               == Bare(Between(y, Less(min), Less(max), g, u, t, r), caps)
    ensures Between(x, min, max, g, u, t, State(s.pos, caps)) == Bare(Between(y, min, max, g, u, t, s), caps)
  {
    BetweenMore(x, y, min, max, g, u, t, s, caps);
    BetweenIs(x, min, max, g, u, t, State(s.pos, caps));
    BetweenIs(y, min, max, g, u, t, s);
    var a := Runs(y, u, t, s);
    InBare([s], s, caps);
    BareEither(g, Spread(BetweenNext(y, Less(min), Less(max), g, u, t, s.pos, a), a), [s], caps);
  }

  lemma {:induction false} BetweenMore(x: Regexp, y: Regexp, min: nat, max: nat, g: bool, u: bool, t: Text, s: State,
                                       caps: map<nat, nat>)
    requires s.pos <= |t| && min + max > 0 && Runs(x, u, t, State(s.pos, caps)) == Bare(Runs(y, u, t, s), caps)
    requires forall r :: r in Runs(y, u, t, s) ==>
               Between(x, Less(min), Less(max), g, u, t, State(r.pos, caps))
               == Bare(Between(y, Less(min), Less(max), g, u, t, r), caps)
    ensures var a, b := Runs(x, u, t, State(s.pos, caps)), Runs(y, u, t, s);
            Spread(BetweenNext(x, Less(min), Less(max), g, u, t, s.pos, a), a)
            == Bare(Spread(BetweenNext(y, Less(min), Less(max), g, u, t, s.pos, b), b), caps)
  {
    var a := Runs(y, u, t, s);
    var next := BetweenNext(x, Less(min), Less(max), g, u, t, s.pos, Bare(a, caps));
    var next' := BetweenNext(y, Less(min), Less(max), g, u, t, s.pos, a);
    forall r | r in a
      ensures r in next' && State(r.pos, caps) in next && next[State(r.pos, caps)] == Bare(next'[r], caps)
    {
      InBare(a, r, caps);
    }
    BareSpread(next, next', a, caps);
  }

  lemma {:induction false} InTurnLevel(x: Regexp, y: Regexp, i: nat, u: bool, t: Text, s: State, caps: map<nat, nat>)
    requires x.Concat? && y.Concat? && i <= |x.subs| == |y.subs| && s.pos <= |t|
    requires forall j :: 0 <= j < |x.subs| ==> Level(x.subs[j], y.subs[j], u, t)
    ensures InTurn(x, i, u, t, State(s.pos, caps)) == Bare(InTurn(y, i, u, t, s), caps)
    decreases |x.subs| - i
  {
    if i < |x.subs| {
      assert LevelAt(x.subs[i], y.subs[i], u, t, s, caps);
      var a := Runs(y.subs[i], u, t, s);
      var next := InTurnNext(x, i + 1, u, t, s.pos, Bare(a, caps));
      var next' := InTurnNext(y, i + 1, u, t, s.pos, a);
      forall r | r in a
        ensures r in next' && State(r.pos, caps) in next && next[State(r.pos, caps)] == Bare(next'[r], caps)
      {
        InBare(a, r, caps);
        InTurnLevel(x, y, i + 1, u, t, r, caps);
      }
      BareSpread(next, next', a, caps);
    }
  }

  lemma {:induction false} OneOfLevel(x: Regexp, y: Regexp, i: nat, u: bool, t: Text, s: State, caps: map<nat, nat>)
    requires x.Alternate? && y.Alternate? && i <= |x.subs| == |y.subs| && s.pos <= |t|
    requires forall j :: 0 <= j < |x.subs| ==> Level(x.subs[j], y.subs[j], u, t)
    ensures OneOf(x, i, u, t, State(s.pos, caps)) == Bare(OneOf(y, i, u, t, s), caps)
    decreases |x.subs| - i
  {
    if i < |x.subs| {
      assert LevelAt(x.subs[i], y.subs[i], u, t, s, caps);
      OneOfLevel(x, y, i + 1, u, t, s, caps);
      BareConcat(Runs(y.subs[i], u, t, s), OneOf(y, i + 1, u, t, s), caps);
    }
  }

  lemma {:induction false} RuneLevel(ranges: seq<(nat, nat)>, u: bool, t: Text, s: State, k: nat, caps: map<nat, nat>)
    requires s.pos <= |t|
    ensures RuneStates(ranges, u, t, State(s.pos, caps), k) == Bare(RuneStates(ranges, u, t, s, k), caps)
  {
    if k > 0 {
      RuneLevel(ranges, u, t, s, k - 1, caps);
    }
  }

  lemma {:induction false} StarLevel(x: Regexp, y: Regexp, g: bool, u: bool, t: Text, s: State, caps: map<nat, nat>)
    requires Level(x, y, u, t) && s.pos <= |t|
    ensures Either(g, Loop(x, g, u, t, State(s.pos, caps)), [State(s.pos, caps)])
            == Bare(Either(g, Loop(y, g, u, t, s), [s]), caps)
  {
    LoopLevel(x, y, g, u, t, s, caps);
    InBare([s], s, caps);
    BareEither(g, Loop(y, g, u, t, s), [s], caps);
  }

  lemma {:induction false} QuestLevel(x: Regexp, y: Regexp, g: bool, u: bool, t: Text, s: State, caps: map<nat, nat>)
    requires Level(x, y, u, t) && s.pos <= |t|
    ensures Either(g, Runs(x, u, t, State(s.pos, caps)), [State(s.pos, caps)])
            == Bare(Either(g, Runs(y, u, t, s), [s]), caps)
  {
    assert LevelAt(x, y, u, t, s, caps);
    InBare([s], s, caps);
    BareEither(g, Runs(y, u, t, s), [s], caps);
  }

  lemma {:induction false} CountedLevel(x: Regexp, y: Regexp, min: nat, max: int, g: bool, u: bool, t: Text, s: State,
                                        caps: map<nat, nat>)
    requires Level(x, y, u, t) && s.pos <= |t|
    ensures Counted(x, min, max, g, u, t, State(s.pos, caps)) == Bare(Counted(y, min, max, g, u, t, s), caps)
  {
    if max >= 0 {
      BetweenLevel(x, y, min, max, g, u, t, s, caps);
    } else if min > 0 {
      AtLeastLevel(x, y, Less(min), g, u, t, s, caps);
    } else {
      StarLevel(x, y, g, u, t, s, caps);
    }
  }

  lemma {:induction false} RepeatLevel(re: Regexp, u: bool, t: Text)
    requires IsRepeat(re) && Level(StripCaptures(re.sub), re.sub, u, t)
    ensures Level(StripCaptures(re), re, u, t)
  {
    forall s, caps ensures LevelAt(StripCaptures(re), re, u, t, s, caps) {
      if s.pos <= |t| {
        match re
        case Star(y, g) => StarLevel(StripCaptures(y), y, g, u, t, s, caps);
        case Plus(y, g) => LoopLevel(StripCaptures(y), y, g, u, t, s, caps);
        case Quest(y, g) => QuestLevel(StripCaptures(y), y, g, u, t, s, caps);
        case Repeat(y, min, max, g) => CountedLevel(StripCaptures(y), y, min, max, g, u, t, s, caps);
      }
    }
  }

  lemma {:induction false} LeafLevel(re: Regexp, u: bool, t: Text, s: State, caps: map<nat, nat>)
    requires Parts(re) == [] && !re.Concat? && !re.Alternate? && s.pos <= |t|
    ensures Runs(re, u, t, State(s.pos, caps)) == Bare(Runs(re, u, t, s), caps)
  {
    match re
    case Class(ranges) => RuneLevel(ranges, u, t, s, 4, caps);
    case AnyChar => RuneLevel(ANY, u, t, s, 4, caps);
    case AnyCharNotNL => RuneLevel(ANY_NOT_NL, u, t, s, 4, caps);
    case _ =>
  }

  lemma {:induction false} StripLevel(re: Regexp, u: bool, t: Text)
    ensures Level(StripCaptures(re), re, u, t)
    decreases re, 1
  {
    if re.Concat? || re.Alternate? {
      PartsLevel(re, u, t);
    } else if IsRepeat(re) {
      StripLevel(re.sub, u, t);
      RepeatLevel(re, u, t);
    } else if re.Capturing? {
      StripLevel(re.sub, u, t);
      forall s, caps ensures LevelAt(StripCaptures(re), re, u, t, s, caps) {
        var inside := s.(caps := s.caps[2 * re.index := s.pos]);
        assert LevelAt(StripCaptures(re.sub), re.sub, u, t, inside, caps);
      }
    } else {
      forall s, caps ensures LevelAt(StripCaptures(re), re, u, t, s, caps) {
        if s.pos <= |t| {
          LeafLevel(re, u, t, s, caps);
        }
      }
    }
  }

  lemma {:induction false} PartsLevel(re: Regexp, u: bool, t: Text)
    requires re.Concat? || re.Alternate?
    ensures Level(StripCaptures(re), re, u, t)
    decreases re, 0
  {
    forall j | 0 <= j < |re.subs| ensures Level(StripCaptures(re.subs[j]), re.subs[j], u, t) {
      StripLevel(re.subs[j], u, t);
    }
    forall s, caps ensures LevelAt(StripCaptures(re), re, u, t, s, caps) {
      if s.pos <= |t| {
        if re.Concat? {
          InTurnLevel(StripCaptures(re), re, 0, u, t, s, caps);
        } else {
          OneOfLevel(StripCaptures(re), re, 0, u, t, s, caps);
        }
      }
    }
  }

  // A stripped tree holds no group; from any state it ends where the tree does, in the tree's order, and captures
  // nothing of its own.
  lemma {:induction false} StripKeepsEnds(re: Regexp, u: bool, t: Text, s: State)
    requires s.pos <= |t|
    ensures NoGroup(StripCaptures(re))
    ensures Runs(StripCaptures(re), u, t, s) == Bare(Runs(re, u, t, s), s.caps)
  {
    StrippedHasNoGroup(re);
    StripLevel(re, u, t);
    assert LevelAt(StripCaptures(re), re, u, t, s, s.caps);
  }
}
