/** The operators of an expression by laws, each in terms of the others. */
module OperatorLaws {
  // Runs lists the ways through a tree; no law here looks at how it does so. A repeat unfolds, an alternation and an
  // option prefer as written, a concatenation follows each way of its first part, and a group records its two ends.

  import opened BtProgram
  import opened RegexpTree
  import opened Rewriting = Collapse
  import opened CollapseShape
  import opened Absence
  import opened StripKeeps

  // ---- Operators ----

  lemma {:induction false} StarRuns(re: Regexp, u: bool, t: Text, s: State)
    requires re.Star? && s.pos <= |t|
    ensures Runs(re, u, t, s) == Either(re.greedy, Loop(re.sub, re.greedy, u, t, s), [s])
  {
  }

  lemma {:induction false} PlusRuns(re: Regexp, u: bool, t: Text, s: State)
    requires re.Plus? && s.pos <= |t|
    ensures Runs(re, u, t, s) == Loop(re.sub, re.greedy, u, t, s)
  {
  }

  lemma {:induction false} QuestRuns(re: Regexp, u: bool, t: Text, s: State)
    requires re.Quest? && s.pos <= |t|
    ensures Runs(re, u, t, s) == Either(re.greedy, Runs(re.sub, u, t, s), [s])
  {
  }

  lemma {:induction false} StarIs(x: Regexp, g: bool, u: bool, t: Text, s: State)
    requires s.pos <= |t|
    ensures Runs(Star(x, g), u, t, s) == Runs(Quest(Plus(x, g), g), u, t, s)
  {
    StarRuns(Star(x, g), u, t, s);
    PlusRuns(Plus(x, g), u, t, s);
    QuestRuns(Quest(Plus(x, g), g), u, t, s);
  }

  lemma {:induction false} AlternateIs(x: Regexp, rest: seq<Regexp>, u: bool, t: Text, s: State)
    requires s.pos <= |t|
    ensures Runs(Alternate([]), u, t, s) == Runs(Never, u, t, s) == []
    ensures Runs(Alternate([x] + rest), u, t, s) == Runs(x, u, t, s) + Runs(Alternate(rest), u, t, s)
  {
    BranchesFrom(Alternate([x] + rest), Alternate(rest), 1, 0, u, t, s);
  }

  lemma {:induction false} BranchesFrom(x: Regexp, y: Regexp, i: nat, j: nat, u: bool, t: Text, s: State)
    requires x.Alternate? && y.Alternate? && i <= |x.subs| && j <= |y.subs| && x.subs[i..] == y.subs[j..]
    requires s.pos <= |t|
    ensures OneOf(x, i, u, t, s) == OneOf(y, j, u, t, s)
    decreases |x.subs| - i
  {
    assert |x.subs[i..]| == |y.subs[j..]|;
    if i < |x.subs| {
      assert x.subs[i] == x.subs[i..][0] == y.subs[j];
      assert x.subs[i + 1..] == x.subs[i..][1..] == y.subs[j + 1..];
      BranchesFrom(x, y, i + 1, j + 1, u, t, s);
    }
  }

  // A greedy option prefers its body, a lazy one the empty match.
  lemma {:induction false} QuestIs(x: Regexp, u: bool, t: Text, s: State)
    requires s.pos <= |t|
    ensures Runs(Quest(x, true), u, t, s) == Runs(Alternate([x, EmptyMatch]), u, t, s)
    ensures Runs(Quest(x, false), u, t, s) == Runs(Alternate([EmptyMatch, x]), u, t, s)
  {
    assert [x, EmptyMatch] == [x] + [EmptyMatch] && [EmptyMatch, x] == [EmptyMatch] + [x];
    AlternateIs(x, [EmptyMatch], u, t, s);
    AlternateIs(EmptyMatch, [x], u, t, s);
    OneBranch(x, u, t, s);
    OneBranch(EmptyMatch, u, t, s);
  }

  lemma {:induction false} OneBranch(x: Regexp, u: bool, t: Text, s: State)
    requires s.pos <= |t|
    ensures Runs(Alternate([x]), u, t, s) == Runs(x, u, t, s)
  {
    assert [x] == [x] + [];
    AlternateIs(x, [], u, t, s);
  }

  lemma {:induction false} InTurnIs(re: Regexp, u: bool, t: Text, s: State)
    requires re.Concat? && s.pos <= |t|
    ensures re.subs == [] ==> InTurn(re, 0, u, t, s) == [s]
    ensures re.subs != [] ==>
              var once := Runs(re.subs[0], u, t, s);
              InTurn(re, 0, u, t, s) == Spread(InTurnNext(re, 1, u, t, s.pos, once), once)
  {
  }

  // Each way through the first part, in order, then the rest from where it ended.
  lemma {:induction false} ConcatIs(x: Regexp, rest: seq<Regexp>, u: bool, t: Text, s: State)
    requires s.pos <= |t|
    ensures Runs(Concat([]), u, t, s) == Runs(EmptyMatch, u, t, s) == [s]
    ensures Runs(Concat([x] + rest), u, t, s) == After(Runs(x, u, t, s), Concat(rest), u, t)
  {
    WholeConcat([], u, t, s);
    InTurnIs(Concat([]), u, t, s);
    FirstThenRest(x, rest, u, t, s);
  }

  lemma {:induction false} FirstThenRest(x: Regexp, rest: seq<Regexp>, u: bool, t: Text, s: State)
    requires s.pos <= |t|
    ensures Runs(Concat([x] + rest), u, t, s) == After(Runs(x, u, t, s), Concat(rest), u, t)
  {
    var whole, once := Concat([x] + rest), Runs(x, u, t, s);
    var next := InTurnNext(whole, 1, u, t, s.pos, once);
    WholeConcat(whole.subs, u, t, s);
    InTurnIs(whole, u, t, s);
    forall r | r in once ensures next[r] == Runs(Concat(rest), u, t, r) {
      InTurnFrom(whole, Concat(rest), 1, 0, u, t, r);
      WholeConcat(rest, u, t, r);
    }
    AfterIs(next, once, Concat(rest), u, t);
  }

  // The ways through x from each of these states, in their order.
  ghost function After(from: seq<State>, x: Regexp, u: bool, t: Text): seq<State>
    requires Within(from, 0, |t|)
  {
    Spread(Ways(from, x, u, t), from)
  }

  ghost function Ways(from: seq<State>, x: Regexp, u: bool, t: Text): (next: map<State, seq<State>>)
    requires Within(from, 0, |t|)
    ensures forall r :: r in from ==> r in next && next[r] == Runs(x, u, t, r)
  {
    map r | r in from :: Runs(x, u, t, r)
  }

  lemma {:induction false} SpreadSnoc(next: map<State, seq<State>>, init: seq<State>, last: State)
    requires last in next && forall s :: s in init ==> s in next
    ensures Spread(next, init + [last]) == Spread(next, init) + next[last]
  {
    assert (init + [last])[..|init|] == init;
  }

  // What follows some states, then others, is what follows them all.
  lemma {:induction false} SpreadConcat(next: map<State, seq<State>>, a: seq<State>, b: seq<State>)
    requires (forall s :: s in a ==> s in next) && forall s :: s in b ==> s in next
    ensures Spread(next, a + b) == Spread(next, a) + Spread(next, b)
  {
    if b == [] {
      assert a + b == a;
    } else {
      var init, last := b[..|b| - 1], b[|b| - 1];
      assert a + b == a + init + [last] && b == init + [last] && last in b && forall s :: s in init ==> s in b;
      SpreadConcat(next, a, init);
      SpreadSnoc(next, init, last);
      SpreadSnoc(next, a + init, last);
    }
  }

  lemma {:induction false} AfterIs(next: map<State, seq<State>>, from: seq<State>, x: Regexp, u: bool, t: Text)
    requires Within(from, 0, |t|) && forall r :: r in from ==> r in next && next[r] == Runs(x, u, t, r)
    ensures Spread(next, from) == After(from, x, u, t)
  {
    SpreadEqual(next, Ways(from, x, u, t), from);
  }

  lemma {:induction false} ThenIs(x: Regexp, y: Regexp, u: bool, t: Text, s: State)
    requires s.pos <= |t|
    ensures Runs(Concat([x, y]), u, t, s) == After(Runs(x, u, t, s), y, u, t)
  {
    assert [x, y] == [x] + [y];
    ConcatIs(x, [y], u, t, s);
    OnePartAfter(Runs(x, u, t, s), y, u, t);
  }

  lemma {:induction false} OnePartAfter(from: seq<State>, y: Regexp, u: bool, t: Text)
    requires Within(from, 0, |t|)
    ensures After(from, Concat([y]), u, t) == After(from, y, u, t)
  {
    var next := Ways(from, Concat([y]), u, t);
    forall r | r in from ensures next[r] == Runs(y, u, t, r) {
      WholeConcat([y], u, t, r);
      OnePart(y, u, t, r);
    }
    AfterIs(next, from, y, u, t);
  }

  lemma {:induction false} CountedRuns(re: Regexp, u: bool, t: Text, s: State)
    requires re.Repeat? && s.pos <= |t|
    ensures Runs(re, u, t, s) == Counted(re.sub, re.min, re.max, re.greedy, u, t, s)
  {
  }

  lemma {:induction false} RepeatRuns(x: Regexp, min: nat, max: int, g: bool, u: bool, t: Text, s: State)
    requires s.pos <= |t|
    ensures Runs(Repeat(x, min, max, g), u, t, s)
            == if max >= 0 then Between(x, min, max, g, u, t, s)
               else if min > 0 then AtLeast(x, min - 1, g, u, t, s)
               else Either(g, Loop(x, g, u, t, s), [s])
  {
    CountedRuns(Repeat(x, min, max, g), u, t, s);
  }

  lemma {:induction false} BetweenFollows(x: Regexp, n: nat, m: nat, g: bool, u: bool, t: Text, at: nat,
                                          once: seq<State>)
    requires at <= |t| && Within(once, at, |t|)
    ensures forall r :: r in once ==> BetweenNext(x, n, m, g, u, t, at, once)[r] == Runs(Repeat(x, n, m, g), u, t, r)
  {
    forall r | r in once
      ensures BetweenNext(x, n, m, g, u, t, at, once)[r] == Runs(Repeat(x, n, m, g), u, t, r)
    {
      RepeatRuns(x, n, m, g, u, t, r);
    }
  }

  lemma {:induction false} BoundedAfter(x: Regexp, n: nat, m: nat, g: bool, u: bool, t: Text, s: State)
    requires s.pos <= |t|
    ensures Between(x, n + 1, m + 1, g, u, t, s) == After(Runs(x, u, t, s), Repeat(x, n, m, g), u, t)
  {
    var once := Runs(x, u, t, s);
    BetweenIs(x, n + 1, m + 1, g, u, t, s);
    BetweenFollows(x, n, m, g, u, t, s.pos, once);
    AfterIs(BetweenNext(x, n, m, g, u, t, s.pos, once), once, Repeat(x, n, m, g), u, t);
  }

  lemma {:induction false} OptionalAfter(x: Regexp, m: nat, g: bool, u: bool, t: Text, s: State)
    requires s.pos <= |t|
    ensures Between(x, 0, m + 1, g, u, t, s) == Either(g, After(Runs(x, u, t, s), Repeat(x, 0, m, g), u, t), [s])
  {
    var once := Runs(x, u, t, s);
    BetweenIs(x, 0, m + 1, g, u, t, s);
    BetweenFollows(x, 0, m, g, u, t, s.pos, once);
    AfterIs(BetweenNext(x, 0, m, g, u, t, s.pos, once), once, Repeat(x, 0, m, g), u, t);
  }

  lemma {:induction false} AtLeastFollows(x: Regexp, n: nat, g: bool, u: bool, t: Text, at: nat, once: seq<State>)
    requires at <= |t| && Within(once, at, |t|)
    ensures forall r :: r in once ==>
              AtLeastNext(x, n, g, u, t, at, once)[r] == Runs(Repeat(x, n + 1, -1, g), u, t, r)
  {
    forall r | r in once
      ensures AtLeastNext(x, n, g, u, t, at, once)[r] == Runs(Repeat(x, n + 1, -1, g), u, t, r)
    {
      RepeatRuns(x, n + 1, -1, g, u, t, r);
    }
  }

  lemma {:induction false} UnboundedAfter(x: Regexp, n: nat, g: bool, u: bool, t: Text, s: State)
    requires s.pos <= |t|
    ensures AtLeast(x, n + 1, g, u, t, s) == After(Runs(x, u, t, s), Repeat(x, n + 1, -1, g), u, t)
  {
    var once := Runs(x, u, t, s);
    AtLeastIs(x, n + 1, g, u, t, s);
    AtLeastFollows(x, n, g, u, t, s.pos, once);
    AfterIs(AtLeastNext(x, n, g, u, t, s.pos, once), once, Repeat(x, n + 1, -1, g), u, t);
  }

  lemma {:induction false} NoneIs(x: Regexp, g: bool, u: bool, t: Text, s: State)
    requires s.pos <= |t|
    ensures Runs(Repeat(x, 0, 0, g), u, t, s) == Runs(EmptyMatch, u, t, s)
  {
    RepeatRuns(x, 0, 0, g, u, t, s);
  }

  // x{n,m} is n copies, then m - n options, each inside the one before it.
  lemma {:induction false} BoundedIs(x: Regexp, n: nat, m: nat, g: bool, u: bool, t: Text, s: State)
    requires s.pos <= |t|
    ensures Runs(Repeat(x, n + 1, m + 1, g), u, t, s) == Runs(Concat([x, Repeat(x, n, m, g)]), u, t, s)
  {
    BoundedFirst(x, n, m, g, u, t, s);
    ThenIs(x, Repeat(x, n, m, g), u, t, s);
  }

  lemma {:induction false} BoundedFirst(x: Regexp, n: nat, m: nat, g: bool, u: bool, t: Text, s: State)
    requires s.pos <= |t|
    ensures Runs(Repeat(x, n + 1, m + 1, g), u, t, s) == After(Runs(x, u, t, s), Repeat(x, n, m, g), u, t)
  {
    RepeatRuns(x, n + 1, m + 1, g, u, t, s);
    BoundedAfter(x, n, m, g, u, t, s);
  }

  lemma {:induction false} OptionalIs(x: Regexp, m: nat, g: bool, u: bool, t: Text, s: State)
    requires s.pos <= |t|
    ensures Runs(Repeat(x, 0, m + 1, g), u, t, s) == Runs(Quest(Concat([x, Repeat(x, 0, m, g)]), g), u, t, s)
  {
    RepeatRuns(x, 0, m + 1, g, u, t, s);
    OptionalAfter(x, m, g, u, t, s);
    QuestRuns(Quest(Concat([x, Repeat(x, 0, m, g)]), g), u, t, s);
    ThenIs(x, Repeat(x, 0, m, g), u, t, s);
  }

  // x{0,} is x*, x{1,} is x+, and a higher minimum is that many copies less one before it.
  lemma {:induction false} OpenIs(x: Regexp, g: bool, u: bool, t: Text, s: State)
    requires s.pos <= |t|
    ensures Runs(Repeat(x, 0, -1, g), u, t, s) == Runs(Star(x, g), u, t, s)
    ensures Runs(Repeat(x, 1, -1, g), u, t, s) == Runs(Plus(x, g), u, t, s)
  {
    RepeatRuns(x, 0, -1, g, u, t, s);
    RepeatRuns(x, 1, -1, g, u, t, s);
    StarRuns(Star(x, g), u, t, s);
    PlusRuns(Plus(x, g), u, t, s);
  }

  lemma {:induction false} UnboundedIs(x: Regexp, n: nat, g: bool, u: bool, t: Text, s: State)
    requires s.pos <= |t|
    ensures Runs(Repeat(x, n + 2, -1, g), u, t, s) == Runs(Concat([x, Repeat(x, n + 1, -1, g)]), u, t, s)
  {
    RepeatRuns(x, n + 2, -1, g, u, t, s);
    UnboundedAfter(x, n, g, u, t, s);
    ThenIs(x, Repeat(x, n + 1, -1, g), u, t, s);
  }

  // x+ is x, then x* from where it moved to.
  lemma {:induction false} PlusMoves(x: Regexp, g: bool, u: bool, t: Text, s: State)
    requires s.pos <= |t| && forall r :: r in Runs(x, u, t, s) ==> r.pos > s.pos
    ensures Runs(Plus(x, g), u, t, s) == Runs(Concat([x, Star(x, g)]), u, t, s)
  {
    PlusAfter(x, g, u, t, s);
    ThenIs(x, Star(x, g), u, t, s);
  }

  lemma {:induction false} LoopIs(x: Regexp, g: bool, u: bool, t: Text, s: State)
    requires s.pos <= |t|
    ensures var once := Runs(x, u, t, s); Runs(Plus(x, g), u, t, s) == Spread(LoopNext(x, g, u, t, s.pos, once), once)
  {
  }

  lemma {:induction false} PlusAfter(x: Regexp, g: bool, u: bool, t: Text, s: State)
    requires s.pos <= |t| && forall r :: r in Runs(x, u, t, s) ==> r.pos > s.pos
    ensures Runs(Plus(x, g), u, t, s) == After(Runs(x, u, t, s), Star(x, g), u, t)
  {
    var once := Runs(x, u, t, s);
    var next := LoopNext(x, g, u, t, s.pos, once);
    forall r | r in once ensures next[r] == Runs(Star(x, g), u, t, r) {
      StarRuns(Star(x, g), u, t, r);
    }
    LoopIs(x, g, u, t, s);
    AfterIs(next, once, Star(x, g), u, t);
  }

  // An iteration that did not move is the last.
  lemma {:induction false} PlusStays(x: Regexp, g: bool, u: bool, t: Text, s: State)
    requires s.pos <= |t| && forall r :: r in Runs(x, u, t, s) ==> r.pos == s.pos
    ensures Runs(Plus(x, g), u, t, s) == Runs(x, u, t, s)
  {
    var once := Runs(x, u, t, s);
    LoopIs(x, g, u, t, s);
    SpreadSelf(LoopNext(x, g, u, t, s.pos, once), once);
  }

  // ---- Groups ----

  lemma {:induction false} UngroupedIsStripped(re: Regexp)
    requires NoGroup(re)
    ensures StripCaptures(re) == re
    decreases re
  {
    assert Inside(re, re);
    forall i | 0 <= i < |Parts(re)| ensures NoGroup(Parts(re)[i]) {
      forall x | Inside(x, Parts(re)[i]) ensures !x.Capturing? {
        InsidePart(x, re, i);
      }
    }
    if re.Concat? || re.Alternate? {
      assert Parts(re) == re.subs;
      forall i | 0 <= i < |re.subs| ensures StripCaptures(re.subs[i]) == re.subs[i] {
        assert NoGroup(Parts(re)[i]);
        UngroupedIsStripped(re.subs[i]);
      }
      assert StripAll(re.subs) == re.subs;
    } else if IsRepeat(re) {
      assert Parts(re) == [re.sub];
      UngroupedIsStripped(Parts(re)[0]);
    }
  }

  // A group records where its body began and ended, and changes nothing else.
  lemma {:induction false} GroupRecords(k: nat, x: Regexp, u: bool, t: Text, s: State, i: nat)
    requires s.pos <= |t| && NoGroup(x)
    ensures |Runs(Capturing(k, x), u, t, s)| == |Runs(x, u, t, s)|
    ensures i < |Runs(x, u, t, s)| ==>
              var end := Runs(x, u, t, s)[i].pos;
              Runs(Capturing(k, x), u, t, s)[i] == State(end, s.caps[2 * k := s.pos][2 * k + 1 := end])
  {
    GroupRuns(k, x, u, t, s);
    UngroupedLevel(x, u, t, s, s.caps[2 * k := s.pos]);
  }

  lemma {:induction false} GroupRuns(k: nat, x: Regexp, u: bool, t: Text, s: State)
    requires s.pos <= |t|
    ensures Runs(Capturing(k, x), u, t, s) == Closed(k, Runs(x, u, t, State(s.pos, s.caps[2 * k := s.pos])))
  {
    assert s.(caps := s.caps[2 * k := s.pos]) == State(s.pos, s.caps[2 * k := s.pos]);
  }

  lemma {:induction false} UngroupedLevel(x: Regexp, u: bool, t: Text, s: State, caps: map<nat, nat>)
    requires s.pos <= |t| && NoGroup(x)
    ensures Runs(x, u, t, State(s.pos, caps)) == Bare(Runs(x, u, t, s), caps)
  {
    UngroupedIsStripped(x);
    StripLevel(x, u, t);
    assert LevelAt(x, x, u, t, s, caps);
  }
}
