/**
 Regular expression trees, and what one matches: every way through it, best first.

 Runs lists the ways a tree can match from a state, captures included; FirstMatch takes the first.
 */
module RegexpTree {
  import opened BtProgram

  // A parsed expression in the shapes regexp/syntax gives it.
  datatype Regexp =
    | Never
    | EmptyMatch
    | Literal(runes: seq<nat>, fold: bool)
    | Class(ranges: seq<(nat, nat)>)
    | AnyChar
    | AnyCharNotNL
    | Zero(what: Assertion)
    | Capturing(index: nat, sub: Regexp)
    | Star(sub: Regexp, greedy: bool)
    | Plus(sub: Regexp, greedy: bool)
    | Quest(sub: Regexp, greedy: bool)
    | Repeat(sub: Regexp, min: nat, max: int, greedy: bool)   // max -1: no bound
    | Concat(subs: seq<Regexp>)
    | Alternate(subs: seq<Regexp>)

  datatype Option<T> = None | Some(value: T)

  // ---- Runes as bytes ----

  // The bytes of a rune: UTF-8 of a valid rune in Unicode mode, one byte up to 0xFF otherwise.
  function Encode(r: nat, unicode: bool): Option<seq<Byte>> {
    if r <= 0x7F || (!unicode && r <= 0xFF) then Some([r])
    else if !unicode || r > 0x10FFFF || 0xD800 <= r <= 0xDFFF then None
    else if r <= 0x7FF then Some([0xC0 + r / 64, 0x80 + r % 64])
    else if r <= 0xFFFF then Some([0xE0 + r / 4096, 0x80 + r / 64 % 64, 0x80 + r % 64])
    else Some([0xF0 + r / 262144, 0x80 + r / 4096 % 64, 0x80 + r / 64 % 64, 0x80 + r % 64])
  }

  predicate HasAt(text: Text, pos: nat, bytes: seq<Byte>) {
    pos + |bytes| <= |text| && text[pos..pos + |bytes|] == bytes
  }

  predicate IsRuneAt(r: nat, unicode: bool, text: Text, pos: nat) {
    Encode(r, unicode).Some? && HasAt(text, pos, Encode(r, unicode).value)
  }

  // The end of a literal spelt at pos, if it is.
  function Spelling(runes: seq<nat>, fold: bool, unicode: bool, text: Text, pos: nat): (end: Option<nat>)
    requires pos <= |text|
    ensures end.Some? ==> pos <= end.value <= |text|
  {
    if runes == [] then Some(pos)
    else if IsRuneAt(runes[0], unicode, text, pos) then
      Spelling(runes[1..], fold, unicode, text, pos + |Encode(runes[0], unicode).value|)
    else if fold && IsRuneAt(FoldRune(runes[0]), unicode, text, pos) then
      Spelling(runes[1..], fold, unicode, text, pos + |Encode(FoldRune(runes[0]), unicode).value|)
    else None
  }

  // The next k bytes are one rune of the ranges.
  ghost predicate IsOneOf(ranges: seq<(nat, nat)>, unicode: bool, text: Text, pos: nat, k: nat) {
    && pos + k <= |text|
    && exists i, r ::
         0 <= i < |ranges| && ranges[i].0 <= r <= ranges[i].1 && Encode(r, unicode) == Some(text[pos..pos + k])
  }

  // ---- Every way through an expression ----

  // A position in the text and what the captures hold, start of group k in slot 2k, end in 2k + 1.
  datatype State = State(pos: nat, caps: map<nat, nat>)

  ghost predicate Within(rs: seq<State>, lo: nat, hi: nat) {
    forall r :: r in rs ==> lo <= r.pos <= hi
  }

  function Either(first: bool, a: seq<State>, b: seq<State>): seq<State> {
    if first then a + b else b + a
  }

  // What follows each state, in the states' order.
  ghost function Spread(next: map<State, seq<State>>, from: seq<State>): (rs: seq<State>)
    requires forall s :: s in from ==> s in next
  {
    if from == [] then []
    else
      assert forall s :: s in from[..|from| - 1] ==> s in from;
      Spread(next, from[..|from| - 1]) + next[from[|from| - 1]]
  }

  lemma {:induction false} SpreadFrom(next: map<State, seq<State>>, from: seq<State>, r: State) returns (s: State)
    requires (forall x :: x in from ==> x in next) && r in Spread(next, from)
    ensures s in from && s in next && r in next[s]
  {
    var init, last := from[..|from| - 1], from[|from| - 1];
    assert from == init + [last];
    if r in next[last] {
      s := last;
    } else {
      s := SpreadFrom(next, init, r);
    }
  }

  lemma SpreadWithin(next: map<State, seq<State>>, from: seq<State>, lo: nat, hi: nat)
    requires forall s :: s in from ==> s in next && Within(next[s], lo, hi)
    ensures Within(Spread(next, from), lo, hi)
  {
    forall r | r in Spread(next, from) ensures lo <= r.pos <= hi {
      var s := SpreadFrom(next, from, r);
    }
  }

  ghost function RuneStates(ranges: seq<(nat, nat)>, unicode: bool, text: Text, s: State, k: nat): (rs: seq<State>)
    requires s.pos <= |text|
    ensures Within(rs, s.pos, |text|)
  {
    if k == 0 then []
    else
      RuneStates(ranges, unicode, text, s, k - 1)
      + if IsOneOf(ranges, unicode, text, s.pos, k) then [s.(pos := s.pos + k)] else []
  }

  function Closed(index: nat, rs: seq<State>): (closed: seq<State>)
    ensures |closed| == |rs|
    ensures forall i :: 0 <= i < |rs| ==> closed[i] == rs[i].(caps := rs[i].caps[2 * index + 1 := rs[i].pos])
  {
    seq(|rs|, i requires 0 <= i < |rs| => rs[i].(caps := rs[i].caps[2 * index + 1 := rs[i].pos]))
  }

  const ANY := [(0, 0x10FFFF)]
  const ANY_NOT_NL := [(0, 9), (11, 0x10FFFF)]

  // Where re can end, starting at s, in the order leftmost-first prefers. An iteration that consumes nothing ends
  // its loop.
  ghost function Runs(re: Regexp, unicode: bool, text: Text, s: State): (rs: seq<State>)
    requires s.pos <= |text|
    ensures Within(rs, s.pos, |text|)
    decreases re, 5, 0, 0
  {
    match re
    case Never => []
    case EmptyMatch => [s]
    case Literal(runes, fold) =>
      var end := Spelling(runes, fold, unicode, text, s.pos);
      if end.Some? then [s.(pos := end.value)] else []
    case Class(ranges) => RuneStates(ranges, unicode, text, s, 4)
    case AnyChar => RuneStates(ANY, unicode, text, s, 4)
    case AnyCharNotNL => RuneStates(ANY_NOT_NL, unicode, text, s, 4)
    case Zero(what) => if Holds(what, text, s.pos) then [s] else []
    case Capturing(k, x) => Closed(k, Runs(x, unicode, text, s.(caps := s.caps[2 * k := s.pos])))
    case Star(x, greedy) => Either(greedy, Loop(x, greedy, unicode, text, s), [s])
    case Plus(x, greedy) => Loop(x, greedy, unicode, text, s)
    case Quest(x, greedy) => Either(greedy, Runs(x, unicode, text, s), [s])
    case Repeat(x, min, max, greedy) =>
      Counted(x, min, max, greedy, unicode, text, s)
    case Concat(subs) => InTurn(re, 0, unicode, text, s)
    case Alternate(subs) => OneOf(re, 0, unicode, text, s)
  }

  // One or more iterations.
  ghost function Loop(x: Regexp, greedy: bool, unicode: bool, text: Text, s: State): (rs: seq<State>)
    requires s.pos <= |text|
    ensures Within(rs, s.pos, |text|)
    decreases x, 6, |text| - s.pos, 1
  {
    var once := Runs(x, unicode, text, s);
    var next := LoopNext(x, greedy, unicode, text, s.pos, once);
    SpreadWithin(next, once, s.pos, |text|);
    Spread(next, once)
  }

  // After an iteration from at: another one or none, but none after one that consumed nothing.
  ghost function LoopNext(x: Regexp, greedy: bool, unicode: bool, text: Text, at: nat, once: seq<State>)
    : (next: map<State, seq<State>>)
    requires at <= |text| && Within(once, at, |text|)
    ensures forall r :: r in once ==>
              && r in next && Within(next[r], at, |text|)
              && next[r] == if r.pos <= at then [r] else Either(greedy, Loop(x, greedy, unicode, text, r), [r])
    decreases x, 6, |text| - at, 0
  {
    map r | r in once :: if r.pos <= at then [r] else Either(greedy, Loop(x, greedy, unicode, text, r), [r])
  }

  // x{n,} as x* or n - 1 iterations and x+, x{n,m} as n to m iterations.
  ghost function Counted(x: Regexp, min: nat, max: int, greedy: bool, unicode: bool, text: Text, s: State)
    : (rs: seq<State>)
    requires s.pos <= |text|
    ensures Within(rs, s.pos, |text|)
    decreases x, 8, 0, 0
  {
    if max >= 0 then Between(x, min, max, greedy, unicode, text, s)
    else if min > 0 then AtLeast(x, Less(min), greedy, unicode, text, s)
    else Either(greedy, Loop(x, greedy, unicode, text, s), [s])
  }

  // k iterations, then one or more.
  ghost function AtLeast(x: Regexp, k: nat, greedy: bool, unicode: bool, text: Text, s: State): (rs: seq<State>)
    requires s.pos <= |text|
    ensures Within(rs, s.pos, |text|)
    decreases x, 7, k, 0
  {
    if k == 0 then Loop(x, greedy, unicode, text, s)
    else
      var once := Runs(x, unicode, text, s);
      var next := AtLeastNext(x, Less(k), greedy, unicode, text, s.pos, once);
      SpreadWithin(next, once, s.pos, |text|);
      Spread(next, once)
  }

  ghost function AtLeastNext(x: Regexp, k: nat, greedy: bool, unicode: bool, text: Text, at: nat, once: seq<State>)
    : (next: map<State, seq<State>>)
    requires at <= |text| && Within(once, at, |text|)
    ensures forall r :: r in once ==>
              r in next && Within(next[r], at, |text|) && next[r] == AtLeast(x, k, greedy, unicode, text, r)
    decreases x, 7, k, 1
  {
    map r | r in once :: AtLeast(x, k, greedy, unicode, text, r)
  }

  ghost function Between(x: Regexp, min: nat, max: nat, greedy: bool, unicode: bool, text: Text,
                         s: State): (rs: seq<State>)
    requires s.pos <= |text|
    ensures Within(rs, s.pos, |text|)
    decreases x, 7, min + max, 0
  {
    if min == 0 && max == 0 then [s]
    else
      var once := Runs(x, unicode, text, s);
      var next := BetweenNext(x, Less(min), Less(max), greedy, unicode, text, s.pos, once);
      SpreadWithin(next, once, s.pos, |text|);
      var more := Spread(next, once);
      if min > 0 then more else Either(greedy, more, [s])
  }

  function Less(n: nat): nat {
    if n > 0 then n - 1 else 0
  }

  ghost function BetweenNext(x: Regexp, min: nat, max: nat, greedy: bool, unicode: bool, text: Text, at: nat,
                             once: seq<State>)
    : (next: map<State, seq<State>>)
    requires at <= |text| && Within(once, at, |text|)
    ensures forall r :: r in once ==>
              r in next && Within(next[r], at, |text|) && next[r] == Between(x, min, max, greedy, unicode, text, r)
    decreases x, 7, min + max, 1
  {
    map r | r in once :: Between(x, min, max, greedy, unicode, text, r)
  }

  // A concatenation from its i-th part on.
  ghost function InTurn(re: Regexp, i: nat, unicode: bool, text: Text, s: State): (rs: seq<State>)
    requires re.Concat? && i <= |re.subs| && s.pos <= |text|
    ensures Within(rs, s.pos, |text|)
    decreases re, 4, |re.subs| - i, 0
  {
    if i == |re.subs| then [s]
    else
      var once := Runs(re.subs[i], unicode, text, s);
      var next := InTurnNext(re, i + 1, unicode, text, s.pos, once);
      SpreadWithin(next, once, s.pos, |text|);
      Spread(next, once)
  }

  ghost function InTurnNext(re: Regexp, i: nat, unicode: bool, text: Text, at: nat, once: seq<State>)
    : (next: map<State, seq<State>>)
    requires re.Concat? && i <= |re.subs| && at <= |text| && Within(once, at, |text|)
    ensures forall r :: r in once ==>
              r in next && Within(next[r], at, |text|) && next[r] == InTurn(re, i, unicode, text, r)
    decreases re, 4, |re.subs| - i, 1
  {
    map r | r in once :: InTurn(re, i, unicode, text, r)
  }

  // An alternation from its i-th branch on.
  ghost function OneOf(re: Regexp, i: nat, unicode: bool, text: Text, s: State): (rs: seq<State>)
    requires re.Alternate? && i <= |re.subs| && s.pos <= |text|
    ensures Within(rs, s.pos, |text|)
    decreases re, 4, |re.subs| - i, 0
  {
    if i == |re.subs| then [] else Runs(re.subs[i], unicode, text, s) + OneOf(re, i + 1, unicode, text, s)
  }

  // The leftmost-first match of re from s: its end and captures.
  ghost function FirstMatch(re: Regexp, unicode: bool, text: Text, s: State): Option<State>
    requires s.pos <= |text|
  {
    var rs := Runs(re, unicode, text, s);
    if rs == [] then None else Some(rs[0])
  }

  // ---- Lists that prefer the same things ----

  // The states in order of their first occurrence.
  function Distinct(rs: seq<State>): seq<State> {
    if rs == [] then []
    else
      var d, last := Distinct(rs[..|rs| - 1]), rs[|rs| - 1];
      if last in d then d else d + [last]
  }

  lemma {:induction false} DistinctMembers(rs: seq<State>)
    ensures forall r :: r in Distinct(rs) <==> r in rs
  {
    if rs != [] {
      DistinctMembers(rs[..|rs| - 1]);
      assert rs == rs[..|rs| - 1] + [rs[|rs| - 1]];
    }
  }

  ghost predicate Same(a: seq<State>, b: seq<State>) {
    Distinct(a) == Distinct(b)
  }

  lemma SameFirst(a: seq<State>, b: seq<State>)
    requires Same(a, b)
    ensures a == [] <==> b == []
    ensures a != [] ==> a[0] == b[0]
  {
    DistinctHead(a);
    DistinctHead(b);
  }

  lemma {:induction false} DistinctHead(a: seq<State>)
    ensures a == [] <==> Distinct(a) == []
    ensures a != [] ==> Distinct(a)[0] == a[0]
  {
    if |a| > 1 {
      DistinctHead(a[..|a| - 1]);
    }
  }

  // What b adds to a.
  function Added(b: seq<State>, a: seq<State>): seq<State> {
    if b == [] then []
    else Added(b[..|b| - 1], a) + if b[|b| - 1] in a then [] else [b[|b| - 1]]
  }

  lemma {:induction false} AddedSame(b: seq<State>, a: seq<State>, a': seq<State>)
    requires forall r :: r in a <==> r in a'
    ensures Added(b, a) == Added(b, a')
  {
    if b != [] {
      AddedSame(b[..|b| - 1], a, a');
    }
  }

  lemma DistinctSnoc(rs: seq<State>, last: State)
    ensures Distinct(rs + [last]) == if last in rs then Distinct(rs) else Distinct(rs) + [last]
  {
    assert (rs + [last])[..|rs|] == rs;
    DistinctMembers(rs);
  }

  lemma AddedSnoc(b: seq<State>, last: State, a: seq<State>)
    ensures Added(b + [last], a) == if last in a then Added(b, a) else Added(b, a) + [last]
  {
    assert (b + [last])[..|b|] == b;
  }

  lemma OneMoreAdded(a: seq<State>, b: seq<State>, last: State)
    requires Distinct(a + b) == Distinct(a) + Added(Distinct(b), a)
    ensures Distinct(a + b + [last]) == Distinct(a) + Added(Distinct(b + [last]), a)
  {
    DistinctSnoc(a + b, last);
    DistinctSnoc(b, last);
    if last !in b {
      AddedSnoc(Distinct(b), last, a);
    }
  }

  lemma {:induction false} DistinctConcat(a: seq<State>, b: seq<State>)
    ensures Distinct(a + b) == Distinct(a) + Added(Distinct(b), a)
  {
    if b == [] {
      assert a + b == a;
    } else {
      var init, last := b[..|b| - 1], b[|b| - 1];
      assert a + b == a + init + [last] && b == init + [last];
      DistinctConcat(a, init);
      OneMoreAdded(a, init, last);
    }
  }

  lemma SameConcat(a: seq<State>, a': seq<State>, b: seq<State>, b': seq<State>)
    requires Same(a, a') && Same(b, b')
    ensures Same(a + b, a' + b')
  {
    DistinctConcat(a, b);
    DistinctConcat(a', b');
    AddedSame(Distinct(b), a, a') by {
      DistinctMembers(a);
      DistinctMembers(a');
    }
  }

  lemma {:induction false} AddedNone(b: seq<State>, a: seq<State>)
    requires forall r :: r in b ==> r in a
    ensures Added(b, a) == []
  {
    if b != [] {
      var init, last := b[..|b| - 1], b[|b| - 1];
      assert b == init + [last] && last in b;
      AddedNone(init, a);
    }
  }

  lemma NothingAdded(a: seq<State>, b: seq<State>)
    requires forall r :: r in b ==> r in a
    ensures Same(a + b, a)
  {
    DistinctConcat(a, b);
    DistinctMembers(b);
    AddedNone(Distinct(b), a);
  }

  lemma {:induction false} SpreadHas(next: map<State, seq<State>>, from: seq<State>, s: State)
    requires (forall x :: x in from ==> x in next) && s in from
    ensures forall r :: r in next[s] ==> r in Spread(next, from)
  {
    var init, last := from[..|from| - 1], from[|from| - 1];
    assert from == init + [last];
    if s != last {
      SpreadHas(next, init, s);
    }
  }

  // What follows a state met again has already been listed.
  lemma {:induction false} SpreadDistinct(next: map<State, seq<State>>, from: seq<State>)
    requires forall s :: s in from ==> s in next
    ensures (forall s :: s in Distinct(from) ==> s in next) && Same(Spread(next, from), Spread(next, Distinct(from)))
  {
    if from != [] {
      var init, last := from[..|from| - 1], from[|from| - 1];
      assert from == init + [last];
      SpreadDistinct(next, init);
      DistinctMembers(from);
      DistinctMembers(init);
      if last in Distinct(init) {
        SpreadHas(next, init, last);
        NothingAdded(Spread(next, init), next[last]);
      } else {
        assert (Distinct(init) + [last])[..|Distinct(init)|] == Distinct(init);
        SameConcat(Spread(next, init), Spread(next, Distinct(init)), next[last], next[last]);
      }
    }
  }

  lemma {:induction false} SpreadEach(next: map<State, seq<State>>, next': map<State, seq<State>>, from: seq<State>)
    requires forall s :: s in from ==> s in next && s in next' && Same(next[s], next'[s])
    ensures Same(Spread(next, from), Spread(next', from))
  {
    if from != [] {
      var init, last := from[..|from| - 1], from[|from| - 1];
      assert from == init + [last];
      SpreadEach(next, next', init);
      SameConcat(Spread(next, init), Spread(next', init), next[last], next'[last]);
    }
  }

  lemma SpreadSame(next: map<State, seq<State>>, next': map<State, seq<State>>, a: seq<State>, b: seq<State>)
    requires Same(a, b) && forall s :: s in a ==> s in next && s in next' && Same(next[s], next'[s])
    requires forall s :: s in b ==> s in next'
    ensures Same(Spread(next, a), Spread(next', b))
  {
    DistinctMembers(a);
    SpreadDistinct(next, a);
    SpreadEach(next, next', Distinct(a));
    SpreadDistinct(next', b);
  }
}
