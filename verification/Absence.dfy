/** The absence prefilter: a literal every match contains, and a sweep that proves patterns matchless without them. */
module Absence {
  import opened BtProgram
  import opened FiniteSets
  import opened RegexpTree

  const LIT_MAX := 16
  const MAX_PATTERNS := 64
  const MAX_LITS := 32
  const LANES := 16

  // ---- The literal ----

  // The bytes a literal is spelt with, in one mode, if it has them.
  function LiteralBytes(runes: seq<nat>, unicode: bool): Option<seq<Byte>> {
    if runes == [] then Some([])
    else
      var head, tail := Encode(runes[0], unicode), LiteralBytes(runes[1..], unicode);
      if head.Some? && tail.Some? then Some(head.value + tail.value) else None
  }

  // A literal has bytes exactly when each of its runes has.
  lemma {:induction false} LiteralBytesIff(runes: seq<nat>, unicode: bool)
    ensures LiteralBytes(runes, unicode).Some? <==> forall i :: 0 <= i < |runes| ==> Encode(runes[i], unicode).Some?
  {
    if runes != [] {
      LiteralBytesIff(runes[1..], unicode);
      assert forall i :: 0 < i < |runes| ==> runes[i] == runes[1..][i - 1];
    }
  }

  function Longest(a: seq<Byte>, b: seq<Byte>): seq<Byte> {
    if |b| > |a| then b else a
  }

  // The best literal of a concatenation's first n parts: the first of the longest.
  function BestOf(subs: seq<Regexp>, n: nat, unicode: bool): seq<Byte>
    requires n <= |subs|
    decreases subs, n
  {
    if n == 0 then [] else Longest(BestOf(subs, n - 1, unicode), FindAbsenceLit(subs[n - 1], unicode))
  }

  // A literal every match of re contains, empty when none can be extracted.
  function FindAbsenceLit(re: Regexp, unicode: bool): seq<Byte>
    decreases re, 0
  {
    match re
    case Literal(runes, fold) =>
      if fold || LiteralBytes(runes, unicode).None? then []
      else
        var bytes := LiteralBytes(runes, unicode).value;
        if |bytes| > LIT_MAX then bytes[..LIT_MAX] else bytes
    case Capturing(_, x) => FindAbsenceLit(x, unicode)
    case Plus(x, _) => FindAbsenceLit(x, unicode)
    case Repeat(x, min, _, _) => if min >= 1 then FindAbsenceLit(x, unicode) else []
    case Concat(subs) => BestOf(subs, |subs|, unicode)
    case _ => []
  }

  // ---- Which literal that is ----

  // The first 16 bytes of each literal leaf that every match passes through and that is spelt one way only, in order.
  ghost function Offers(re: Regexp, unicode: bool): seq<seq<Byte>>
    decreases re, 0
  {
    match re
    case Literal(runes, false) =>
      var bytes := LiteralBytes(runes, unicode);
      if bytes.None? then [] else [if |bytes.value| < 16 then bytes.value else bytes.value[..16]]
    case Capturing(_, x) => Offers(x, unicode)
    case Plus(x, _) => Offers(x, unicode)
    case Repeat(x, min, _, _) => if min == 0 then [] else Offers(x, unicode)
    case Concat(subs) => OffersOf(subs, |subs|, unicode)
    case _ => []
  }

  ghost function OffersOf(subs: seq<Regexp>, n: nat, unicode: bool): seq<seq<Byte>>
    requires n <= |subs|
    decreases subs, n
  {
    if n == 0 then [] else OffersOf(subs, n - 1, unicode) + Offers(subs[n - 1], unicode)
  }

  ghost predicate IsFirstLongest(lit: seq<Byte>, offers: seq<seq<Byte>>) {
    if forall k :: 0 <= k < |offers| ==> offers[k] == [] then lit == []
    else exists k :: FirstAt(lit, offers, k) && forall j :: 0 <= j < |offers| ==> |offers[j]| <= |lit|
  }

  ghost predicate FirstAt(lit: seq<Byte>, offers: seq<seq<Byte>>, k: int) {
    0 <= k < |offers| && offers[k] == lit && forall j :: 0 <= j < k ==> |offers[j]| < |lit|
  }

  // The literal extracted is the longest on offer, the first of those.
  lemma {:induction false} LitIsFirstLongest(re: Regexp, unicode: bool)
    ensures IsFirstLongest(FindAbsenceLit(re, unicode), Offers(re, unicode))
    decreases re, 0
  {
    match re
    case Literal(_, fold) =>
      if !fold && Offers(re, unicode) != [] {
        assert Offers(re, unicode)[0] == FindAbsenceLit(re, unicode);
        assert FindAbsenceLit(re, unicode) != [] ==> FirstAt(FindAbsenceLit(re, unicode), Offers(re, unicode), 0);
      }
    case Capturing(_, x) => LitIsFirstLongest(x, unicode);
    case Plus(x, _) => LitIsFirstLongest(x, unicode);
    case Repeat(x, _, _, _) => LitIsFirstLongest(x, unicode);
    case Concat(subs) => BestIsFirstLongest(subs, |subs|, unicode);
    case _ =>
  }

  lemma {:induction false} BestIsFirstLongest(subs: seq<Regexp>, n: nat, unicode: bool)
    requires n <= |subs|
    ensures IsFirstLongest(BestOf(subs, n, unicode), OffersOf(subs, n, unicode))
    decreases subs, n
  {
    if n > 0 {
      BestIsFirstLongest(subs, n - 1, unicode);
      LitIsFirstLongest(subs[n - 1], unicode);
      FirstOfBoth(BestOf(subs, n - 1, unicode), OffersOf(subs, n - 1, unicode),
        FindAbsenceLit(subs[n - 1], unicode), Offers(subs[n - 1], unicode));
    }
  }

  lemma FirstOfBoth(x: seq<Byte>, a: seq<seq<Byte>>, y: seq<Byte>, b: seq<seq<Byte>>)
    requires IsFirstLongest(x, a) && IsFirstLongest(y, b)
    ensures IsFirstLongest(Longest(x, y), a + b)
  {
    var both := a + b;
    assert forall k :: 0 <= k < |b| ==> both[|a| + k] == b[k];
    if |y| > |x| {
      var k :| FirstAt(y, b, k);
      assert FirstAt(y, both, |a| + k) && both[|a| + k] != [];
    } else if x != [] {
      var k :| FirstAt(x, a, k);
      assert FirstAt(x, both, k) && both[k] != [];
    }
  }

  function StripAll(subs: seq<Regexp>): (stripped: seq<Regexp>)
    ensures |stripped| == |subs| && forall i :: 0 <= i < |subs| ==> stripped[i] == StripCaptures(subs[i])
    decreases subs, 0
  {
    seq(|subs|, i requires 0 <= i < |subs| => StripCaptures(subs[i]))
  }

  // stripCaptures: every group replaced by what it holds.
  function StripCaptures(re: Regexp): Regexp
    decreases re, 1
  {
    match re
    case Capturing(_, x) => StripCaptures(x)
    case Star(x, g) => Star(StripCaptures(x), g)
    case Plus(x, g) => Plus(StripCaptures(x), g)
    case Quest(x, g) => Quest(StripCaptures(x), g)
    case Repeat(x, min, max, g) => Repeat(StripCaptures(x), min, max, g)
    case Concat(subs) => Concat(StripAll(subs))
    case Alternate(subs) => Alternate(StripAll(subs))
    case _ => re
  }

  lemma {:induction false} StripKeepsLit(re: Regexp, unicode: bool)
    ensures FindAbsenceLit(StripCaptures(re), unicode) == FindAbsenceLit(re, unicode)
    decreases re, 1
  {
    match re
    case Capturing(_, x) => StripKeepsLit(x, unicode);
    case Plus(x, _) => StripKeepsLit(x, unicode);
    case Repeat(x, _, _, _) => StripKeepsLit(x, unicode);
    case Concat(subs) => StripKeepsBest(re, |subs|, unicode);
    case _ =>
  }

  lemma {:induction false} StripKeepsBest(re: Regexp, n: nat, unicode: bool)
    requires re.Concat? && n <= |re.subs|
    ensures BestOf(StripAll(re.subs), n, unicode) == BestOf(re.subs, n, unicode)
    decreases re, 0, n
  {
    if n > 0 {
      StripKeepsBest(re, n - 1, unicode);
      StripKeepsLit(re.subs[n - 1], unicode);
    }
  }

  // ---- Every match contains it ----

  // lit lies somewhere in text[lo..hi].
  ghost predicate Occurs(lit: seq<Byte>, text: Text, lo: nat, hi: nat) {
    exists k :: lo <= k && k + |lit| <= hi && HasAt(text, k, lit)
  }

  lemma Widens(lit: seq<Byte>, text: Text, lo: nat, hi: nat, lo': nat, hi': nat)
    requires Occurs(lit, text, lo, hi) && lo' <= lo && hi <= hi'
    ensures Occurs(lit, text, lo', hi')
  {
    var k :| lo <= k && k + |lit| <= hi && HasAt(text, k, lit);
    assert lo' <= k && k + |lit| <= hi' && HasAt(text, k, lit);
  }

  lemma EmptyOccurs(text: Text, lo: nat, hi: nat)
    requires lo <= hi <= |text|
    ensures Occurs([], text, lo, hi)
  {
    assert HasAt(text, lo, []);
  }

  lemma HasConcat(text: Text, pos: nat, a: seq<Byte>, b: seq<Byte>)
    requires HasAt(text, pos, a) && HasAt(text, pos + |a|, b)
    ensures HasAt(text, pos, a + b)
  {
    assert text[pos..pos + |a + b|] == text[pos..pos + |a|] + text[pos + |a|..pos + |a| + |b|];
  }

  lemma {:induction false} SpelledBytes(runes: seq<nat>, unicode: bool, text: Text, pos: nat)
    requires pos <= |text| && LiteralBytes(runes, unicode).Some? && Spelling(runes, false, unicode, text, pos).Some?
    ensures var bytes := LiteralBytes(runes, unicode).value;
            HasAt(text, pos, bytes) && Spelling(runes, false, unicode, text, pos).value == pos + |bytes|
  {
    if runes != [] {
      var head := Encode(runes[0], unicode).value;
      SpelledBytes(runes[1..], unicode, text, pos + |head|);
      HasConcat(text, pos, head, LiteralBytes(runes[1..], unicode).value);
    }
  }

  lemma LiteralOccurs(re: Regexp, unicode: bool, text: Text, s: State, r: State)
    requires re.Literal? && s.pos <= |text| && r in Runs(re, unicode, text, s)
    ensures Occurs(FindAbsenceLit(re, unicode), text, s.pos, r.pos)
  {
    var lit := FindAbsenceLit(re, unicode);
    if re.fold || LiteralBytes(re.runes, unicode).None? {
      EmptyOccurs(text, s.pos, r.pos);
    } else {
      SpelledBytes(re.runes, unicode, text, s.pos);
      var bytes := LiteralBytes(re.runes, unicode).value;
      assert HasAt(text, s.pos, lit) by {
        assert text[s.pos..s.pos + |lit|] == text[s.pos..s.pos + |bytes|][..|lit|];
      }
    }
  }

  // The literal of an expression occurs inside every match of it.
  lemma {:induction false} LitInEveryMatch(re: Regexp, unicode: bool, text: Text, s: State, r: State)
    requires s.pos <= |text| && r in Runs(re, unicode, text, s)
    ensures s.pos <= r.pos <= |text| && Occurs(FindAbsenceLit(re, unicode), text, s.pos, r.pos)
    decreases re, 1
  {
    match re
    case Literal(_, _) => LiteralOccurs(re, unicode, text, s, r);
    case Capturing(k, x) =>
      var inside := s.(caps := s.caps[2 * k := s.pos]);
      var rs := Runs(x, unicode, text, inside);
      var i :| 0 <= i < |Closed(k, rs)| && Closed(k, rs)[i] == r;
      assert rs[i] in rs;
      LitInEveryMatch(x, unicode, text, inside, rs[i]);
    case Plus(x, g) => LitInLoop(x, g, unicode, text, s, r);
    case Repeat(x, min, max, g) =>
      if min == 0 {
        EmptyOccurs(text, s.pos, r.pos);
      } else {
        LitInCounted(x, min, max, g, unicode, text, s, r);
      }
    case Concat(subs) =>
      forall j | 0 <= j < |subs| ensures Occurs(FindAbsenceLit(subs[j], unicode), text, s.pos, r.pos) {
        LitInTurn(re, 0, j, unicode, text, s, r);
      }
      BestOccurs(subs, |subs|, unicode, text, s.pos, r.pos);
    case _ => EmptyOccurs(text, s.pos, r.pos);
  }

  // Whatever follows an iteration, its literal stays inside.
  lemma {:induction false} LitOnce(x: Regexp, unicode: bool, text: Text, s: State, once: State, r: State)
    requires s.pos <= |text| && once in Runs(x, unicode, text, s) && once.pos <= r.pos
    ensures Occurs(FindAbsenceLit(x, unicode), text, s.pos, r.pos)
    decreases x, 2
  {
    LitInEveryMatch(x, unicode, text, s, once);
    Widens(FindAbsenceLit(x, unicode), text, s.pos, once.pos, s.pos, r.pos);
  }

  lemma {:induction false} LitInLoop(x: Regexp, g: bool, unicode: bool, text: Text, s: State, r: State)
    requires s.pos <= |text| && r in Loop(x, g, unicode, text, s)
    ensures Occurs(FindAbsenceLit(x, unicode), text, s.pos, r.pos)
    decreases x, 3
  {
    var rs := Runs(x, unicode, text, s);
    var once := SpreadFrom(LoopNext(x, g, unicode, text, s.pos, rs), rs, r);
    LoopMoves(x, g, unicode, text, s.pos, once, r);
    LitOnce(x, unicode, text, s, once, r);
  }

  lemma LoopMoves(x: Regexp, g: bool, unicode: bool, text: Text, at: nat, once: State, r: State)
    requires at <= once.pos <= |text|
    requires r in if once.pos <= at then [once] else Either(g, Loop(x, g, unicode, text, once), [once])
    ensures once.pos <= r.pos
  {
  }

  lemma {:induction false} LitInCounted(x: Regexp, min: nat, max: int, g: bool, unicode: bool, text: Text, s: State,
                                        r: State)
    requires s.pos <= |text| && min > 0 && r in Counted(x, min, max, g, unicode, text, s)
    ensures Occurs(FindAbsenceLit(x, unicode), text, s.pos, r.pos)
    decreases x, 4
  {
    var rs := Runs(x, unicode, text, s);
    if max >= 0 {
      var next := BetweenNext(x, Less(min), Less(max), g, unicode, text, s.pos, rs);
      var once := SpreadFrom(next, rs, r);
      assert r in Between(x, Less(min), Less(max), g, unicode, text, once);
      LitOnce(x, unicode, text, s, once, r);
    } else if min == 1 {
      LitInLoop(x, g, unicode, text, s, r);
    } else {
      var next := AtLeastNext(x, Less(Less(min)), g, unicode, text, s.pos, rs);
      var once := SpreadFrom(next, rs, r);
      assert r in AtLeast(x, Less(Less(min)), g, unicode, text, once);
      LitOnce(x, unicode, text, s, once, r);
    }
  }

  // Each part of a concatenation has its literal in what the whole matches.
  lemma {:induction false} LitInTurn(re: Regexp, i: nat, j: nat, unicode: bool, text: Text, s: State, r: State)
    requires re.Concat? && i <= j < |re.subs| && s.pos <= |text| && r in InTurn(re, i, unicode, text, s)
    ensures Occurs(FindAbsenceLit(re.subs[j], unicode), text, s.pos, r.pos)
    decreases re, 0, |re.subs| - i
  {
    var rs := Runs(re.subs[i], unicode, text, s);
    var once := SpreadFrom(InTurnNext(re, i + 1, unicode, text, s.pos, rs), rs, r);
    assert r in InTurn(re, i + 1, unicode, text, once);
    if i == j {
      LitOnce(re.subs[i], unicode, text, s, once, r);
    } else {
      LitInTurn(re, i + 1, j, unicode, text, once, r);
      Widens(FindAbsenceLit(re.subs[j], unicode), text, once.pos, r.pos, s.pos, r.pos);
    }
  }

  lemma {:induction false} BestOccurs(subs: seq<Regexp>, n: nat, unicode: bool, text: Text, lo: nat, hi: nat)
    requires n <= |subs| && lo <= hi <= |text|
    requires forall j :: 0 <= j < n ==> Occurs(FindAbsenceLit(subs[j], unicode), text, lo, hi)
    ensures Occurs(BestOf(subs, n, unicode), text, lo, hi)
  {
    if n == 0 {
      EmptyOccurs(text, lo, hi);
    } else {
      BestOccurs(subs, n - 1, unicode, text, lo, hi);
    }
  }

  // ---- A set's literals ----

  datatype AbsenceLit = AbsenceLit(gid: nat, lit: seq<Byte>)

  // A pattern of a set: its tree, when it parses, and its mode.
  datatype Pattern = Pattern(tree: Option<Regexp>, unicode: bool)

  // The literal that may rule a pattern out, empty when it has none.
  function LitOf(p: Pattern): seq<Byte> {
    if p.tree.Some? then FindAbsenceLit(StripCaptures(p.tree.value), p.unicode) else []
  }

  ghost predicate Served(patterns: seq<Pattern>, ids: seq<int>, n: nat) {
    n <= |patterns| && n <= |ids| && forall i :: 0 <= i < n ==> 0 <= ids[i] < MAX_PATTERNS && patterns[i].tree.Some?
  }

  // How many of the first n patterns have a literal.
  function LitsBefore(patterns: seq<Pattern>, n: nat): nat
    requires n <= |patterns|
  {
    if n == 0 then 0 else LitsBefore(patterns, n - 1) + if LitOf(patterns[n - 1]) == [] then 0 else 1
  }

  // A pattern that may be ruled out: it has a literal, and the search mask still had a bit for it.
  predicate Fits(patterns: seq<Pattern>, i: nat)
    requires i < |patterns|
  {
    LitOf(patterns[i]) != [] && LitsBefore(patterns, i) < MAX_LITS
  }

  // The literals of the patterns that fit, in order.
  ghost function FittingLits(patterns: seq<Pattern>, ids: seq<int>, n: nat): seq<AbsenceLit>
    requires Served(patterns, ids, n)
  {
    if n == 0 then []
    else
      var rest := FittingLits(patterns, ids, n - 1);
      if Fits(patterns, n - 1) then rest + [AbsenceLit(ids[n - 1], LitOf(patterns[n - 1]))] else rest
  }

  // The patterns that do not, never ruled out.
  ghost function NeverOut(patterns: seq<Pattern>, ids: seq<int>, n: nat): set<nat>
    requires Served(patterns, ids, n)
  {
    if n == 0 then {}
    else
      var rest := NeverOut(patterns, ids, n - 1);
      if Fits(patterns, n - 1) then rest else rest + {ids[n - 1]}
  }

  lemma {:induction false} FittingCount(patterns: seq<Pattern>, ids: seq<int>, n: nat)
    requires Served(patterns, ids, n)
    ensures var k := LitsBefore(patterns, n);
            |FittingLits(patterns, ids, n)| == if k < MAX_LITS then k else MAX_LITS
  {
    if n > 0 {
      FittingCount(patterns, ids, n - 1);
    }
  }

  ghost predicate IsLitOf(patterns: seq<Pattern>, ids: seq<int>, i: nat, l: AbsenceLit)
    requires i < |patterns| && i < |ids|
  {
    Fits(patterns, i) && l.gid == ids[i] && l.lit == LitOf(patterns[i])
  }

  // A literal is some fitting pattern's own.
  lemma {:induction false} LitIsOf(patterns: seq<Pattern>, ids: seq<int>, n: nat, k: nat) returns (i: nat)
    requires Served(patterns, ids, n) && k < |FittingLits(patterns, ids, n)|
    ensures i < n && IsLitOf(patterns, ids, i, FittingLits(patterns, ids, n)[k])
  {
    i := n - 1;
    if k < |FittingLits(patterns, ids, n - 1)| {
      i := LitIsOf(patterns, ids, n - 1, k);
    }
  }

  // And each has one.
  lemma {:induction false} HasLit(patterns: seq<Pattern>, ids: seq<int>, n: nat, i: nat) returns (k: nat)
    requires Served(patterns, ids, n) && i < n && Fits(patterns, i)
    ensures k < |FittingLits(patterns, ids, n)| && IsLitOf(patterns, ids, i, FittingLits(patterns, ids, n)[k])
  {
    if i == n - 1 {
      k := |FittingLits(patterns, ids, n)| - 1;
    } else {
      k := HasLit(patterns, ids, n - 1, i);
    }
  }

  lemma {:induction false} NeverOutIs(patterns: seq<Pattern>, ids: seq<int>, n: nat, g: nat)
    requires Served(patterns, ids, n)
    ensures g in NeverOut(patterns, ids, n) <==> exists i :: 0 <= i < n && ids[i] == g && !Fits(patterns, i)
  {
    if n > 0 {
      NeverOutIs(patterns, ids, n - 1, g);
    }
  }

  lemma {:induction false} FirstLitFits(patterns: seq<Pattern>, n: nat) returns (i: nat)
    requires n <= |patterns| && LitsBefore(patterns, n) > 0
    ensures i < n && Fits(patterns, i)
  {
    if LitsBefore(patterns, n - 1) > 0 {
      i := FirstLitFits(patterns, n - 1);
    } else {
      i := n - 1;
    }
  }

  // buildAbsenceLits: refused for an id outside the alive mask's 64 bits, a pattern that does not parse, or a set no
  // pattern of which has a literal; the search mask's 32 bits hold the first literals only.
  method BuildAbsenceLits(patterns: seq<Pattern>, ids: seq<int>)
    returns (lits: seq<AbsenceLit>, always: set<nat>, ok: bool)
    ensures ok <==> Served(patterns, ids, |patterns|) && exists i :: 0 <= i < |patterns| && LitOf(patterns[i]) != []
    ensures ok ==> lits == FittingLits(patterns, ids, |patterns|) && |lits| <= MAX_LITS
    ensures ok ==> always == NeverOut(patterns, ids, |patterns|)
  {
    lits, always, ok := [], {}, false;
    for i := 0 to |patterns|
      invariant Served(patterns, ids, i)
      invariant lits == FittingLits(patterns, ids, i) && always == NeverOut(patterns, ids, i)
    {
      if i >= |ids| || !(0 <= ids[i] < MAX_PATTERNS) || patterns[i].tree.None? {
        return [], {}, false;
      }
      FittingCount(patterns, ids, i);
      var lit := LitOf(patterns[i]);
      if lit == [] || |lits| >= MAX_LITS {
        always := always + {ids[i]};
      } else {
        lits := lits + [AbsenceLit(ids[i], lit)];
      }
    }
    ok := |lits| > 0;
    SomeFit(patterns, ids);
  }

  lemma SomeFit(patterns: seq<Pattern>, ids: seq<int>)
    requires Served(patterns, ids, |patterns|)
    ensures |FittingLits(patterns, ids, |patterns|)| <= MAX_LITS
    ensures |FittingLits(patterns, ids, |patterns|)| > 0 <==>
              exists i :: 0 <= i < |patterns| && LitOf(patterns[i]) != []
  {
    FittingCount(patterns, ids, |patterns|);
    if |FittingLits(patterns, ids, |patterns|)| > 0 {
      var i := LitIsOf(patterns, ids, |patterns|, 0);
    } else {
      forall i | 0 <= i < |patterns| ensures LitOf(patterns[i]) == [] {
        if LitOf(patterns[i]) != [] {
          var j := FirstLitFits(patterns, i + 1);
          var k := HasLit(patterns, ids, |patterns|, j);
        }
      }
    }
  }

  // ---- The sweep ----

  ghost predicate Found(lits: seq<AbsenceLit>, i: nat, text: Text, from: nat)
    requires i < |lits|
  {
    Occurs(lits[i].lit, text, from, |text|)
  }

  // The literals out of the search occur, and alive is what nothing rules out and what they keep.
  ghost predicate Sound(lits: seq<AbsenceLit>, always: set<nat>, text: Text, from: nat, search: set<nat>,
                        alive: set<nat>) {
    && (forall i :: i in search ==> i < |lits|)
    && (forall i :: 0 <= i < |lits| && i !in search ==> Found(lits, i, text, from))
    && (forall g :: g in alive <==> g in always || exists i :: 0 <= i < |lits| && i !in search && lits[i].gid == g)
  }

  // No literal still searched for starts here.
  ghost predicate Missed(lits: seq<AbsenceLit>, text: Text, search: set<nat>, pos: nat) {
    forall i :: i in search && i < |lits| ==> !HasAt(text, pos, lits[i].lit)
  }

  // emitAbsenceVerify: every literal still searched for, tried at one position.
  method Verify(lits: seq<AbsenceLit>, text: Text, pos: nat, search0: set<nat>, alive0: set<nat>,
                ghost always: set<nat>, ghost from: nat)
    returns (search: set<nat>, alive: set<nat>)
    requires Sound(lits, always, text, from, search0, alive0) && from <= pos
    ensures Sound(lits, always, text, from, search, alive) && search <= search0 && Missed(lits, text, search, pos)
  {
    search, alive := search0, alive0;
    for i := 0 to |lits|
      invariant Sound(lits, always, text, from, search, alive) && search <= search0
      invariant forall j :: j in search && j < i ==> !HasAt(text, pos, lits[j].lit)
    {
      if i in search && HasAt(text, pos, lits[i].lit) {
        assert Found(lits, i, text, from);
        TakenOut(lits, always, text, from, search, alive, i);
        alive, search := alive + {lits[i].gid}, search - {i};
      }
    }
  }

  lemma TakenOut(lits: seq<AbsenceLit>, always: set<nat>, text: Text, from: nat, search: set<nat>, alive: set<nat>,
                 i: nat)
    requires Sound(lits, always, text, from, search, alive) && i < |lits| && Found(lits, i, text, from)
    ensures Sound(lits, always, text, from, search - {i}, alive + {lits[i].gid})
  {
    forall g ensures g in alive + {lits[i].gid} <==>
                     g in always || exists j :: 0 <= j < |lits| && j !in search - {i} && lits[j].gid == g {
      if g in alive && g !in always {
        var j :| 0 <= j < |lits| && j !in search && lits[j].gid == g;
        assert j !in search - {i};
      }
    }
  }

  // The first n positions from pos whose byte is b, as one compare of a chunk finds them.
  function Lanes(text: Text, pos: nat, n: nat, b: Byte): (at: set<nat>)
    requires pos + n <= |text|
    ensures forall k :: k in at <==> pos <= k < pos + n && text[k] == b
  {
    if n == 0 then {} else Lanes(text, pos, n - 1, b) + if text[pos + n - 1] == b then {pos + n - 1} else {}
  }

  lemma NotHere(text: Text, k: nat, lit: seq<Byte>)
    requires lit != [] && k < |text| && text[k] != lit[0]
    ensures !HasAt(text, k, lit)
  {
    if k + |lit| <= |text| {
      assert text[k..k + |lit|][0] == text[k];
    }
  }

  // The positions of the chunk at pos whose byte starts a literal still searched for.
  method ChunkMask(lits: seq<AbsenceLit>, text: Text, pos: nat, search: set<nat>) returns (mask: set<nat>)
    requires pos + LANES <= |text| && forall i :: 0 <= i < |lits| ==> 0 < |lits[i].lit|
    ensures forall k :: k in mask ==> pos <= k < pos + LANES
    ensures forall k :: pos <= k < pos + LANES && k !in mask ==> Missed(lits, text, search, k)
  {
    mask := {};
    for i := 0 to |lits|
      invariant forall k :: k in mask ==> pos <= k < pos + LANES
      invariant forall k, j :: pos <= k < pos + LANES && k !in mask && 0 <= j < i && j in search ==>
                  text[k] != lits[j].lit[0]
    {
      if i in search {
        mask := mask + Lanes(text, pos, LANES, lits[i].lit[0]);
      }
    }
    forall k | pos <= k < pos + LANES && k !in mask ensures Missed(lits, text, search, k) {
      forall j | j in search && j < |lits| ensures !HasAt(text, k, lits[j].lit) {
        NotHere(text, k, lits[j].lit);
      }
    }
  }

  // ctz: the lowest lane left.
  method Lowest(mask: set<nat>, pos: nat) returns (at: nat)
    requires mask != {} && forall k :: k in mask ==> pos <= k < pos + LANES
    ensures at in mask && forall k :: k in mask ==> at <= k
  {
    at := pos;
    var some :| some in mask;
    while at !in mask
      invariant forall k :: k in mask ==> at <= k
      decreases some - at
    {
      at := at + 1;
    }
  }

  // Drain a chunk's candidate lanes; after it no position of the chunk starts a literal still searched for.
  method Drain(lits: seq<AbsenceLit>, text: Text, pos: nat, search0: set<nat>, alive0: set<nat>,
               ghost always: set<nat>, ghost from: nat)
    returns (search: set<nat>, alive: set<nat>)
    requires Sound(lits, always, text, from, search0, alive0) && from <= pos && pos + LANES <= |text|
    requires forall i :: 0 <= i < |lits| ==> 0 < |lits[i].lit|
    ensures Sound(lits, always, text, from, search, alive) && search <= search0
    ensures forall k :: pos <= k < pos + LANES ==> Missed(lits, text, search, k)
  {
    search, alive := search0, alive0;
    var mask := ChunkMask(lits, text, pos, search);
    while mask != {}
      invariant Sound(lits, always, text, from, search, alive) && search <= search0
      invariant forall k :: k in mask ==> pos <= k < pos + LANES
      invariant forall k :: pos <= k < pos + LANES && k !in mask ==> Missed(lits, text, search, k)
      decreases |mask|
    {
      var at := Lowest(mask, pos);
      search, alive := Verify(lits, text, at, search, alive, always, from);
      mask := mask - {at};
    }
  }

  lemma StillMissed(lits: seq<AbsenceLit>, text: Text, before: set<nat>, search: set<nat>, from: nat, to: nat)
    requires search <= before && forall k :: from <= k < to ==> Missed(lits, text, before, k)
    ensures forall k :: from <= k < to ==> Missed(lits, text, search, k)
  {
    forall k | from <= k < to ensures Missed(lits, text, search, k) {
      assert Missed(lits, text, before, k);
    }
  }

  // emitLiteralAbsenceMask: chunks of sixteen, then position by position, stopping when every literal is found.
  method AliveMask(lits: seq<AbsenceLit>, always: set<nat>, text: Text, from: nat) returns (alive: set<nat>)
    requires forall i :: 0 <= i < |lits| ==> 0 < |lits[i].lit|
    ensures forall g :: g in alive <==>
              g in always || exists i :: 0 <= i < |lits| && lits[i].gid == g && Found(lits, i, text, from)
  {
    var search, pos := Below(|lits|), from;
    alive := always;
    while search != {} && pos + LANES <= |text|
      invariant Sound(lits, always, text, from, search, alive) && from <= pos
      invariant forall k :: from <= k < pos ==> Missed(lits, text, search, k)
      decreases |text| - pos
    {
      ghost var before := search;
      search, alive := Drain(lits, text, pos, search, alive, always, from);
      StillMissed(lits, text, before, search, from, pos);
      pos := pos + LANES;
    }
    while search != {} && pos < |text|
      invariant Sound(lits, always, text, from, search, alive) && from <= pos
      invariant forall k :: from <= k < pos ==> Missed(lits, text, search, k)
      decreases |text| - pos
    {
      ghost var before := search;
      search, alive := Verify(lits, text, pos, search, alive, always, from);
      StillMissed(lits, text, before, search, from, pos);
      pos := pos + 1;
    }
    NoneLeft(lits, text, from, pos, search);
  }

  lemma NoneLeft(lits: seq<AbsenceLit>, text: Text, from: nat, pos: nat, search: set<nat>)
    requires (forall i :: 0 <= i < |lits| ==> 0 < |lits[i].lit|) && (search == {} || |text| <= pos)
    requires forall k :: from <= k < pos ==> Missed(lits, text, search, k)
    ensures forall i :: i in search && i < |lits| ==> !Found(lits, i, text, from)
  {
    if search != {} {
      forall i | i in search && i < |lits| ensures !Found(lits, i, text, from) {
        forall k | from <= k && k + |lits[i].lit| <= |text| ensures !HasAt(text, k, lits[i].lit) {
          assert Missed(lits, text, search, k);
        }
      }
    }
  }

  // ---- The result ----

  // A pattern stays alive when it does not fit the search, or its literal occurs.
  ghost predicate StaysAt(patterns: seq<Pattern>, ids: seq<int>, text: Text, from: nat, g: nat, i: nat)
    requires i < |patterns| && i < |ids|
  {
    ids[i] == g && (!Fits(patterns, i) || Occurs(LitOf(patterns[i]), text, from, |text|))
  }

  ghost predicate Stays(patterns: seq<Pattern>, ids: seq<int>, text: Text, from: nat, g: nat) {
    exists i :: 0 <= i < |patterns| && i < |ids| && StaysAt(patterns, ids, text, from, g, i)
  }

  // A set's alive mask, exactly; no pattern with a match anywhere at or after from is missing from it.
  method AlivePatterns(patterns: seq<Pattern>, ids: seq<int>, text: Text, from: nat)
    returns (served: bool, alive: set<nat>)
    ensures served <==> Served(patterns, ids, |patterns|) && exists i :: 0 <= i < |patterns| && LitOf(patterns[i]) != []
    ensures served ==> forall g: nat :: g in alive <==> Stays(patterns, ids, text, from, g)
    ensures served ==>
              forall i, s, r :: 0 <= i < |patterns| && MatchFrom(patterns[i], text, from, s, r) ==> ids[i] in alive
  {
    var lits, always;
    lits, always, served := BuildAbsenceLits(patterns, ids);
    alive := {};
    if served {
      LitsNonEmpty(patterns, ids);
      alive := AliveMask(lits, always, text, from);
      forall g: nat ensures g in alive <==> Stays(patterns, ids, text, from, g) {
        AliveIsStays(patterns, ids, text, from, g);
      }
      forall i, s, r | 0 <= i < |patterns| && MatchFrom(patterns[i], text, from, s, r) ensures ids[i] in alive {
        MatchStays(patterns, ids, text, from, i, s, r);
      }
    }
  }

  lemma LitsNonEmpty(patterns: seq<Pattern>, ids: seq<int>)
    requires Served(patterns, ids, |patterns|)
    ensures forall k :: 0 <= k < |FittingLits(patterns, ids, |patterns|)| ==>
              |FittingLits(patterns, ids, |patterns|)[k].lit| > 0
  {
    forall k | 0 <= k < |FittingLits(patterns, ids, |patterns|)|
      ensures |FittingLits(patterns, ids, |patterns|)[k].lit| > 0
    {
      var i := LitIsOf(patterns, ids, |patterns|, k);
    }
  }

  lemma AliveIsStays(patterns: seq<Pattern>, ids: seq<int>, text: Text, from: nat, g: nat)
    requires Served(patterns, ids, |patterns|)
    ensures var n := |patterns|; var lits := FittingLits(patterns, ids, n);
            Stays(patterns, ids, text, from, g) <==>
              g in NeverOut(patterns, ids, n) ||
              exists k :: 0 <= k < |lits| && lits[k].gid == g && Found(lits, k, text, from)
  {
    var n := |patterns|;
    var lits := FittingLits(patterns, ids, n);
    NeverOutIs(patterns, ids, n, g);
    if Stays(patterns, ids, text, from, g) {
      var i :| 0 <= i < n && i < |ids| && StaysAt(patterns, ids, text, from, g, i);
      if Fits(patterns, i) {
        var k := HasLit(patterns, ids, n, i);
        assert lits[k].gid == g && Found(lits, k, text, from);
      }
    }
    if g in NeverOut(patterns, ids, n) {
      var i :| 0 <= i < n && ids[i] == g && !Fits(patterns, i);
      assert StaysAt(patterns, ids, text, from, g, i);
    }
    if k :| 0 <= k < |lits| && lits[k].gid == g && Found(lits, k, text, from) {
      var i := LitIsOf(patterns, ids, n, k);
      assert StaysAt(patterns, ids, text, from, g, i);
    }
  }

  ghost predicate MatchFrom(p: Pattern, text: Text, from: nat, s: State, r: State) {
    p.tree.Some? && from <= s.pos <= |text| && r in Runs(p.tree.value, p.unicode, text, s)
  }

  lemma MatchStays(patterns: seq<Pattern>, ids: seq<int>, text: Text, from: nat, i: nat, s: State, r: State)
    requires Served(patterns, ids, |patterns|) && i < |patterns| && MatchFrom(patterns[i], text, from, s, r)
    ensures Stays(patterns, ids, text, from, ids[i])
  {
    var p := patterns[i];
    StripKeepsLit(p.tree.value, p.unicode);
    LitInEveryMatch(p.tree.value, p.unicode, text, s, r);
    Widens(LitOf(p), text, s.pos, r.pos, from, |text|);
    assert StaysAt(patterns, ids, text, from, ids[i], i);
  }
}
