/** The plain backtracking matcher, instruction by instruction: the answer of the graph definition is its answer. */
module Textbook {
  // Nothing here is taken from the machine: an alternation tries its first branch, then its second; a capture records
  // the position; an assertion and a byte are tested by what they mean for the text; and a state that is met again on
  // the way to itself is not tried again.

  import opened PrioritySearch
  import opened BtProgram
  import opened TextLaws
  import opened BtMachine
  import opened BtSpec

  // The byte is one the instruction asks for.
  ghost predicate Eats(inst: Inst, b: Byte) {
    match inst
    case Rune1(_, r, fold) => if fold then LowerCase(b) == LowerCase(r) else b == r
    case Runes(_, ranges) => exists range :: range in ranges && range.0 <= b && b <= range.1
    case AnyByte(_) => true
    case AnyNotNL(_) => b as char != '\n'
    case _ => false
  }

  lemma Targets(e: Env, pc: nat)
    requires ValidProg(e.prog, e.slots) && pc < |e.prog|
    ensures var inst := e.prog[pc];
            && (!inst.Match? && !inst.Fail? ==> inst.out < |e.prog|)
            && (inst.IsAlt() ==> inst.arg < |e.prog|)
  {
    var inst := e.prog[pc];
    if inst.IsAlt() {
      assert inst.Edges()[0] == inst.out && inst.Edges()[1] == inst.arg;
    } else if !inst.Match? && !inst.Fail? {
      assert inst.Edges()[0] == inst.out;
    }
  }

  ghost function Visit(e: Env, pc: nat, pos: nat, caps: seq<int>, seen: set<Node>): (r: Result)
    requires e.Valid() && e.Has(At(pc, pos)) && |caps| == e.slots
    decreases Unseen(e, seen), 1
  {
    if At(pc, pos) in seen then NoMatch
    else
      Targets(e, pc);
      match e.prog[pc]
      case Match => if e.whole && pos < e.limit then NoMatch else MatchAt(pos, caps)
      case Fail => NoMatch
      case Alt(out, arg) => Either(e, pc, out, arg, pos, caps, seen)
      case AltMatch(out, arg) => Either(e, pc, out, arg, pos, caps, seen)
      case Nop(out) => Then(e, pc, pos, out, pos, caps, seen)
      case Capture(out, slot) => Then(e, pc, pos, out, pos, caps[slot := pos], seen)
      case Assert(out, what) => if Stands(what, e.text, pos) then Then(e, pc, pos, out, pos, caps, seen) else NoMatch
      case Rune1(out, _, _) => Eat(e, pc, pos, out, caps, seen)
      case Runes(out, _) => Eat(e, pc, pos, out, caps, seen)
      case AnyByte(out) => Eat(e, pc, pos, out, caps, seen)
      case AnyNotNL(out) => Eat(e, pc, pos, out, caps, seen)
  }

  ghost function Unseen(e: Env, seen: set<Node>): set<Node> {
    (set pc, pos | 0 <= pc < |e.prog| && e.first <= pos <= e.limit :: At(pc, pos)) - seen
  }

  // On to the next instruction, this one seen.
  ghost function Then(e: Env, pc: nat, pos: nat, next: nat, pos': nat, caps: seq<int>, seen: set<Node>): (r: Result)
    requires e.Valid() && e.Has(At(pc, pos)) && At(pc, pos) !in seen && |caps| == e.slots
    requires e.Has(At(next, pos'))
    decreases Unseen(e, seen), 0
  {
    assert At(pc, pos) in Unseen(e, seen) && At(pc, pos) !in Unseen(e, seen + {At(pc, pos)});
    Visit(e, next, pos', caps, seen + {At(pc, pos)})
  }

  ghost function Either(e: Env, pc: nat, out: nat, arg: nat, pos: nat, caps: seq<int>, seen: set<Node>): (r: Result)
    requires e.Valid() && e.Has(At(pc, pos)) && At(pc, pos) !in seen && |caps| == e.slots
    requires out < |e.prog| && arg < |e.prog|
    decreases Unseen(e, seen), 0
  {
    assert At(pc, pos) in Unseen(e, seen) && At(pc, pos) !in Unseen(e, seen + {At(pc, pos)});
    var first := Visit(e, out, pos, caps, seen + {At(pc, pos)});
    if first.MatchAt? then first else Visit(e, arg, pos, caps, seen + {At(pc, pos)})
  }

  ghost function Eat(e: Env, pc: nat, pos: nat, out: nat, caps: seq<int>, seen: set<Node>): (r: Result)
    requires e.Valid() && e.Has(At(pc, pos)) && At(pc, pos) !in seen && |caps| == e.slots
    requires out < |e.prog|
    decreases Unseen(e, seen), 0
  {
    assert At(pc, pos) in Unseen(e, seen) && At(pc, pos) !in Unseen(e, seen + {At(pc, pos)});
    if pos < e.limit && Eats(e.prog[pc], e.text[pos]) then Visit(e, out, pos + 1, caps, seen + {At(pc, pos)})
    else NoMatch
  }

  // ---- The graph's answer is the matcher's ----

  lemma EatsIsAdmits(inst: Inst, b: Byte)
    requires inst.Consumes()
    ensures Eats(inst, b) <==> inst.Admits(b)
  {
    match inst
    case Rune1(_, r, fold) => FoldLaws(b, r); FoldLaws(r, b);
    case Runes(_, ranges) =>
      if Eats(inst, b) {
        var range :| range in ranges && range.0 <= b && b <= range.1;
        var i :| 0 <= i < |ranges| && ranges[i] == range;
      }
    case AnyByte(_) =>
    case AnyNotNL(_) =>
  }

  // What the path found from here stands for.
  ghost function Owed(e: Env, n: Node, caps: seq<int>, seen: set<Node>): Result
    requires e.Valid() && e.plan == NO_PLAN && e.Has(n) && |caps| == e.slots
  {
    ReferenceValid(e);
    ResultOf(e, ReferenceGraph(e), n, Best(ReferenceGraph(e), n, seen), caps)
  }

  // The search below a state that does not accept.
  lemma Below(e: Env, n: Node, seen: set<Node>)
    requires e.Valid() && e.plan == NO_PLAN && e.Has(n) && n !in seen && !e.Accepts(n)
    ensures var g, ms := ReferenceGraph(e), e.Succ(n);
            && g.Valid() && n in g.succ && g.succ[n] == ms && g.Level(n) == 1
            && (forall j :: 0 <= j < |ms| ==> ms[j] in g.succ && g.rank[ms[j]] < 1)
            && Best(g, n, seen) == BestOf(g, ms, 0, 1, seen + {n})
  {
    ReferenceValid(e);
    Shrinks(ReferenceGraph(e), n, seen);
  }

  // What a branch's path gives its state's.
  lemma Behind(e: Env, n: Node, k: nat, found: Found, caps: seq<int>)
    requires e.Valid() && e.plan == NO_PLAN && e.Has(n) && |caps| == e.slots && k < |e.Succ(n)|
    ensures var g := ReferenceGraph(e);
            ResultOf(e, g, n, if found.Found? then Found([k] + found.path) else NotFound, caps)
            == ResultOf(e, g, e.Succ(n)[k], found, Touch(e, n, caps))
  {
    if found.Found? {
      assert ([k] + found.path)[1..] == found.path;
      ResultOfCons(e, ReferenceGraph(e), n, [k] + found.path, caps);
    }
  }

  // A state without a successor, that does not accept.
  lemma DeadEnd(e: Env, n: Node, caps: seq<int>, seen: set<Node>)
    requires e.Valid() && e.plan == NO_PLAN && e.Has(n) && |caps| == e.slots && n !in seen
    requires !e.Accepts(n) && e.Succ(n) == []
    ensures Owed(e, n, caps, seen) == NoMatch
  {
    Below(e, n, seen);
  }

  lemma BestOfOne(g: Graph<Node>, m: Node, level: nat, avoid: set<Node>)
    requires g.Valid() && m in g.succ && g.rank[m] < level
    ensures var b := Best(g, m, avoid);
            BestOf(g, [m], 0, level, avoid) == if b.Found? then Found([0] + b.path) else NotFound
  {
    assert BestOf(g, [m], 1, level, avoid) == NotFound;
  }

  lemma BestOfTwo(g: Graph<Node>, a: Node, b: Node, level: nat, avoid: set<Node>)
    requires g.Valid() && a in g.succ && b in g.succ && g.rank[a] < level && g.rank[b] < level
    ensures var one, two := Best(g, a, avoid), Best(g, b, avoid);
            BestOf(g, [a, b], 0, level, avoid)
            == if one.Found? then Found([0] + one.path) else if two.Found? then Found([1] + two.path) else NotFound
  {
    assert BestOf(g, [a, b], 2, level, avoid) == NotFound;
    assert BestOf(g, [a, b], 1, level, avoid)
        == if Best(g, b, avoid).Found? then Found([1] + Best(g, b, avoid).path) else NotFound;
  }

  // A state with one.
  lemma OneWay(e: Env, n: Node, m: Node, caps: seq<int>, seen: set<Node>)
    requires e.Valid() && e.plan == NO_PLAN && e.Has(n) && |caps| == e.slots && n !in seen
    requires !e.Accepts(n) && e.Has(m) && e.Succ(n) == [m]
    ensures Owed(e, n, caps, seen) == Owed(e, m, Touch(e, n, caps), seen + {n})
  {
    var g := ReferenceGraph(e);
    Below(e, n, seen);
    BestOfOne(g, m, 1, seen + {n});
    Behind(e, n, 0, Best(g, m, seen + {n}), caps);
  }

  // A state with two.
  lemma TwoWays(e: Env, n: Node, a: Node, b: Node, caps: seq<int>, seen: set<Node>)
    requires e.Valid() && e.plan == NO_PLAN && e.Has(n) && |caps| == e.slots && n !in seen
    requires !e.Accepts(n) && e.Has(a) && e.Has(b) && e.Succ(n) == [a, b] && Touch(e, n, caps) == caps
    ensures var first := Owed(e, a, caps, seen + {n});
            Owed(e, n, caps, seen) == if first.MatchAt? then first else Owed(e, b, caps, seen + {n})
  {
    var g := ReferenceGraph(e);
    Below(e, n, seen);
    BestOfTwo(g, a, b, 1, seen + {n});
    Behind(e, n, 0, Best(g, a, seen + {n}), caps);
    Behind(e, n, 1, Best(g, b, seen + {n}), caps);
  }

  lemma {:induction false} VisitIsOwed(e: Env, pc: nat, pos: nat, caps: seq<int>, seen: set<Node>)
    requires e.Valid() && e.plan == NO_PLAN && e.Has(At(pc, pos)) && |caps| == e.slots
    ensures Visit(e, pc, pos, caps, seen) == Owed(e, At(pc, pos), caps, seen)
    decreases Unseen(e, seen)
  {
    var n := At(pc, pos);
    if n !in seen {
      assert n in Unseen(e, seen) && n !in Unseen(e, seen + {n});
      var inst := e.prog[pc];
      Targets(e, pc);
      if inst.IsAlt() {
        ForkIsOwed(e, pc, pos, caps, seen);
      } else if inst.Match? {
        AtMatch(e, n, caps, seen);
      } else if inst.Consumes() {
        EatIsOwed(e, pc, pos, caps, seen);
      } else if inst.Assert? {
        HoldsIsStands(inst.what, e.text, pos);
        if Holds(inst.what, e.text, pos) {
          VisitIsOwed(e, inst.out, pos, caps, seen + {n});
          OneWay(e, n, At(inst.out, pos), caps, seen);
        } else {
          DeadEnd(e, n, caps, seen);
        }
      } else if inst.Capture? {
        VisitIsOwed(e, inst.out, pos, caps[inst.slot := pos], seen + {n});
        OneWay(e, n, At(inst.out, pos), caps, seen);
      } else if inst.Nop? {
        VisitIsOwed(e, inst.out, pos, caps, seen + {n});
        OneWay(e, n, At(inst.out, pos), caps, seen);
      } else {
        DeadEnd(e, n, caps, seen);
      }
    }
  }

  lemma ForkIsOwed(e: Env, pc: nat, pos: nat, caps: seq<int>, seen: set<Node>)
    requires e.Valid() && e.plan == NO_PLAN && e.Has(At(pc, pos)) && |caps| == e.slots && At(pc, pos) !in seen
    requires e.prog[pc].IsAlt()
    ensures Visit(e, pc, pos, caps, seen) == Owed(e, At(pc, pos), caps, seen)
    decreases Unseen(e, seen), 0
  {
    var n, inst := At(pc, pos), e.prog[pc];
    Targets(e, pc);
    assert n in Unseen(e, seen) && n !in Unseen(e, seen + {n});
    VisitIsOwed(e, inst.out, pos, caps, seen + {n});
    VisitIsOwed(e, inst.arg, pos, caps, seen + {n});
    TwoWays(e, n, At(inst.out, pos), At(inst.arg, pos), caps, seen);
  }

  lemma EatIsOwed(e: Env, pc: nat, pos: nat, caps: seq<int>, seen: set<Node>)
    requires e.Valid() && e.plan == NO_PLAN && e.Has(At(pc, pos)) && |caps| == e.slots && At(pc, pos) !in seen
    requires e.prog[pc].Consumes()
    ensures Visit(e, pc, pos, caps, seen) == Owed(e, At(pc, pos), caps, seen)
    decreases Unseen(e, seen), 0
  {
    var n, inst := At(pc, pos), e.prog[pc];
    Targets(e, pc);
    assert n in Unseen(e, seen) && n !in Unseen(e, seen + {n});
    if pos < e.limit {
      EatsIsAdmits(inst, e.text[pos]);
    }
    if pos < e.limit && inst.Admits(e.text[pos]) {
      VisitIsOwed(e, inst.out, pos + 1, caps, seen + {n});
      OneWay(e, n, At(inst.out, pos + 1), caps, seen);
    } else {
      DeadEnd(e, n, caps, seen);
    }
  }

  lemma AtMatch(e: Env, n: Node, caps: seq<int>, seen: set<Node>)
    requires e.Valid() && e.plan == NO_PLAN && e.Has(n) && |caps| == e.slots && n !in seen && e.prog[n.pc].Match?
    ensures Owed(e, n, caps, seen) == if e.Accepts(n) then MatchAt(n.pos, caps) else NoMatch
  {
    if e.Accepts(n) {
      var g := ReferenceGraph(e);
      assert Nodes(g, n, []) == [n];
      assert Capturing(e, [n], caps) == caps;
    } else {
      DeadEnd(e, n, caps, seen);
    }
  }

  // ---- The answer a call owes ----

  // The whole matcher, from one state.
  ghost function MatchFrom(e: Env, start: Node, caps: seq<int>): Result
    requires e.Valid() && e.Live(start) && |caps| == e.slots
  {
    Visit(e, start.pc, start.pos, caps, {})
  }

  lemma ReferenceIsTextbook(e: Env, start: Node, caps: seq<int>)
    requires e.Valid() && e.Live(start) && |caps| == e.slots
    ensures Plain(e).Valid() && Reference(e, start, caps) == MatchFrom(Plain(e), start, caps)
  {
    PlainValid(e);
    VisitIsOwed(Plain(e), start.pc, start.pos, caps, {});
  }

  // ---- What the slots of the answer hold ----

  predicate Records(e: Env, n: Node, slot: nat) {
    n.pc < |e.prog| && e.prog[n.pc].Capture? && e.prog[n.pc].slot == slot
  }

  ghost predicate RecordsLast(e: Env, path: seq<Node>, slot: nat, i: int) {
    0 <= i < |path| && Records(e, path[i], slot) && forall j :: i < j < |path| ==> !Records(e, path[j], slot)
  }

  // Where the path last records the slot; what it held before when it never does.
  ghost predicate IsLastRecord(e: Env, path: seq<Node>, slot: nat, before: int, now: int) {
    || (exists i :: RecordsLast(e, path, slot, i) && now == path[i].pos)
    || ((forall i :: 0 <= i < |path| ==> !Records(e, path[i], slot)) && now == before)
  }

  lemma {:induction false} CapturingIs(e: Env, path: seq<Node>, caps: seq<int>, slot: nat)
    requires |caps| == e.slots && slot < e.slots
    ensures IsLastRecord(e, path, slot, caps[slot], Capturing(e, path, caps)[slot])
  {
    if path != [] {
      var tail, after := path[1..], Touch(e, path[0], caps);
      CapturingIs(e, tail, after, slot);
      if i :| RecordsLast(e, tail, slot, i) && Capturing(e, path, caps)[slot] == tail[i].pos {
        assert forall j :: i + 1 < j < |path| ==> path[j] == tail[j - 1];
        assert RecordsLast(e, path, slot, i + 1);
      } else {
        assert forall j :: 0 < j < |path| ==> path[j] == tail[j - 1];
        assert Records(e, path[0], slot) ==> RecordsLast(e, path, slot, 0);
      }
    }
  }

  // The states of the path the answer stands for.
  ghost function Winning(e: Env, start: Node): seq<Node>
    requires e.Valid() && e.plan == NO_PLAN && e.Has(start)
  {
    ReferenceValid(e);
    var b := Best(ReferenceGraph(e), start, {});
    if b.Found? then Nodes(ReferenceGraph(e), start, b.path) else []
  }

  // It accepts, repeats no state, and comes before every other such path.
  ghost predicate Wins(e: Env, start: Node, path: seq<Node>)
    requires e.Valid()
  {
    exists cs :: Simple(ReferenceGraph(e), start, cs, {}) && path == Nodes(ReferenceGraph(e), start, cs) &&
                 forall others :: Simple(ReferenceGraph(e), start, others, {}) ==> Before(cs, others)
  }

  ghost predicate ReadOff(e: Env, path: seq<Node>, caps: seq<int>, end: nat, slots: seq<int>)
    requires |caps| == e.slots
  {
    && path != [] && end == path[|path| - 1].pos && |slots| == e.slots
    && forall k :: 0 <= k < e.slots ==> IsLastRecord(e, path, k, caps[k], slots[k])
  }

  // The end and the slots of an answer are read off the winning path.
  lemma MatchReadsOff(e: Env, start: Node, caps: seq<int>)
    requires e.Valid() && e.plan == NO_PLAN && e.Live(start) && |caps| == e.slots && MatchFrom(e, start, caps).MatchAt?
    ensures var r := MatchFrom(e, start, caps);
            Wins(e, start, Winning(e, start)) && ReadOff(e, Winning(e, start), caps, r.end, r.caps)
  {
    ReferenceIsTextbook(e, start, caps);
    ReferenceValid(e);
    var g := ReferenceGraph(e);
    BestIsLeast(g, start, {});
    var path := Winning(e, start);
    assert path == Nodes(g, start, Best(g, start, {}).path);
    forall k | 0 <= k < e.slots ensures IsLastRecord(e, path, k, caps[k], Capturing(e, path, caps)[k]) {
      CapturingIs(e, path, caps, k);
    }
  }
}
