/** Backtracking programs: instructions, what they test, and the graph of machine states they span. */
module BtProgram {
  import opened PrioritySearch

  type Byte = b: int | 0 <= b < 256 witness 0

  const NEWLINE: Byte := 10

  // A zero-width assertion, one per instruction.
  datatype Assertion = BeginLine | EndLine | BeginText | EndText | WordBoundary | NoWordBoundary

  // A compiled program in the shapes regexp/syntax emits: case folding only ever on a single rune.
  datatype Inst =
    | Alt(out: nat, arg: nat)
    | AltMatch(out: nat, arg: nat)
    | Capture(out: nat, slot: nat)
    | Nop(out: nat)
    | Assert(out: nat, what: Assertion)
    | Rune1(out: nat, r: nat, fold: bool)
    | Runes(out: nat, ranges: seq<(nat, nat)>)
    | AnyByte(out: nat)
    | AnyNotNL(out: nat)
    | Match
    | Fail
  {
    predicate IsAlt() {
      Alt? || AltMatch?
    }

    predicate Consumes() {
      Rune1? || Runes? || AnyByte? || AnyNotNL?
    }

    // Successor instructions, in priority order, whatever the input.
    function Edges(): seq<nat> {
      match this
      case Alt(out, arg) => [out, arg]
      case AltMatch(out, arg) => [out, arg]
      case Match => []
      case Fail => []
      case _ => [out]
    }

    // The byte test of a consuming instruction, bounds saturated at 0xFF.
    predicate Admits(b: Byte) {
      match this
      case Rune1(_, r, fold) => b == r || (fold && b == FoldRune(r))
      case Runes(_, ranges) => exists i :: 0 <= i < |ranges| && ranges[i].0 <= b <= ranges[i].1
      case AnyByte(_) => true
      case AnyNotNL(_) => b != NEWLINE
      case _ => false
    }
  }

  // ASCII letters only.
  function FoldRune(r: nat): nat {
    if 97 <= r <= 122 then r - 32 else if 65 <= r <= 90 then r + 32 else r
  }

  predicate IsWord(b: Byte) {
    97 <= b <= 122 || 65 <= b <= 90 || 48 <= b <= 57 || b == 95
  }

  type Prog = seq<Inst>

  ghost predicate ValidProg(prog: Prog, slots: nat) {
    forall pc :: 0 <= pc < |prog| ==>
      && (forall k :: 0 <= k < |prog[pc].Edges()| ==> prog[pc].Edges()[k] < |prog|)
      && (prog[pc].Capture? ==> prog[pc].slot < slots)
  }

  type Text = seq<Byte>

  predicate Holds(what: Assertion, text: Text, pos: nat)
    requires pos <= |text|
  {
    match what
    case BeginLine => pos == 0 || text[pos - 1] == NEWLINE
    case BeginText => pos == 0
    case EndLine => pos == |text| || text[pos] == NEWLINE
    case EndText => pos == |text|
    case WordBoundary => WordAt(text, pos - 1) != WordAt(text, pos)
    case NoWordBoundary => WordAt(text, pos - 1) == WordAt(text, pos)
  }

  predicate WordAt(text: Text, k: int) {
    0 <= k < |text| && IsWord(text[k])
  }

  // ---- First-byte dispatch, as a plan over the program ----

  const END_OF_INPUT := 256

  // One chain head: its arms in priority order, and for each byte (END_OF_INPUT: none left) the arms it tries.
  datatype Dispatch = Dispatch(arms: seq<nat>, caseOf: seq<nat>, cases: seq<seq<nat>>)

  datatype Plan = Plan(heads: map<nat, Dispatch>, dead: set<nat>)

  const NO_PLAN := Plan(map[], {})

  ghost predicate ValidDispatch(d: Dispatch, n: nat) {
    && |d.arms| >= 2 && (forall i :: 0 <= i < |d.arms| ==> d.arms[i] < n)
    && |d.caseOf| == 257 && (forall c :: 0 <= c < 257 ==> d.caseOf[c] < |d.cases|)
    && (forall k, i :: 0 <= k < |d.cases| && 0 <= i < |d.cases[k]| ==> d.cases[k][i] < |d.arms|)
    && (forall k :: 0 <= k < |d.cases| ==> |d.cases[k]| <= |d.arms|)
  }

  // What the machine needs of a plan: nothing live leads to a dead instruction, and heads are live Alts.
  ghost predicate ValidPlan(plan: Plan, prog: Prog) {
    && (forall h :: h in plan.heads ==>
         h < |prog| && prog[h].Alt? && h !in plan.dead && ValidDispatch(plan.heads[h], |prog|))
    && (forall h, i :: h in plan.heads && 0 <= i < |plan.heads[h].arms| ==> plan.heads[h].arms[i] !in plan.dead)
    && (forall pc, k :: 0 <= pc < |prog| && pc !in plan.dead && pc !in plan.heads && 0 <= k < |prog[pc].Edges()| ==>
          prog[pc].Edges()[k] !in plan.dead)
  }

  function ArmsAt(d: Dispatch, arms: seq<nat>): (pcs: seq<nat>)
    requires forall i :: 0 <= i < |arms| ==> arms[i] < |d.arms|
    ensures |pcs| == |arms| && forall i :: 0 <= i < |arms| ==> pcs[i] == d.arms[arms[i]]
  {
    seq(|arms|, i requires 0 <= i < |arms| => d.arms[arms[i]])
  }

  // ---- Machine states and their graph ----

  datatype Node = At(pc: nat, pos: nat)

  // One call: the program and its plan, the whole text, the window the call may consume, and whether a
  // match must end at the window's end.
  datatype Env = Env(prog: Prog, plan: Plan, slots: nat, text: Text, first: nat, limit: nat, whole: bool) {
    ghost predicate Valid() {
      first <= limit <= |text| && ValidProg(prog, slots) && ValidPlan(plan, prog)
    }

    predicate Has(n: Node) {
      n.pc < |prog| && first <= n.pos <= limit
    }

    predicate Live(n: Node) {
      Has(n) && n.pc !in plan.dead
    }

    function NextByte(pos: nat): nat
      requires limit <= |text|
    {
      if pos < limit then text[pos] else END_OF_INPUT
    }

    // The successors of a live state, in priority order.
    function Succ(n: Node): (ms: seq<Node>)
      requires Valid() && Live(n)
      ensures forall i :: 0 <= i < |ms| ==> Live(ms[i]) && n.pos <= ms[i].pos
    {
      var inst := prog[n.pc];
      if n.pc in plan.heads then
        var d := plan.heads[n.pc];
        var list := d.cases[d.caseOf[NextByte(n.pos)]];
        var pcs := ArmsAt(d, list);
        seq(|pcs|, i requires 0 <= i < |pcs| => At(pcs[i], n.pos))
      else if inst.Consumes() then
        if n.pos < limit && inst.Admits(text[n.pos]) then [At(inst.Edges()[0], n.pos + 1)] else []
      else if inst.Assert? && !Holds(inst.what, text, n.pos) then []
      else seq(|inst.Edges()|, i requires 0 <= i < |inst.Edges()| => At(inst.Edges()[i], n.pos))
    }

    predicate Accepts(n: Node) {
      Has(n) && prog[n.pc].Match? && (whole ==> n.pos == limit)
    }

    function States(): (s: set<Node>)
      ensures forall n :: n in s <==> Live(n)
    {
      set pc, pos | 0 <= pc < |prog| && first <= pos <= limit && pc !in plan.dead :: At(pc, pos)
    }
  }

  // What passing a state does to the captures, and what a whole path does.
  function Touch(e: Env, n: Node, caps: seq<int>): (c: seq<int>)
    requires |caps| == e.slots
    ensures |c| == e.slots
  {
    if n.pc < |e.prog| && e.prog[n.pc].Capture? && e.prog[n.pc].slot < e.slots
      then caps[e.prog[n.pc].slot := n.pos] else caps
  }

  function Capturing(e: Env, nodes: seq<Node>, caps: seq<int>): (c: seq<int>)
    requires |caps| == e.slots
    ensures |c| == e.slots
  {
    if nodes == [] then caps else Capturing(e, nodes[1..], Touch(e, nodes[0], caps))
  }

  datatype Result = NoMatch | MatchAt(end: nat, caps: seq<int>)

  // The result a path stands for.
  function ResultOf(e: Env, g: Graph<Node>, n: Node, found: Found, caps: seq<int>): Result
    requires |caps| == e.slots
  {
    match found
    case NotFound => NoMatch
    case Found(cs) =>
      var nodes := Nodes(g, n, cs);
      MatchAt(nodes[|nodes| - 1].pos, Capturing(e, nodes, caps))
  }

  // The graph of a call: guarded is the set of states the body marks.
  function GraphOf(e: Env, guarded: set<Node>, rank: map<Node, nat>, bound: nat): Graph<Node>
    requires e.Valid()
  {
    Graph(map n | n in e.States() :: e.Succ(n), (set n | n in e.States() && e.Accepts(n)), guarded, rank, bound)
  }
}
