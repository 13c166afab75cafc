/** btFirstSets: for each instruction, on demand, the bytes a match from it can start with. */
module FirstSets {
  // The set is exact, unless a zero-width cycle lies ahead; then it is a superset.

  import opened BtProgram
  import opened ZeroWidth
  import opened DispatchKeeps

  datatype First = First(bytes: seq<bool>, nullable: bool)

  datatype Memo = Unknown | Known(first: First)

  predicate Starts(f: First, c: nat) {
    f.nullable || (c < |f.bytes| && f.bytes[c])
  }

  ghost predicate Covers(prog: Prog, pc: nat, f: First) {
    |f.bytes| == 256 && forall c :: 0 <= c <= END_OF_INPUT && CanStart(prog, pc, c) ==> Starts(f, c)
  }

  // A zero-width walk from pc comes back to an instruction it has passed.
  ghost predicate CyclesAhead(prog: Prog, pc: nat) {
    exists walk :: ComesBack(prog, pc, walk)
  }

  ghost predicate ComesBack(prog: Prog, pc: nat, walk: seq<nat>) {
    && IsZeroWalk(prog, walk) && walk[0] == pc
    && exists i :: 0 <= i < |walk| - 1 && walk[i] == walk[|walk| - 1]
  }

  // Nothing is in the set that cannot start a match.
  ghost predicate Precise(prog: Prog, pc: nat, f: First) {
    CyclesAhead(prog, pc) || forall c :: 0 <= c <= END_OF_INPUT && Starts(f, c) ==> CanStart(prog, pc, c)
  }

  // What an instruction's successor can start with, or the cycle ahead of it, is ahead of the instruction.
  lemma PreciseStep(prog: Prog, pc: nat, k: nat, f: First)
    requires pc < |prog| && k < |ZeroEdges(prog, pc)| && Precise(prog, ZeroEdges(prog, pc)[k], f)
    ensures Precise(prog, pc, f)
  {
    var q := ZeroEdges(prog, pc)[k];
    if walk :| ComesBack(prog, q, walk) {
      var i :| 0 <= i < |walk| - 1 && walk[i] == walk[|walk| - 1];
      var longer := [pc] + walk;
      assert longer[i + 1] == longer[|longer| - 1];
      assert ComesBack(prog, pc, longer);
    } else {
      forall c | 0 <= c <= END_OF_INPUT && Starts(f, c) ensures CanStart(prog, pc, c) {
        var walk :| StartsBy(prog, q, c, walk);
        assert StartsBy(prog, pc, c, [pc] + walk);
      }
    }
  }

  // An instruction met again on the walk that leads to it is on a cycle.
  lemma MetAgain(prog: Prog, path: seq<nat>, pc: nat)
    requires IsZeroWalk(prog, path + [pc]) && pc in path
    ensures CyclesAhead(prog, pc)
  {
    var i :| 0 <= i < |path| && path[i] == pc;
    var walk := path[i..] + [pc];
    assert IsZeroWalk(prog, walk) by {
      assert forall j :: 0 <= j < |walk| ==> walk[j] == (path + [pc])[i + j];
    }
    assert walk[0] == walk[|walk| - 1];
    assert ComesBack(prog, pc, walk);
  }

  const ANYTHING := First(seq(256, _ => true), true)

  // The first sets a memo stands for, an instruction never asked about counting as anything.
  function Table(memo: seq<Memo>): (sets: seq<set<nat>>)
    ensures |sets| == |memo|
    ensures forall pc, c :: 0 <= pc < |memo| && 0 <= c <= END_OF_INPUT ==>
              (c in sets[pc] <==> memo[pc].Unknown? || Starts(memo[pc].first, c))
  {
    seq(|memo|, pc requires 0 <= pc < |memo| => set c | 0 <= c <= END_OF_INPUT &&
    (memo[pc].Unknown? || Starts(memo[pc].first, c)))
  }

  // A start either is this instruction's own byte or belongs to one of its zero-width successors.
  lemma StartStep(prog: Prog, pc: nat, c: nat)
    requires pc < |prog| && CanStart(prog, pc, c)
    ensures prog[pc].Match? || (prog[pc].Consumes() && c < END_OF_INPUT && prog[pc].Admits(c))
            || exists k :: 0 <= k < |ZeroEdges(prog, pc)| && CanStart(prog, ZeroEdges(prog, pc)[k], c)
  {
    var walk :| StartsBy(prog, pc, c, walk);
    if |walk| > 1 {
      assert walk[1] in ZeroEdges(prog, walk[0]);
      var k :| 0 <= k < |ZeroEdges(prog, pc)| && ZeroEdges(prog, pc)[k] == walk[1];
      assert StartsBy(prog, walk[1], c, walk[1..]);
    }
  }

  // ---- The bytes of one consuming instruction ----

  // b is a rune of the range, or the other case of one.
  predicate InRange(lo: nat, hi: nat, fold: bool, b: nat) {
    lo <= b <= hi || (fold && lo <= FoldRune(b) <= hi)
  }

  method AddRange(bytes0: seq<bool>, lo: nat, hi: nat, fold: bool) returns (bytes: seq<bool>)
    requires |bytes0| == 256
    ensures |bytes| == 256
    ensures forall b :: 0 <= b < 256 && bytes0[b] ==> bytes[b]
    ensures forall b :: lo <= b <= hi && b < 256 ==> bytes[b] && (fold ==> bytes[FoldRune(b)])
    ensures forall b :: 0 <= b < 256 && bytes[b] ==> bytes0[b] || InRange(lo, hi, fold, b)
  {
    bytes := bytes0;
    if lo > 255 {
      return;
    }
    var top := if hi < 255 then hi else 255;
    var r := lo;
    while r <= top
      invariant lo <= r && |bytes| == 256
      invariant forall b :: 0 <= b < 256 && bytes0[b] ==> bytes[b]
      invariant forall b :: lo <= b < r && b < 256 ==> bytes[b] && (fold ==> bytes[FoldRune(b)])
      invariant forall b :: 0 <= b < 256 && bytes[b] ==> bytes0[b] || InRange(lo, hi, fold, b)
    {
      assert FoldRune(FoldRune(r)) == r;
      bytes := bytes[r := true];
      if fold {
        bytes := bytes[FoldRune(r) := true];
      }
      r := r + 1;
    }
  }

  method OwnBytes(inst: Inst) returns (bytes: seq<bool>)
    requires inst.Consumes()
    ensures |bytes| == 256 && forall b: Byte :: inst.Admits(b) <==> bytes[b]
  {
    bytes := seq(256, _ => false);
    match inst
    case AnyByte(_) => bytes := seq(256, _ => true);
    case AnyNotNL(_) => bytes := seq(256, b => b != NEWLINE);
    case Rune1(_, r, fold) =>
      bytes := AddRange(bytes, r, r, fold);
      assert forall b: Byte :: inst.Admits(b) && fold && b != r ==> b == FoldRune(r) && r < 256;
      assert forall b: Byte :: bytes[b] && b != r ==> fold && FoldRune(b) == r && FoldRune(FoldRune(b)) == b;
    case Runes(_, ranges) =>
      for i := 0 to |ranges|
        invariant |bytes| == 256
        invariant forall j, b :: 0 <= j < i && ranges[j].0 <= b <= ranges[j].1 && b < 256 ==> bytes[b]
        invariant forall b :: 0 <= b < 256 && bytes[b] ==>
                    exists j :: 0 <= j < i && ranges[j].0 <= b <= ranges[j].1
      {
        bytes := AddRange(bytes, ranges[i].0, ranges[i].1, false);
      }
  }

  // ---- The memoised computation ----

  ghost predicate Closed(prog: Prog) {
    forall pc, k :: 0 <= pc < |prog| && 0 <= k < |prog[pc].Edges()| ==> prog[pc].Edges()[k] < |prog|
  }

  class Firsts {
    const prog: Prog
    var memo: seq<Memo>
    var busy: seq<bool>

    ghost predicate Valid()
      reads this
    {
      && Closed(prog) && |memo| == |busy| == |prog|
      && forall pc :: 0 <= pc < |prog| && memo[pc].Known? ==>
           Covers(prog, pc, memo[pc].first) && Precise(prog, pc, memo[pc].first)
    }

    // The instructions being computed are those the walk to this one has passed.
    ghost predicate Along(path: seq<nat>, pc: nat)
      reads this
    {
      IsZeroWalk(prog, path + [pc]) && forall q :: 0 <= q < |busy| ==> (busy[q] <==> q in path)
    }

    ghost predicate Idle()
      reads this
    {
      forall pc :: 0 <= pc < |busy| ==> !busy[pc]
    }

    ghost function Free(): set<nat>
      reads this
    {
      set pc: nat | pc < |busy| && !busy[pc]
    }

    constructor (prog: Prog)
      requires Closed(prog)
      ensures Valid() && Idle() && this.prog == prog && forall pc :: 0 <= pc < |memo| ==> memo[pc].Unknown?
    {
      this.prog := prog;
      memo := seq(|prog|, _ => Unknown);
      busy := seq(|prog|, _ => false);
    }

    // What is known stays known, and an instruction not being computed is known afterwards.
    method Of(pc: nat, ghost path: seq<nat>) returns (f: First)
      requires Valid() && pc < |prog| && Along(path, pc)
      modifies this
      ensures Valid() && busy == old(busy) && Covers(prog, pc, f) && Precise(prog, pc, f)
      ensures forall q :: 0 <= q < |prog| && old(memo[q]).Known? ==> memo[q] == old(memo[q])
      ensures !old(busy[pc]) ==> memo[pc] == Known(f)
      decreases Free(), 1
    {
      if memo[pc].Known? {
        return memo[pc].first;
      }
      if busy[pc] {
        MetAgain(prog, path, pc);
        return ANYTHING;
      }
      ghost var before := busy;
      busy := busy[pc := true];
      assert pc !in Free() && Free() + {pc} == old(Free());
      f := Compute(pc, path);
      busy := busy[pc := false];
      assert busy == before;
      memo := memo[pc := Known(f)];
    }

    method Compute(pc: nat, ghost path: seq<nat>) returns (f: First)
      requires Valid() && pc < |prog| && busy[pc] && IsZeroWalk(prog, path + [pc])
      requires forall q :: 0 <= q < |busy| ==> (busy[q] <==> q in path + [pc])
      modifies this
      ensures Valid() && busy == old(busy) && Covers(prog, pc, f) && Precise(prog, pc, f)
      ensures forall q :: 0 <= q < |prog| && old(memo[q]).Known? ==> memo[q] == old(memo[q])
      decreases Free(), 2
    {
      var inst := prog[pc];
      if inst.IsAlt() {
        assert inst.Edges()[0] == inst.out < |prog| && inst.Edges()[1] == inst.arg < |prog|;
        assert ZeroEdges(prog, pc) == [inst.out, inst.arg];
        var a := Of(inst.out, path + [pc]);
        var b := Of(inst.arg, path + [pc]);
        f := First(seq(256, i requires 0 <= i < 256 => a.bytes[i] || b.bytes[i]), a.nullable || b.nullable);
        Joined(prog, pc, a, b, f);
      } else if inst.Match? {
        f := First(seq(256, _ => false), true);
        AtMatch(prog, pc, f);
      } else if inst.Fail? {
        f := First(seq(256, _ => false), false);
        Alone(prog, pc, f);
      } else if inst.Consumes() {
        var bytes := OwnBytes(inst);
        f := First(bytes, false);
        Alone(prog, pc, f);
      } else {
        assert inst.Edges()[0] == inst.out < |prog|;
        assert ZeroEdges(prog, pc) == [inst.out];
        f := Of(inst.out, path + [pc]);
        Through(prog, pc, f);
      }
    }
  }

  lemma Joined(prog: Prog, pc: nat, a: First, b: First, f: First)
    requires pc < |prog| && prog[pc].IsAlt() && Covers(prog, prog[pc].out, a) && Covers(prog, prog[pc].arg, b)
    requires Precise(prog, prog[pc].out, a) && Precise(prog, prog[pc].arg, b)
    requires |f.bytes| == 256 && f.nullable == (a.nullable || b.nullable) && forall i :: 0 <= i < 256 ==>
               f.bytes[i] == (a.bytes[i] || b.bytes[i])
    ensures Covers(prog, pc, f) && Precise(prog, pc, f)
  {
    assert ZeroEdges(prog, pc) == [prog[pc].out, prog[pc].arg];
    PreciseStep(prog, pc, 0, a);
    PreciseStep(prog, pc, 1, b);
    forall c | 0 <= c <= END_OF_INPUT && CanStart(prog, pc, c) ensures Starts(f, c) {
      StartStep(prog, pc, c);
      assert ZeroEdges(prog, pc) == [prog[pc].out, prog[pc].arg];
      assert Starts(a, c) || Starts(b, c);
    }
  }

  lemma AtMatch(prog: Prog, pc: nat, f: First)
    requires pc < |prog| && prog[pc].Match?
    ensures Precise(prog, pc, f)
  {
    forall c | 0 <= c <= END_OF_INPUT && Starts(f, c) ensures CanStart(prog, pc, c) {
      assert StartsBy(prog, pc, c, [pc]);
    }
  }

  lemma Alone(prog: Prog, pc: nat, f: First)
    requires pc < |prog| && (prog[pc].Fail? || prog[pc].Consumes()) && |f.bytes| == 256
    requires !f.nullable && forall b: Byte :: prog[pc].Admits(b) <==> f.bytes[b]
    ensures Covers(prog, pc, f) && Precise(prog, pc, f)
  {
    forall c | 0 <= c <= END_OF_INPUT && Starts(f, c) ensures CanStart(prog, pc, c) {
      var b: Byte := c;
      assert prog[pc].Admits(b);
      assert StartsBy(prog, pc, c, [pc]);
    }
    forall c | 0 <= c <= END_OF_INPUT && CanStart(prog, pc, c) ensures Starts(f, c) {
      StartStep(prog, pc, c);
    }
  }

  lemma Through(prog: Prog, pc: nat, f: First)
    requires pc < |prog| && !prog[pc].IsAlt() && !prog[pc].Match? && !prog[pc].Fail? && !prog[pc].Consumes()
    requires Covers(prog, prog[pc].out, f) && Precise(prog, prog[pc].out, f)
    ensures Covers(prog, pc, f) && Precise(prog, pc, f)
  {
    assert ZeroEdges(prog, pc) == [prog[pc].out];
    PreciseStep(prog, pc, 0, f);
    forall c | 0 <= c <= END_OF_INPUT && CanStart(prog, pc, c) ensures Starts(f, c) {
      StartStep(prog, pc, c);
      assert ZeroEdges(prog, pc) == [prog[pc].out];
    }
  }

  // A table's set for pc holds only what can start there, unless a zero-width cycle lies ahead.
  ghost predicate Sharp(prog: Prog, first: seq<set<nat>>, pc: nat) {
    && pc < |first|
    && (CyclesAhead(prog, pc) || forall c :: 0 <= c <= END_OF_INPUT && c in first[pc] ==> CanStart(prog, pc, c))
  }

  lemma TableSharp(prog: Prog, memo: seq<Memo>, pc: nat)
    requires pc < |memo| && memo[pc].Known? && Precise(prog, pc, memo[pc].first)
    ensures Sharp(prog, Table(memo), pc)
  {
  }

  // The table of a valid memo over-approximates every instruction's first bytes.
  lemma TableOk(prog: Prog, memo: seq<Memo>)
    requires |memo| == |prog| && forall pc :: 0 <= pc < |prog| && memo[pc].Known? ==> Covers(prog, pc, memo[pc].first)
    ensures FirstOk(prog, Table(memo))
  {
  }
}
