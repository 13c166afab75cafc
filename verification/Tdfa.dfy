/** A tagged automaton with its register operations, and the match body emitted for it. */
module Tdfa {
  import opened TagOps

  const BYTES := 256

  // transitions[s * 256 + b] is the state reached from s on byte b, or -1; tagOps runs parallel to it.
  datatype Table = Table(
    numStates: nat,
    numRegs: nat,
    transitions: seq<int>,
    tagOps: seq<seq<TagOp>>,
    entryOps: seq<TagOp>,
    acceptRegMap: seq<seq<int>>,
    eofAccept: set<int>,
    midAccept: set<int>,
    immediateAccept: set<int>)
  {
    predicate IsState(s: int) {
      0 <= s < numStates
    }

    function Next(s: int, b: int): (t: int)
      requires Valid() && IsState(s) && 0 <= b < BYTES
      ensures t == -1 || IsState(t)
    {
      var t := transitions[s * BYTES + b];
      if IsState(t) then t else -1
    }

    function Ops(s: int, b: int): (ops: seq<TagOp>)
      requires Valid() && IsState(s) && 0 <= b < BYTES
      ensures ValidOps(ops)
    {
      tagOps[s * BYTES + b]
    }

    // Registers are in range.
    predicate ValidOps(ops: seq<TagOp>) {
      forall i :: 0 <= i < |ops| ==> 0 <= ops[i].dst < numRegs && POS <= ops[i].src < numRegs
    }

    ghost predicate Valid() {
      && numStates > 0
      && |transitions| == |tagOps| == numStates * BYTES && |acceptRegMap| == numStates
      && (forall k :: 0 <= k < |tagOps| ==> ValidOps(tagOps[k]))
      && ValidOps(entryOps)
      && (forall s, k :: 0 <= s < numStates && 0 <= k < |acceptRegMap[s]| ==> acceptRegMap[s][k] < numRegs)
    }
  }

  type Byte = b: int | 0 <= b < BYTES witness 0

  datatype Config = Dead | At(state: int, regs: Regs)

  function Start(t: Table): Config {
    At(0, Exec(t.entryOps, Set(_ => -1, POS, 0)))
  }

  // One byte: the position advances, the state moves, then the transition's operations run.
  function Step(t: Table, c: Config, b: Byte): Config
    requires t.Valid() && (c.At? ==> t.IsState(c.state))
  {
    if c.Dead? then Dead
    else
      var next := t.Next(c.state, b);
      if next < 0 then Dead
      else At(next, Exec(t.Ops(c.state, b), Set(c.regs, POS, c.regs(POS) + 1)))
  }

  function Run(t: Table, input: seq<Byte>): (c: Config)
    requires t.Valid()
    ensures c.At? ==> t.IsState(c.state)
  {
    if input == [] then Start(t) else Step(t, Run(t, input[..|input| - 1]), input[|input| - 1])
  }

  // What an accept in this configuration writes: each tag's register, or -1 for a tag no path set.
  function Captures(t: Table, c: Config): (tags: seq<int>)
    requires t.Valid() && c.At? && t.IsState(c.state)
    ensures |tags| == |t.acceptRegMap[c.state]|
    ensures forall k :: 0 <= k < |tags| && t.acceptRegMap[c.state][k] < 0 ==> tags[k] == -1
  {
    var rm := t.acceptRegMap[c.state];
    seq(|rm|, k requires 0 <= k < |rm| => if rm[k] >= 0 then c.regs(rm[k]) else -1)
  }

  // The whole anchored match body: its result, and the captures the last accept wrote.
  datatype Answer = NoMatch | Match(end: nat, tags: seq<int>)

  function MatchFrom(t: Table, input: seq<Byte>, n: nat, last: Answer): Answer
    requires t.Valid() && n <= |input|
    decreases |input| - n
  {
    var c := Run(t, input[..n]);
    if c.Dead? then last
    else if n > 0 && c.state in t.immediateAccept then Match(n, Captures(t, c))
    else
      var last' := if c.state in t.midAccept then Match(n, Captures(t, c)) else last;
      if n < |input| then MatchFrom(t, input, n + 1, last')
      else if c.state in t.eofAccept then Match(n, Captures(t, c))
      else last'
  }

  // Two tables that answer alike: at every prefix of every input they are in the same state, or both
  // dead, and an accept there would write the same captures.
  ghost predicate SameAnswers(t: Table, u: Table)
    requires t.Valid() && u.Valid()
  {
    forall input: seq<Byte> ::
      var c, d := Run(t, input), Run(u, input);
      && (c.Dead? <==> d.Dead?)
      && (c.At? ==> c.state == d.state && t.IsState(d.state) && u.IsState(c.state) && Captures(t, c) == Captures(u, d))
  }

  lemma {:induction false} SameMatch(t: Table, u: Table, input: seq<Byte>, n: nat, last: Answer)
    requires t.Valid() && u.Valid() && SameAnswers(t, u) && n <= |input|
    requires t.eofAccept == u.eofAccept && t.midAccept == u.midAccept && t.immediateAccept == u.immediateAccept
    ensures MatchFrom(t, input, n, last) == MatchFrom(u, input, n, last)
    decreases |input| - n
  {
    var c, d := Run(t, input[..n]), Run(u, input[..n]);
    if c.At? && n < |input| {
      SameMatch(t, u, input, n + 1, if c.state in t.midAccept then Match(n, Captures(t, c)) else last);
    }
  }

  // ---- Which accept the body returns ----

  ghost predicate AcceptsAt(t: Table, accepting: set<int>, input: seq<Byte>, n: int)
    requires t.Valid()
  {
    0 <= n <= |input| && Run(t, input[..n]).At? && Run(t, input[..n]).state in accepting
  }

  // The scan stops at once, past the first byte.
  ghost predicate StopsAt(t: Table, input: seq<Byte>, n: int)
    requires t.Valid()
  {
    n > 0 && AcceptsAt(t, t.immediateAccept, input, n)
  }

  // Where the scan reaches every prefix after from: the first stop; else the end of the input, when accepting there;
  // else the last place it passed that accepts; else what was found before.
  ghost predicate Chosen(t: Table, input: seq<Byte>, from: nat, before: Answer, a: Answer)
    requires t.Valid()
  {
    if exists n :: from <= n && StopsAt(t, input, n) then
      exists n :: from <= n && StopsAt(t, input, n) && a == MatchedAt(t, input, n) &&
        forall m :: from <= m < n ==> !StopsAt(t, input, m)
    else if AcceptsAt(t, t.eofAccept, input, |input|) then a == MatchedAt(t, input, |input|)
    else if exists n :: from <= n && AcceptsAt(t, t.midAccept, input, n) then
      exists n :: from <= n && AcceptsAt(t, t.midAccept, input, n) && a == MatchedAt(t, input, n) &&
        forall m :: n < m ==> !AcceptsAt(t, t.midAccept, input, m)
    else a == before
  }

  function MatchedAt(t: Table, input: seq<Byte>, n: nat): Answer
    requires t.Valid() && n <= |input| && Run(t, input[..n]).At?
  {
    Match(n, Captures(t, Run(t, input[..n])))
  }

  lemma {:induction false} DeadStays(t: Table, input: seq<Byte>, n: nat, m: nat)
    requires t.Valid() && n <= m <= |input| && Run(t, input[..n]).Dead?
    ensures Run(t, input[..m]).Dead?
  {
    if n < m {
      DeadStays(t, input, n, m - 1);
      assert input[..m][..m - 1] == input[..m - 1];
    }
  }

  lemma {:induction false} FromIsChosen(t: Table, input: seq<Byte>, n: nat, last: Answer)
    requires t.Valid() && n <= |input|
    ensures Chosen(t, input, n, last, MatchFrom(t, input, n, last))
    decreases |input| - n
  {
    var c := Run(t, input[..n]);
    if c.Dead? {
      forall m | n <= m <= |input| ensures Run(t, input[..m]).Dead? {
        DeadStays(t, input, n, m);
      }
    } else if StopsAt(t, input, n) || n == |input| {
      assert AcceptsAt(t, t.midAccept, input, n) <==> c.state in t.midAccept;
      assert AcceptsAt(t, t.eofAccept, input, n) <==> c.state in t.eofAccept;
      assert forall m :: n < m && n == |input| ==> !StopsAt(t, input, m);
    } else {
      var last' := if c.state in t.midAccept then MatchedAt(t, input, n) else last;
      FromIsChosen(t, input, n + 1, last');
      ChosenEarlier(t, input, n, last, MatchFrom(t, input, n + 1, last'));
    }
  }

  lemma ChosenEarlier(t: Table, input: seq<Byte>, n: nat, last: Answer, a: Answer)
    requires t.Valid() && n < |input| && Run(t, input[..n]).At? && !StopsAt(t, input, n)
    requires var here := Run(t, input[..n]).state in t.midAccept;
             Chosen(t, input, n + 1, if here then MatchedAt(t, input, n) else last, a)
    ensures Chosen(t, input, n, last, a)
  {
  }

  // ---- What the registers see ----

  predicate Writes(ops: seq<TagOp>, r: int) {
    exists i :: 0 <= i < |ops| && ops[i].dst == r
  }

  lemma {:induction false} ExecKeeps(ops: seq<TagOp>, regs: Regs, r: int)
    requires !Writes(ops, r)
    ensures Exec(ops, regs)(r) == regs(r)
  {
    if ops != [] {
      assert forall i :: 0 <= i < |ops[1..]| ==> ops[1..][i] == ops[i + 1];
      ExecKeeps(ops[1..], Set(regs, ops[0].dst, regs(ops[0].src)), r);
    }
  }

  // Every operation, and every capture, reads the number of bytes consumed.
  lemma {:induction false} PosCounts(t: Table, input: seq<Byte>)
    requires t.Valid()
    ensures var c := Run(t, input); c.At? ==> c.regs(POS) == |input|
    decreases |input|
  {
    if input == [] {
      ExecKeeps(t.entryOps, Set(_ => -1, POS, 0), POS);
    } else {
      var init, b := input[..|input| - 1], input[|input| - 1];
      var c := Run(t, init);
      PosCounts(t, init);
      if c.At? && t.Next(c.state, b) >= 0 {
        ExecKeeps(t.Ops(c.state, b), Set(c.regs, POS, c.regs(POS) + 1), POS);
      }
    }
  }

  // One byte more, read off the table: the state it names, and the operations beside it at the position past the byte.
  lemma StepIsLookup(t: Table, input: seq<Byte>, b: Byte)
    requires t.Valid() && Run(t, input).At?
    ensures var c := Run(t, input);
            var k := c.state * 256 + b;
            0 <= k < |t.transitions| == |t.tagOps| &&
            Run(t, input + [b])
            == if 0 <= t.transitions[k] < t.numStates
               then At(t.transitions[k], Exec(t.tagOps[k], Set(c.regs, POS, |input| + 1))) else Dead
  {
    assert (input + [b])[..|input|] == input;
    PosCounts(t, input);
  }

  // A register no operation writes reads as unset.
  lemma {:induction false} UnsetReadsMinusOne(t: Table, input: seq<Byte>, r: nat)
    requires t.Valid() && !Writes(t.entryOps, r) && forall k :: 0 <= k < |t.tagOps| ==> !Writes(t.tagOps[k], r)
    ensures var c := Run(t, input); c.At? ==> c.regs(r) == -1
    decreases |input|
  {
    if input == [] {
      ExecKeeps(t.entryOps, Set(_ => -1, POS, 0), r);
    } else {
      var init, b := input[..|input| - 1], input[|input| - 1];
      var c := Run(t, init);
      UnsetReadsMinusOne(t, init, r);
      if c.At? && t.Next(c.state, b) >= 0 {
        ExecKeeps(t.Ops(c.state, b), Set(c.regs, POS, c.regs(POS) + 1), r);
      }
    }
  }
}
