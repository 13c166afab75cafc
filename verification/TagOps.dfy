/** Register operations on a tagged transition, and what the emitted code does with them. */
module TagOps {

  // The pseudo-registers an operation may name: the current input position, and the
  // cycle-breaking scratch slot that newTDFA later resolves to a concrete register.
  const POS := -1
  const SCRATCH := -2

  datatype TagOp = TagOp(dst: int, src: int)

  // A register file. Register POS holds the current position, so one rule reads both kinds of source.
  type Regs = int -> int

  function Set(regs: Regs, r: int, v: int): Regs {
    x => if x == r then v else regs(x)
  }

  // Executing a batch in order, one local.get / local.set pair per operation.
  function Exec(ops: seq<TagOp>, regs: Regs): Regs {
    if ops == [] then regs else Exec(ops[1..], Set(regs, ops[0].dst, regs(ops[0].src)))
  }

  lemma {:induction false} ExecConcat(a: seq<TagOp>, b: seq<TagOp>, regs: Regs)
    ensures Exec(a + b, regs) == Exec(b, Exec(a, regs))
  {
    if a == [] {
      assert a + b == b;
    } else {
      assert (a + b)[1..] == a[1..] + b;
      ExecConcat(a[1..], b, Set(regs, a[0].dst, regs(a[0].src)));
    }
  }
}
