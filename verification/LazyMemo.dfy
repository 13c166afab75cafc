/** The memo bit table, cleared as the search reaches it, below a stack that grows: it is a plain visited set. */
module LazyMemo {
  import opened BtProgram
  import opened Wasm32

  const MAX_PAGES := 65536
  const CHUNK := 4096
  const MAX_END := 0xFFFF_0000

  // A byte of memory as the set of its bits, and memory as what each address holds.
  type Memory = int -> set<nat>

  function Fill(mem: Memory, at: int, size: nat): Memory {
    a => if at <= a < at + size then {} else mem(a)
  }

  function Store(mem: Memory, at: int, byte: set<nat>): Memory {
    a => if a == at then byte else mem(a)
  }

  function Align4(x: nat): (y: nat)
    ensures x <= y < x + 4 && y % 4 == 0
  {
    (x + 3) / 4 * 4
  }

  // The end of a memory of this many pages, one page short of 2^32 at most.
  function MemEnd(pages: nat): (end: nat)
    ensures end <= MAX_END && end % PAGE == 0 && (pages < MAX_PAGES ==> end == pages * PAGE)
  {
    (if pages < MAX_PAGES - 1 then pages else MAX_PAGES - 1) * PAGE
  }

  // ---- Memo bits ----

  // memoIndex: the guarded instructions, the Alts not dead, numbered in program order.
  function Numbered(prog: Prog, dead: set<nat>, n: nat): (k: nat)
    requires n <= |prog|
    ensures k <= n
  {
    if n == 0 then 0 else Numbered(prog, dead, n - 1) + if IsGuarded(prog, dead, n - 1) then 1 else 0
  }

  predicate IsGuarded(prog: Prog, dead: set<nat>, pc: nat) {
    pc < |prog| && prog[pc].IsAlt() && pc !in dead
  }

  // Every guarded instruction has a bit of its own, below the number there are.
  ghost predicate IsIndex(prog: Prog, dead: set<nat>, index: seq<int>, n: nat) {
    && |index| == |prog|
    && (forall pc :: 0 <= pc < |prog| ==> if IsGuarded(prog, dead, pc) then 0 <= index[pc] < n else index[pc] == -1)
    && (forall p, q :: 0 <= p < q < |prog| && IsGuarded(prog, dead, p) && IsGuarded(prog, dead, q) ==>
         index[p] != index[q])
  }

  method MemoIndex(prog: Prog, dead: set<nat>) returns (index: seq<int>, rowBytes: nat)
    ensures IsIndex(prog, dead, index, Numbered(prog, dead, |prog|))
    ensures rowBytes >= 1 && 8 * rowBytes >= Numbered(prog, dead, |prog|)
    ensures 8 * rowBytes < Numbered(prog, dead, |prog|) + 8 || rowBytes == 1
  {
    index := seq(|prog|, _ => -1);
    var n := 0;
    for pc := 0 to |prog|
      invariant |index| == |prog| && n == Numbered(prog, dead, pc)
      invariant forall q :: 0 <= q < |prog| ==>
                  if q < pc && IsGuarded(prog, dead, q) then 0 <= index[q] < n else index[q] == -1
      invariant forall p, q :: 0 <= p < q < pc && IsGuarded(prog, dead, p) && IsGuarded(prog, dead, q) ==>
                  index[p] != index[q]
    {
      if prog[pc].IsAlt() && pc !in dead {
        index := index[pc := n];
        n := n + 1;
      }
    }
    rowBytes := if (n + 7) / 8 > 1 then (n + 7) / 8 else 1;
  }

  // A guarded state as its memo bit and its position.
  datatype Cell = Cell(bit: nat, pos: nat)

  // ---- Addresses ----

  // The offset of a row, rows being laid one after another.
  function RowStart(row: int, rowBytes: nat): nat {
    if row <= 0 then 0 else RowStart(row - 1, rowBytes) + rowBytes
  }

  lemma {:induction false} RowIs(row: nat, rowBytes: nat)
    ensures RowStart(row, rowBytes) == row * rowBytes
  {
    if row > 0 {
      RowIs(row - 1, rowBytes);
      assert row * rowBytes == (row - 1) * rowBytes + rowBytes;
    }
  }

  lemma {:induction false} RowFits(row: nat, rows: nat, rowBytes: nat)
    requires row < rows
    ensures RowStart(row, rowBytes) + rowBytes <= RowStart(rows, rowBytes)
    decreases rows
  {
    if row < rows - 1 {
      RowFits(row, rows - 1, rowBytes);
    }
  }

  function Address(base: nat, origin: nat, rowBytes: nat, c: Cell): (a: nat)
    ensures a >= base
  {
    base + RowStart(c.pos - origin, rowBytes) + c.bit / 8
  }

  // Different states have different bits: another byte, or another bit of it.
  lemma OwnBit(base: nat, origin: nat, rowBytes: nat, a: Cell, b: Cell)
    requires a != b && a.bit < 8 * rowBytes && b.bit < 8 * rowBytes && origin <= a.pos && origin <= b.pos
    ensures Address(base, origin, rowBytes, a) != Address(base, origin, rowBytes, b) || a.bit % 8 != b.bit % 8
  {
    if a.pos < b.pos {
      RowFits(a.pos - origin, b.pos - origin, rowBytes);
    } else if b.pos < a.pos {
      RowFits(b.pos - origin, a.pos - origin, rowBytes);
    }
  }

  // Where a memo is: row 0 stands for position origin.
  datatype Shape = Shape(base: nat, origin: nat, rows: nat, rowBytes: nat) {
    predicate Covers(c: Cell) {
      c.bit < 8 * rowBytes && origin <= c.pos < origin + rows
    }

    function AddressOf(c: Cell): (a: nat)
      ensures a >= base
    {
      Address(base, origin, rowBytes, c)
    }
  }

  // Below the watermark the bits are the visited set; above it nothing has been visited.
  ghost predicate Reads(mem: Memory, at: Shape, cleared: nat, visited: set<Cell>) {
    && (forall c :: c in visited ==> at.Covers(c) && at.AddressOf(c) < cleared)
    && (forall c {:trigger at.AddressOf(c)} :: at.Covers(c) && at.AddressOf(c) < cleared ==>
          (c in visited <==> c.bit % 8 in mem(at.AddressOf(c))))
  }

  lemma SetReads(mem: Memory, at: Shape, cleared: nat, visited: set<Cell>, c: Cell)
    requires Reads(mem, at, cleared, visited) && at.Covers(c) && at.AddressOf(c) < cleared
    ensures Reads(Store(mem, at.AddressOf(c), mem(at.AddressOf(c)) + {c.bit % 8}), at, cleared, visited + {c})
  {
    var a := at.AddressOf(c);
    var after := Store(mem, a, mem(a) + {c.bit % 8});
    forall d | at.Covers(d) && at.AddressOf(d) < cleared
      ensures d in visited + {c} <==> d.bit % 8 in after(at.AddressOf(d)) {
      if d != c {
        OwnBit(at.base, at.origin, at.rowBytes, c, d);
      }
    }
  }

  // Zeroing from the watermark up adds rows nothing has visited.
  lemma FillReads(mem: Memory, at: Shape, cleared: nat, visited: set<Cell>, size: nat)
    requires Reads(mem, at, cleared, visited)
    ensures Reads(Fill(mem, cleared, size), at, cleared + size, visited)
  {
    forall d | at.Covers(d) && at.AddressOf(d) < cleared + size
      ensures d in visited <==> d.bit % 8 in Fill(mem, cleared, size)(at.AddressOf(d))
    {
      assert at.AddressOf(d) < cleared ==> (d in visited <==> d.bit % 8 in mem(at.AddressOf(d)));
    }
  }

  // Writes that miss the zeroed rows change nothing.
  lemma OutsideReads(mem: Memory, mem': Memory, at: Shape, cleared: nat, visited: set<Cell>)
    requires Reads(mem, at, cleared, visited) && forall a :: at.base <= a < cleared ==> mem'(a) == mem(a)
    ensures Reads(mem', at, cleared, visited)
  {
    forall d | at.Covers(d) && at.AddressOf(d) < cleared ensures d in visited <==> d.bit % 8 in mem'(at.AddressOf(d)) {
      assert mem'(at.AddressOf(d)) == mem(at.AddressOf(d));
    }
  }

  // Lowering the watermark to a position's row forgets exactly the visits from that position on.
  lemma LowerReads(mem: Memory, at: Shape, cleared: nat, visited: set<Cell>, from: nat, low: nat)
    requires Reads(mem, at, cleared, visited) && at.origin <= from && at.rowBytes > 0
    requires low == at.base + RowStart(from - at.origin, at.rowBytes)
    ensures Reads(mem, at, if low < cleared then low else cleared, set c | c in visited && c.pos < from)
  {
    forall d | at.Covers(d) ensures at.AddressOf(d) < low <==> d.pos < from {
      if d.pos < from {
        RowFits(d.pos - at.origin, from - at.origin, at.rowBytes);
      } else if d.pos > from {
        RowFits(from - at.origin, d.pos - at.origin, at.rowBytes);
      }
    }
  }

  lemma NothingReads(mem: Memory, at: Shape)
    ensures Reads(mem, at, at.base, {})
  {
  }

  // The fewest pages that hold so many bytes.
  function FewestPages(size: nat): (k: nat)
    requires size > 0
    ensures 1 <= k && (k - 1) * PAGE < size <= k * PAGE
  {
    (size + 0xFFFF) / PAGE
  }

  class Region {
    const rowBytes: nat
    const frameSize: nat
    var mem: Memory
    var pages: nat
    var memoBase: nat
    var origin: nat           // the position of row 0
    var rows: nat             // positions the memo covers
    var clearLimit: nat       // the lazy clear may not zero past it
    var cleared: nat          // every memo byte below it has been zeroed since the region was placed
    var stackBase: nat
    var stackTop: nat         // the highest sp a frame may still be pushed at
    var sp: nat
    ghost var visited: set<Cell>

    ghost predicate Covers(c: Cell)
      reads this
    {
      Shape(memoBase, origin, rows, rowBytes).Covers(c)
    }

    ghost function AddressOf(c: Cell): nat
      reads this
    {
      Shape(memoBase, origin, rows, rowBytes).AddressOf(c)
    }

    // The layout: memo, limit, stack, end of memory.
    ghost predicate Placed()
      reads this
    {
      && rowBytes > 0 && 0 < frameSize <= MAX_END && pages <= MAX_PAGES && origin + rows <= WORD
      && memoBase <= cleared <= clearLimit <= stackBase && memoBase + RowStart(rows, rowBytes) <= clearLimit
      && stackBase <= sp <= MemEnd(pages) && stackBase + frameSize <= MemEnd(pages)
      && stackTop == MemEnd(pages) - frameSize
    }

    // Below the watermark the bits are the visited set; above it nothing has been visited.
    ghost predicate Tells()
      reads this
    {
      Reads(mem, Shape(memoBase, origin, rows, rowBytes), cleared, visited)
    }

    ghost predicate Valid()
      reads this
    {
      Placed() && Tells()
    }

    constructor (rowBytes: nat, frameSize: nat, mem: Memory, pages: nat)
      requires rowBytes > 0 && 0 < frameSize <= MAX_END && pages <= MAX_PAGES
      ensures this.rowBytes == rowBytes && this.frameSize == frameSize && this.mem == mem && this.pages == pages
    {
      this.rowBytes, this.frameSize, this.mem, this.pages := rowBytes, frameSize, mem, pages;
      memoBase, origin, rows, clearLimit, cleared, stackBase, stackTop, sp, visited := 0, 0, 0, 0, 0, 0, 0, 0, {};
    }

    ghost predicate Sized()
      reads this
    {
      rowBytes > 0 && 0 < frameSize <= MAX_END && pages <= MAX_PAGES
    }

    // memory.grow: refused, or that many more pages, zeroed, nothing else touched.
    method Grow(delta: nat, granted: bool) returns (ok: bool)
      requires Sized()
      modifies this`mem, this`pages
      ensures Sized() && ok == (granted && old(pages) + delta <= MAX_PAGES) && pages == old(pages) + if ok
              then delta else 0
      ensures forall a :: a < old(pages) * PAGE ==> mem(a) == old(mem)(a)
    {
      ok := granted && pages + delta <= MAX_PAGES;
      if ok {
        mem := Fill(mem, pages * PAGE, delta * PAGE);
        pages := pages + delta;
      }
    }

    // emitBTEnsureStack: room for one frame, or a refusal that memory.grow made.
    method EnsureStack(granted: bool) returns (ok: bool)
      requires Sized() && stackBase + frameSize < WORD
      modifies this`mem, this`pages, this`stackTop
      ensures Sized() && old(pages) <= pages && forall a :: a < old(pages) * PAGE ==> mem(a) == old(mem)(a)
      ensures ok ==> stackBase + frameSize <= MemEnd(pages) && stackTop == MemEnd(pages) - frameSize
      ensures granted && stackBase + frameSize <= MAX_END ==> ok
      ensures stackBase + frameSize <= MemEnd(old(pages)) ==> ok && pages == old(pages)
      ensures pages == old(pages) || (granted && pages == (stackBase + frameSize) / PAGE + 1)
    {
      var need := Wrap(stackBase + frameSize);
      ok := true;
      if need > MemEnd(pages) {
        var delta := Wrap(need - MemEnd(pages)) / PAGE + 1;
        assert need <= MAX_END ==> pages < MAX_PAGES - 1 && (pages + delta - 1) * PAGE <= need;
        ok := Grow(delta, granted);
        if !ok {
          return;
        }
      }
      stackTop := Wrap(MemEnd(pages) - frameSize);
      ok := stackBase <= stackTop;
    }

    // Where a call's region starts: the end of memory for a host that named no base, else its base or the floor
    // above it.
    function BaseAt(host: nat, floor: nat): nat
      reads this
    {
      if host == 0 then MemEnd(pages) else if host < floor then floor else host
    }

    // emitBTScratchInit: this call's own region, above the host's base and never below the floor; no bit of it
    // is known yet.
    method Place(host: nat, floor: nat, from: nat, span: nat, granted: bool) returns (ok: bool)
      requires Sized() && host < WORD && floor < WORD && from + span < WORD
      modifies this
      ensures Sized()
      ensures ok ==>
                Valid() && visited == {} && sp == stackBase && origin == from && rows == span + 1 &&
                clearLimit == stackBase == Align4(memoBase + RowStart(span + 1, rowBytes))
      ensures ok ==>
                && memoBase == old(BaseAt(host, floor))
                && if host == 0 then memoBase == MemEnd(old(pages)) else host <= memoBase && floor <= memoBase
      ensures granted && Align4(old(BaseAt(host, floor)) + RowStart(span + 1, rowBytes)) + frameSize <= MAX_END ==> ok
      ensures Align4(old(BaseAt(host, floor)) + RowStart(span + 1, rowBytes)) + frameSize <= MemEnd(old(pages)) ==>
                ok && pages == old(pages)
    {
      var base := BaseAt(host, floor);
      var size := (span + 1) * rowBytes;
      RowIs(span + 1, rowBytes);
      var end := Align4(base + size);
      if end + frameSize > MAX_END {
        return false;
      }
      memoBase, stackBase := base, Wrap(end);
      ok := EnsureStack(granted);
      origin, rows, clearLimit, cleared, sp, visited := from, span + 1, stackBase, memoBase, stackBase, {};
      NothingReads(mem, Shape(memoBase, origin, rows, rowBytes));
    }

    // A set member's region, kept for a whole host call: the memo alone, the stack above every member's.
    method PlaceMember(top: nat, from: nat, span: nat, granted: bool) returns (ok: bool, newTop: nat)
      requires Sized() && top < WORD && from + span < WORD
      modifies this
      ensures Sized()
      ensures ok ==> Valid() && visited == {} && sp == stackBase && origin == from && rows == span + 1
      ensures ok ==> top <= memoBase && clearLimit == memoBase + RowStart(rows, rowBytes) == newTop <= stackBase
      ensures granted && Align4(top) + (span + 1) * rowBytes + frameSize + 3 <= MAX_END ==> ok
    {
      newTop := top;
      var base := Align4(top);
      var size := (span + 1) * rowBytes;
      RowIs(span + 1, rowBytes);
      if base + size + frameSize + 3 > MAX_END {
        return false, top;
      }
      newTop := Wrap(base + size);
      memoBase, stackBase := Wrap(base), Wrap(Align4(newTop));
      ok := EnsureStack(granted);
      origin, rows, clearLimit, cleared, sp, visited := from, span + 1, newTop, memoBase, stackBase, {};
      NothingReads(mem, Shape(memoBase, origin, rows, rowBytes));
    }

    // A later call of the same member: its memo as it was, the stack above every region placed since.
    method Reenter(top: nat, granted: bool) returns (ok: bool)
      requires Valid() && clearLimit <= top && top + frameSize + 3 < WORD
      modifies this`mem, this`pages, this`stackBase, this`stackTop, this`sp
      ensures ok ==> Valid() && sp == stackBase && top <= stackBase
      ensures Tells() && (granted && Align4(top) + frameSize <= MAX_END ==> ok)
      ensures Align4(top) + frameSize <= MemEnd(old(pages)) ==> ok && pages == old(pages)
    {
      ghost var before := mem;
      stackBase := Align4(top);
      ok := EnsureStack(granted);
      sp := stackBase;
      OutsideReads(before, mem, Shape(memoBase, origin, rows, rowBytes), cleared, visited);
    }

    // The address arithmetic of the guard never wraps.
    lemma InPlace(c: Cell)
      requires Placed() && Covers(c)
      ensures (c.pos - origin) * rowBytes == RowStart(c.pos - origin, rowBytes) < WORD
      ensures memoBase <= AddressOf(c) < clearLimit && AddressOf(c) + CHUNK < WORD
    {
      RowFits(c.pos - origin, rows, rowBytes);
      RowIs(c.pos - origin, rowBytes);
    }

    // Zero from the watermark past the byte about to be read, a stretch at a time.
    method ClearPast(byteAddr: nat)
      requires Valid() && cleared <= byteAddr < clearLimit && byteAddr + CHUNK < WORD
      modifies this`mem, this`cleared
      ensures Valid() && byteAddr < cleared
      ensures forall a :: !(memoBase <= a < clearLimit) ==> mem(a) == old(mem)(a)
    {
      var stretch := Wrap(byteAddr + CHUNK);
      stretch := if stretch < clearLimit then stretch else clearLimit;
      FillReads(mem, Shape(memoBase, origin, rows, rowBytes), cleared, visited, stretch - cleared);
      mem := Fill(mem, cleared, Wrap(stretch - cleared));
      cleared := stretch;
    }

    // emitBitStateGuardDyn: whether the state was visited before; it is now. Only memo bytes change.
    method Guard(c: Cell) returns (seen: bool)
      requires Valid() && Covers(c)
      modifies this`mem, this`cleared, this`visited
      ensures Valid() && seen == (c in old(visited)) && visited == old(visited) + {c}
      ensures forall a :: !(memoBase <= a < clearLimit) ==> mem(a) == old(mem)(a)
    {
      InPlace(c);
      ghost var at := Shape(memoBase, origin, rows, rowBytes);
      var byteAddr := Wrap(Wrap(Wrap(Wrap(c.pos - origin) * rowBytes) + c.bit / 8) + memoBase);
      assert byteAddr == at.AddressOf(c);
      if byteAddr >= cleared {
        ClearPast(byteAddr);
      }
      seen := c.bit % 8 in mem(byteAddr);
      if !seen {
        SetReads(mem, at, cleared, visited, c);
        mem := Store(mem, byteAddr, mem(byteAddr) + {c.bit % 8});
        visited := visited + {c};
      }
    }

    // emitBTMemberMatched: after a match from this position the visits from it on are forgotten, the rest kept.
    method Matched(from: nat)
      requires Valid() && from < origin + rows
      modifies this`cleared, this`visited
      ensures Valid() && visited == set c | c in old(visited) && c.pos < from
    {
      var at := Shape(memoBase, origin, rows, rowBytes);
      if from < origin {
        NothingReads(mem, at);
        assert (set c | c in visited && c.pos < from) == {};
        cleared, visited := memoBase, {};
      } else {
        RowFits(from - origin, rows, rowBytes);
        RowIs(from - origin, rowBytes);
        var row := Wrap(memoBase + Wrap(Wrap(from - origin) * rowBytes));
        LowerReads(mem, at, cleared, visited, from, row);
        cleared := if row < cleared then row else cleared;
        visited := set c | c in visited && c.pos < from;
      }
    }

    // The pages a full stack asks for: as many as it has, or the fewest a frame needs when those are refused or more.
    function Asked(first: bool, second: bool): nat
      requires frameSize > 0 && stackBase <= MemEnd(pages)
      reads this
    {
      var least, size := FewestPages(frameSize), (MemEnd(pages) - stackBase) / PAGE;
      var double := if size > least then size else least;
      if first && pages + double <= MAX_PAGES then double
      else if second && pages + least <= MAX_PAGES then least
      else 0
    }

    // A frame on the stack. Doubling memory when full, else the fewest pages a frame needs, else giving up.
    method Push(frame: Memory, first: bool, second: bool) returns (ok: bool)
      requires Valid()
      modifies this`mem, this`pages, this`stackTop, this`sp
      ensures Valid() && sp == old(sp) + (if ok then frameSize else 0)
      ensures old(stackTop) <= stackTop && (!ok ==> stackTop < sp)
      ensures pages == old(pages) + if old(sp) <= old(stackTop) then 0 else old(Asked(first, second))
      ensures forall a :: old(sp) <= a < sp ==> mem(a) == frame(a)
      ensures forall a :: stackBase <= a < old(sp) ==> mem(a) == old(mem)(a)
      ensures old(sp) <= old(stackTop) || (second && old(pages) + (frameSize + 0xFFFF) / PAGE < MAX_PAGES) ==> ok
    {
      ok := true;
      ghost var at, before := Shape(memoBase, origin, rows, rowBytes), mem;
      if sp > stackTop {
        ok := GrowStack(first, second);
        OutsideReads(before, mem, at, cleared, visited);
        if !ok {
          return;
        }
      }
      ghost var grown := mem;
      var lo, hi := sp, sp + frameSize;
      var below := mem;
      mem := a => if lo <= a < hi then frame(a) else below(a);
      sp := hi;
      OutsideReads(grown, mem, at, cleared, visited);
    }

    // After a grow one more frame always fits, but for the ceiling.
    method GrowStack(first: bool, second: bool) returns (ok: bool)
      requires Placed() && sp > stackTop
      modifies this`mem, this`pages, this`stackTop
      ensures Placed() && old(stackTop) <= stackTop && pages == old(pages) + old(Asked(first, second))
      ensures forall a :: a < sp ==> mem(a) == old(mem)(a)
      ensures ok <==> sp <= stackTop
      ensures second && old(pages) + (frameSize + 0xFFFF) / PAGE < MAX_PAGES ==> ok
    {
      var minPages := if (frameSize + 0xFFFF) / PAGE < 1 then 1 else (frameSize + 0xFFFF) / PAGE;
      var capacity := Wrap(Wrap(stackTop + frameSize) - stackBase) / PAGE;
      ok := Grow(if capacity > minPages then capacity else minPages, first);
      if !ok {
        ok := Grow(minPages, second);
        if !ok {
          return;
        }
      }
      stackTop := Wrap(MemEnd(pages) - frameSize);
      ok := sp <= stackTop;
    }

    method Pop()
      requires Valid() && stackBase + frameSize <= sp
      modifies this`sp
      ensures Valid() && sp == old(sp) - frameSize
    {
      sp := Wrap(sp - frameSize);
    }
  }
}
