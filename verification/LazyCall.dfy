/** A whole memoised call in one memory: the region placed, the marks in its bits, the frames in its bytes. */
module LazyCall {
  import opened PrioritySearch
  import opened BtProgram
  import opened BtMachine
  import opened BtSpec
  import opened Textbook
  import opened WorkBudget
  import opened FallbackCost
  import opened BtCalls
  import opened Wasm32
  import opened LazyMemo
  import opened LazyFallback
  import opened FrameBytes
  import DispatchKeeps

  // ---- The stack in memory ----

  // Frame i is read i frame sizes above the stack's base.
  ghost predicate FrameIn(mem: Memory, base: nat, slots: nat, f: Frame, i: nat) {
    ReadFrame(mem, base + RowStart(i, FrameSize(slots)), slots) == f
  }

  ghost predicate StackIn(mem: Memory, base: nat, slots: nat, stack: seq<Frame>) {
    forall i :: 0 <= i < |stack| ==> FrameIn(mem, base, slots, stack[i], i)
  }

  ghost predicate Stacked(region: Region, slots: nat, stack: seq<Frame>)
    reads region
  {
    && region.Valid() && region.frameSize == FrameSize(slots)
    && region.sp == region.stackBase + RowStart(|stack|, FrameSize(slots))
    && StackIn(region.mem, region.stackBase, slots, stack)
  }

  lemma FrameStays(mem: Memory, mem': Memory, base: nat, slots: nat, f: Frame, i: nat, n: nat)
    requires FrameIn(mem, base, slots, f, i) && i < n
    requires Agree(mem, mem', base, base + RowStart(n, FrameSize(slots)))
    ensures FrameIn(mem', base, slots, f, i)
  {
    RowFits(i, n, FrameSize(slots));
    FrameAgrees(mem, mem', base + RowStart(i, FrameSize(slots)), slots);
  }

  // Memory that keeps the bytes below the stack's end keeps the stack.
  lemma StackStays(mem: Memory, mem': Memory, base: nat, slots: nat, stack: seq<Frame>)
    requires StackIn(mem, base, slots, stack)
    requires Agree(mem, mem', base, base + RowStart(|stack|, FrameSize(slots)))
    ensures StackIn(mem', base, slots, stack)
  {
    forall i | 0 <= i < |stack| ensures FrameIn(mem', base, slots, stack[i], i) {
      FrameStays(mem, mem', base, slots, stack[i], i, |stack|);
    }
  }

  lemma NewFrame(mem: Memory, base: nat, slots: nat, n: nat, f: Frame)
    requires Fits32(f) && |f.caps| == slots
    requires var at := base + RowStart(n, FrameSize(slots)); Agree(mem, FrameAt(f, at), at, at + FrameSize(slots))
    ensures FrameIn(mem, base, slots, f, n)
    ensures RowStart(n + 1, FrameSize(slots)) == RowStart(n, FrameSize(slots)) + FrameSize(slots)
  {
    FrameRoundTrip(mem, f, base + RowStart(n, FrameSize(slots)));
  }

  lemma OneMoreFrame(mem: Memory, base: nat, slots: nat, stack: seq<Frame>, f: Frame)
    requires StackIn(mem, base, slots, stack) && FrameIn(mem, base, slots, f, |stack|)
    ensures StackIn(mem, base, slots, stack + [f])
  {
    var more := stack + [f];
    forall i | 0 <= i < |more| ensures FrameIn(mem, base, slots, more[i], i) {
      if i < |stack| {
        assert more[i] == stack[i] && FrameIn(mem, base, slots, stack[i], i);
      }
    }
  }

  lemma FramePushed(mem: Memory, base: nat, slots: nat, stack: seq<Frame>, f: Frame)
    requires StackIn(mem, base, slots, stack) && Fits32(f) && |f.caps| == slots
    requires var at := base + RowStart(|stack|, FrameSize(slots)); Agree(mem, FrameAt(f, at), at, at + FrameSize(slots))
    ensures StackIn(mem, base, slots, stack + [f])
    ensures RowStart(|stack + [f]|, FrameSize(slots)) == RowStart(|stack|, FrameSize(slots)) + FrameSize(slots)
  {
    NewFrame(mem, base, slots, |stack|, f);
    OneMoreFrame(mem, base, slots, stack, f);
  }

  // Room for a frame, or a page to be had for it.
  ghost predicate CanPush(region: Region, second: bool)
    reads region
  {
    || region.sp <= region.stackTop
    || (second && region.pages + (region.frameSize + 0xFFFF) / PAGE < MAX_PAGES)
  }

  method PushFrame(region: Region, slots: nat, f: Frame, first: bool, second: bool, ghost stack: seq<Frame>)
    returns (ok: bool)
    requires Stacked(region, slots, stack) && Fits32(f) && |f.caps| == slots
    modifies region`mem, region`pages, region`stackTop, region`sp
    ensures Stacked(region, slots, if ok then stack + [f] else stack) && old(region.stackTop) <= region.stackTop
    ensures old(region.pages) <= region.pages && (old(CanPush(region, second)) ==> ok)
    ensures !ok ==> region.stackTop < region.sp
  {
    ghost var was := region.mem;
    ok := region.Push(FrameAt(f, region.sp), first, second);
    StackStays(was, region.mem, region.stackBase, slots, stack);
    if ok {
      FramePushed(region.mem, region.stackBase, slots, stack, f);
    }
  }

  method PopFrame(region: Region, slots: nat, ghost stack: seq<Frame>) returns (f: Frame)
    requires Stacked(region, slots, stack) && stack != []
    modifies region`sp
    ensures f == stack[|stack| - 1] && Stacked(region, slots, stack[..|stack| - 1])
  {
    ghost var top := |stack| - 1;
    assert RowStart(|stack|, FrameSize(slots)) == RowStart(top, FrameSize(slots)) + FrameSize(slots);
    assert FrameIn(region.mem, region.stackBase, slots, stack[top], top);
    assert forall i :: 0 <= i < top ==> FrameIn(region.mem, region.stackBase, slots, stack[i], i);
    region.Pop();
    f := ReadFrame(region.mem, region.sp, slots);
  }

  // ---- One alternation ----

  ghost predicate CapsFit(caps: seq<int>) {
    forall i :: 0 <= i < |caps| ==> -(WORD / 2) <= caps[i] < WORD / 2
  }

  // Instructions and positions fit a signed word.
  ghost predicate Small(e: Env) {
    |e.prog| < WORD / 2 && e.limit < WORD / 2
  }

  ghost predicate AllGranted(grants: nat -> bool) {
    forall k :: grants(k)
  }

  // A push was refused: the stack is past where a frame fits, and memory.grow said no, or memory is at its ceiling.
  ghost predicate Refused(region: Region, grants: nat -> bool)
    reads region
  {
    && region.stackTop < region.sp
    && (AllGranted(grants) ==> MAX_PAGES <= region.pages + (region.frameSize + 0xFFFF) / PAGE)
  }

  // The alternatives after the first, last one first.
  method PushRest(e: Env, region: Region, ms: seq<Node>, caps: seq<int>, grants: nat -> bool, used0: nat,
                  ghost stack: seq<Frame>)
    returns (ok: bool, used: nat, ghost left: nat)
    requires Small(e) && CapsFit(caps) && |caps| == e.slots && Stacked(region, e.slots, stack)
    requires ms != [] && forall i :: 0 <= i < |ms| ==> e.Has(ms[i])
    modifies region`mem, region`pages, region`stackTop, region`sp
    ensures 1 <= left <= |ms| && Stacked(region, e.slots, Pushed(ms, left, caps, stack))
    ensures if ok then left == 1 else left > 1 && Refused(region, grants)
    ensures old(region.stackTop) <= region.stackTop
  {
    ok, used, left := true, used0, |ms|;
    for j := |ms| downto 1
      invariant ok && left == j && Stacked(region, e.slots, Pushed(ms, j, caps, stack))
      invariant old(region.stackTop) <= region.stackTop
    {
      var f := Frame(ms[j], caps);
      ok := PushFrame(region, e.slots, f, grants(used), grants(used + 1), Pushed(ms, j + 1, caps, stack));
      used := used + 2;
      if !ok {
        left := j + 1;
        return;
      }
      left := j;
    }
  }

  // The guard touches memo bytes only.
  lemma StackAboveMemo(was: Memory, region: Region, slots: nat, stack: seq<Frame>)
    requires region.Valid() && region.frameSize == FrameSize(slots)
    requires region.sp == region.stackBase + RowStart(|stack|, FrameSize(slots))
    requires StackIn(was, region.stackBase, slots, stack)
    requires forall a :: !(region.memoBase <= a < region.clearLimit) ==> region.mem(a) == was(a)
    ensures Stacked(region, slots, stack)
  {
    StackStays(was, region.mem, region.stackBase, slots, stack);
  }

  // What an alternation's handler leaves: the step, or a stack one push short of it.
  ghost predicate Handled(e: Env, m: Machine, after: Machine, ok: bool)
    requires e.Valid() && InState(e, m) && m.pc >= 0
  {
    if ok then after == StepTo(e, true, m)
    else after.marks == Abandoned(true, m) && Overflows(e, true, |after.stack|, m)
  }

  lemma AltSucc(e: Env, m: Machine)
    requires e.Valid() && InState(e, m) && m.pc >= 0 && e.prog[m.pc].IsAlt() && At(m.pc, m.pos) !in m.marks
    ensures !e.Accepts(At(m.pc, m.pos)) && Touch(e, At(m.pc, m.pos), m.caps) == m.caps
    ensures var n := At(m.pc, m.pos); var ms := e.Succ(n); var marked := m.(marks := m.marks + {n});
            StepTo(e, true, m) == if ms == [] then marked.(pc := -1)
              else marked.(pc := ms[0].pc, pos := ms[0].pos, stack := Pushed(ms, 1, m.caps, m.stack))
  {
  }

  method AltStep(e: Env, index: seq<int>, region: Region, grants: nat -> bool, used0: nat, pc: nat, pos: nat,
                 caps: seq<int>, ghost m: Machine)
    returns (ok: bool, next: int, pos': nat, used: nat, ghost after: Machine)
    requires e.Valid() && Small(e) && CapsFit(caps) && InState(e, m) && m.pc == pc && m.pos == pos && m.caps == caps
    requires e.prog[pc].IsAlt() && Serves(e, index, region, m.marks) && Stacked(region, e.slots, m.stack)
    modifies region`mem, region`pages, region`stackTop, region`sp, region`cleared, region`visited
    ensures Serves(e, index, region, after.marks) && Stacked(region, e.slots, after.stack)
    ensures Handled(e, m, after, ok) && (ok ==> after.pc == next && after.pos == pos' && after.caps == caps)
    ensures old(region.stackTop) <= region.stackTop && (!ok ==> Refused(region, grants))
  {
    ok, next, pos', used, after := true, -1, pos, used0, m;
    var n := At(pc, pos);
    ghost var was := region.mem;
    var seen := Enter(e, index, region, n, m.marks);
    StackAboveMemo(was, region, e.slots, m.stack);
    after := m.(marks := m.marks + {n});
    if seen {
      assert after.marks == m.marks;
      after := after.(pc := -1);
      return;
    }
    AltSucc(e, m);
    var ms := Arms(e, pc, pos);
    if ms == [] {
      after := after.(pc := -1);
      return;
    }
    ghost var left;
    ok, used, left := PushRest(e, region, ms, caps, grants, used0, m.stack);
    after := after.(pc := ms[0].pc, pos := ms[0].pos, stack := Pushed(ms, left, caps, m.stack));
    next, pos' := ms[0].pc, ms[0].pos;
  }

  // ---- The body ----

  // Any other instruction leaves the stack and the marks alone.
  lemma PlainIs(e: Env, m: Machine)
    requires e.Valid() && InState(e, m) && m.pc >= 0 && !e.prog[m.pc].IsAlt()
    ensures var bare := Machine(m.pc, m.pos, m.caps, [], {});
            InState(e, bare) && !Overflows(e, false, 0, bare) &&
            StepTo(e, true, m) == StepTo(e, false, bare).(stack := m.stack, marks := m.marks)
  {
    var ms := e.Succ(At(m.pc, m.pos));
    assert |ms| <= 1;
  }

  ghost predicate StackFits(stack: seq<Frame>) {
    forall i :: 0 <= i < |stack| ==> CapsFit(stack[i].caps)
  }

  // Every capture value in the machine fits a word.
  ghost predicate AllFit(m: Machine) {
    CapsFit(m.caps) && StackFits(m.stack)
  }

  lemma {:induction false} PushedFit(ms: seq<Node>, k: nat, caps: seq<int>, stack: seq<Frame>)
    requires k <= |ms| && CapsFit(caps) && StackFits(stack)
    ensures StackFits(Pushed(ms, k, caps, stack))
    decreases |ms| - k
  {
    if k < |ms| {
      PushedFit(ms, k + 1, caps, stack);
      var rest := Pushed(ms, k + 1, caps, stack);
      assert CapsFit(Frame(ms[k], caps).caps);
      forall i | 0 <= i < |rest + [Frame(ms[k], caps)]| ensures CapsFit((rest + [Frame(ms[k], caps)])[i].caps) {
        assert i < |rest| ==> CapsFit(rest[i].caps);
      }
    }
  }

  lemma StillFits(e: Env, m: Machine)
    requires e.Valid() && Small(e) && InState(e, m) && m.pc >= 0 && AllFit(m)
    ensures AllFit(StepTo(e, true, m))
  {
    var n := At(m.pc, m.pos);
    var ms, caps := e.Succ(n), Touch(e, n, m.caps);
    assert CapsFit(caps);
    if ms != [] {
      PushedFit(ms, 1, caps, m.stack);
    }
  }

  method PlainStep(e: Env, pc: nat, pos: nat, caps: seq<int>, ghost m: Machine)
    returns (accepted: bool, next: int, pos': nat, caps': seq<int>)
    requires e.Valid() && InState(e, m) && m.pc == pc && m.pos == pos && m.caps == caps && !e.prog[pc].IsAlt()
    ensures accepted <==> e.Accepts(At(pc, pos))
    ensures !accepted ==> StepTo(e, true, m) == m.(pc := next, pos := pos', caps := caps')
  {
    PlainIs(e, m);
    var ev, after := Handle(e, false, 0, Machine(pc, pos, caps, [], {}));
    accepted, next, pos', caps' := ev.Accepted?, after.pc, after.pos, after.caps;
  }

  lemma RunGrows(e: Env, run: seq<Machine>, m': Machine)
    requires e.Valid() && IsRun(e, true, run) && Goes(e, true, run[|run| - 1], m')
    ensures IsRun(e, true, run + [m']) && (run + [m'])[0] == run[0]
  {
    assert (run + [m'])[..|run|] == run;
  }

  lemma {:induction false} RowsGrow(a: nat, b: nat, size: nat)
    requires a <= b
    ensures RowStart(a, size) <= RowStart(b, size)
    decreases b
  {
    if a < b {
      RowsGrow(a, b - 1, size);
    }
  }

  // Where the stack stood full is below the bound.
  lemma RefusedBelow(e: Env, run: seq<Machine>, depth: nat, slots: nat)
    requires e.Valid() && IsRun(e, true, run) && run[0].stack == [] && Overflows(e, true, depth, run[|run| - 1])
    ensures RowStart(depth, FrameSize(slots)) + FrameSize(slots) <= RowStart(DepthBound(e), FrameSize(slots))
  {
    if DepthBound(e) <= depth {
      FallbackFits(e, depth, run);
    }
    RowsGrow(depth + 1, DepthBound(e), FrameSize(slots));
  }

  // Room for every frame the body can stack, above the stack's base.
  ghost predicate HasRoom(e: Env, base: nat, top: int)
    requires e.first <= e.limit
  {
    base + RowStart(DepthBound(e), FrameSize(e.slots)) <= top + FrameSize(e.slots)
  }

  // One turn of the loop: a failure's pop, or one instruction.
  method StackTurn(e: Env, index: seq<int>, region: Region, grants: nat -> bool, used0: nat, pc0: int, pos0: nat,
                   caps0: seq<int>, ghost m: Machine, ghost g: Graph<Node>)
    returns (ev: Event, pc: int, pos: nat, caps: seq<int>, used: nat, ghost m': Machine)
    requires Walks(e, g) && g.guarded == AltStates(e) && Small(e) && InState(e, m) && AllFit(m)
    requires m.pc == pc0 && m.pos == pos0 && m.caps == caps0 && (pc0 < 0 ==> m.stack != [])
    requires Serves(e, index, region, m.marks) && Stacked(region, e.slots, m.stack)
    modifies region`mem, region`pages, region`stackTop, region`sp, region`cleared, region`visited
    ensures ev.Accepted? ==>
              && pc == m.pc && pos == m.pos && caps == m.caps && m' == m
              && Now(e, g, m).result == MatchAt(pos, caps) && Now(e, g, m).marks == m.marks
    ensures ev.Overflowed? ==>
              && m.pc >= 0 && Overflows(e, true, |m'.stack|, m)
              && Refused(region, grants)
    ensures ev.Moved? ==>
              && m'.pc == pc && m'.pos == pos && m'.caps == caps && AllFit(m')
              && Goes(e, true, m, m') && Follows(Now(e, g, m'), Now(e, g, m))
    ensures Serves(e, index, region, m'.marks) && Stacked(region, e.slots, m'.stack)
    ensures old(region.stackTop) <= region.stackTop
  {
    ev, pc, pos, caps, used, m' := Moved, pc0, pos0, caps0, used0, m;
    if pc < 0 {
      var f := PopFrame(region, e.slots, m.stack);
      PopFollows(e, g, m);
      m' := PopTo(m);
      pc, pos, caps := f.node.pc, f.node.pos, f.caps;
    } else if e.prog[pc].IsAlt() {
      var ok;
      ok, pc, pos, used, m' := AltStep(e, index, region, grants, used, pc, pos, caps, m);
      if ok {
        StepFollows(e, g, true, m);
        StillFits(e, m);
      } else {
        ev := Overflowed;
      }
    } else {
      var accepted, next, pos', caps' := PlainStep(e, pc, pos, caps, m);
      if accepted {
        AcceptIsNow(e, g, m);
        ev := Accepted;
      } else {
        StepFollows(e, g, true, m);
        StillFits(e, m);
        m' := StepTo(e, true, m);
        pc, pos, caps := next, pos', caps';
      }
    }
  }

  lemma {:induction false} RowPositive(n: nat, size: nat)
    requires n > 0 && size > 0
    ensures RowStart(n, size) > 0
  {
  }

  lemma EmptyStack(region: Region, slots: nat, stack: seq<Frame>)
    requires Stacked(region, slots, stack)
    ensures stack == [] <==> region.sp == region.stackBase
  {
    if stack != [] {
      RowPositive(|stack|, FrameSize(slots));
    }
  }

  // The end of the largest memory one more frame's pages can always be added to.
  function Ceiling(size: nat): nat
    requires size <= MAX_END
  {
    MemEnd(MAX_PAGES - (size + 0xFFFF) / PAGE)
  }

  // k pages, and no fewer, hold the frame.
  lemma CeilingIs(size: nat, k: nat)
    requires size <= MAX_END && (k - 1) * PAGE < size <= k * PAGE
    ensures k <= MAX_PAGES && Ceiling(size) == MemEnd(MAX_PAGES - k)
  {
  }

  // Refused with every growth granted, the stack stands above the ceiling.
  lemma RefusedHigh(region: Region, grants: nat -> bool, slots: nat, stack: seq<Frame>)
    requires Stacked(region, slots, stack) && Refused(region, grants) && AllGranted(grants)
    ensures Ceiling(FrameSize(slots)) < region.sp + FrameSize(slots)
  {
    var least := MAX_PAGES - (region.frameSize + 0xFFFF) / PAGE;
    assert least <= region.pages && MemEnd(least) <= MemEnd(region.pages);
  }

  // From this base the stack can take every frame without meeting the ceiling.
  ghost predicate FitsMemory(e: Env, base: nat)
    requires e.first <= e.limit
  {
    FrameSize(e.slots) <= MAX_END && HasRoom(e, base, Ceiling(FrameSize(e.slots)) - FrameSize(e.slots))
  }

  // A refused push is want of room.
  lemma NoRoom(e: Env, region: Region, grants: nat -> bool, run: seq<Machine>, stack: seq<Frame>, top: nat)
    requires e.Valid() && IsRun(e, true, run) && run[0].stack == [] && Overflows(e, true, |stack|, run[|run| - 1])
    requires Stacked(region, e.slots, stack) && Refused(region, grants) && top <= region.stackTop
    ensures !HasRoom(e, region.stackBase, top)
    ensures AllGranted(grants) ==> !FitsMemory(e, region.stackBase)
  {
    RefusedBelow(e, run, |stack|, e.slots);
    if AllGranted(grants) {
      RefusedHigh(region, grants, e.slots, stack);
    }
  }

  // The memoised body, its marks bits and its frames bytes of one memory.
  method StackedBody(e: Env, index: seq<int>, region: Region, grants: nat -> bool, start: Node, caps0: seq<int>,
                     ghost marks0: set<Node>, ghost g: Graph<Node>)
    returns (v: Verdict, ghost marks: set<Node>)
    requires Walks(e, g) && g.guarded == AltStates(e) && e.Live(start) && |caps0| == e.slots && CapsFit(caps0)
    requires Small(e) && Serves(e, index, region, marks0) && Stacked(region, e.slots, [])
    modifies region`mem, region`pages, region`stackTop, region`sp, region`cleared, region`visited
    ensures v.Answer? ==>
              var o := Search(g, start, marks0);
              v.result == ResultOf(e, g, start, o.found, caps0) && marks == o.marks
    ensures Serves(e, index, region, marks)
    ensures !v.Tripped? && (v.Unknown? ==> Refused(region, grants))
    ensures HasRoom(e, region.stackBase, old(region.stackTop)) ==> v.Answer?
    ensures AllGranted(grants) && FitsMemory(e, region.stackBase) ==> v.Answer?
  {
    var pc: int, pos, caps, used := start.pc, start.pos, caps0, 0;
    ghost var m := Machine(pc, pos, caps, [], marks0);
    ghost var m0, run := m, [m];
    while true
      invariant m.pc == pc && m.pos == pos && m.caps == caps && AllFit(m)
      invariant IsRun(e, true, run) && run[0] == m0 && run[|run| - 1] == m
      invariant Serves(e, index, region, m.marks) && Stacked(region, e.slots, m.stack)
      invariant old(region.stackTop) <= region.stackTop
      invariant Now(e, g, m).result == Now(e, g, m0).result && Now(e, g, m).marks == Now(e, g, m0).marks
      decreases Now(e, g, m).work
    {
      if pc < 0 && region.sp == region.stackBase {
        EmptyStack(region, e.slots, m.stack);
        return Answer(NoMatch), m.marks;
      }
      if pc < 0 {
        EmptyStack(region, e.slots, m.stack);
      }
      var ev;
      ghost var m', top := m, region.stackTop;
      ev, pc, pos, caps, used, m' := StackTurn(e, index, region, grants, used, pc, pos, caps, m, g);
      match ev {
        case Accepted =>
          return Answer(MatchAt(pos, caps)), m.marks;
        case Overflowed =>
          NoRoom(e, region, grants, run, m'.stack, old(region.stackTop));
          return Unknown, m'.marks;
        case Moved =>
          RunGrows(e, run, m');
          m, run := m', run + [m'];
      }
    }
  }

  // ---- The call ----

  // Where the stack starts when the memo starts here.
  function StackBase(e: Env, base: nat, rowBytes: nat): nat
    requires e.first <= e.limit
  {
    Align4(base + RowStart(e.limit - e.first + 1, rowBytes))
  }

  // A region just placed for the call's window stands for an empty memo and an empty stack.
  lemma PlacedServes(e: Env, index: seq<int>, region: Region)
    requires e.Valid() && Indexed(e, index) && region.Valid() && region.visited == {}
    requires Numbered(e.prog, e.plan.dead, |e.prog|) <= 8 * region.rowBytes
    requires region.origin == e.first && region.rows == e.limit - e.first + 1 && region.sp == region.stackBase
    requires region.frameSize == FrameSize(e.slots)
    ensures Serves(e, index, region, {}) && Stacked(region, e.slots, [])
  {
    NothingMirrors(e, index);
  }

  // emitBTScratchInit for this call.
  method PlaceFor(e: Env, index: seq<int>, region: Region, host: nat, floor: nat, granted: bool) returns (ok: bool)
    requires e.Valid() && Small(e) && Indexed(e, index) && region.Sized() && region.frameSize == FrameSize(e.slots)
    requires Numbered(e.prog, e.plan.dead, |e.prog|) <= 8 * region.rowBytes && host < WORD && floor < WORD
    modifies region
    ensures ok ==> Serves(e, index, region, {}) && Stacked(region, e.slots, [])
    ensures ok ==> region.stackBase == StackBase(e, old(region.BaseAt(host, floor)), region.rowBytes)
    ensures var base := StackBase(e, old(region.BaseAt(host, floor)), region.rowBytes);
            granted && base + region.frameSize <= MAX_END ==> ok
  {
    ok := region.Place(host, floor, e.first, e.limit - e.first, granted);
    if ok {
      PlacedServes(e, index, region);
    }
  }

  // The search's answer is the leftmost-first one.
  lemma SearchAnswers(e: Env, start: Node, caps: seq<int>, p: DispatchKeeps.Proof, chain: seq<nat>)
    requires e.Valid() && DispatchKeeps.PlanOk(e.prog, e.plan, p) && ChainRanked(e.prog, chain) && e.Live(start)
    requires |caps| == e.slots
    ensures var g := FallbackGraph(e, chain);
            && Walks(e, g) && g.guarded == AltStates(e)
            && ResultOf(e, g, start, Search(g, start, {}).found, caps) == Reference(e, start, caps)
  {
    FallbackIsReference(e, p, chain, start, caps);
    SearchIsBest(FallbackGraph(e, chain), start, {}, {});
  }

  // The region, then the body: the leftmost-first answer, or no answer for want of memory alone.
  method MemoryCall(e: Env, index: seq<int>, region: Region, host: nat, floor: nat, granted: bool,
                    grants: nat -> bool, start: Node, caps0: seq<int>, ghost p: DispatchKeeps.Proof,
                    ghost chain: seq<nat>)
    returns (v: Verdict)
    requires e.Valid() && DispatchKeeps.PlanOk(e.prog, e.plan, p) && ChainRanked(e.prog, chain) && e.Live(start)
    requires |caps0| == e.slots && CapsFit(caps0) && Small(e) && Indexed(e, index)
    requires region.Sized() && region.frameSize == FrameSize(e.slots) && host < WORD && floor < WORD
    requires Numbered(e.prog, e.plan.dead, |e.prog|) <= 8 * region.rowBytes
    modifies region
    ensures v.Answer? ==> Plain(e).Valid() && v.result == MatchFrom(Plain(e), start, caps0)
    ensures v.Answer? || v.Unknown?
    ensures var base := StackBase(e, old(region.BaseAt(host, floor)), region.rowBytes);
            granted && AllGranted(grants) && base + region.frameSize <= MAX_END && FitsMemory(e, base) ==> v.Answer?
  {
    var ok := PlaceFor(e, index, region, host, floor, granted);
    if !ok {
      return Unknown;
    }
    SearchAnswers(e, start, caps0, p, chain);
    ReferenceIsTextbook(e, start, caps0);
    ghost var marks;
    v, marks := StackedBody(e, index, region, grants, start, caps0, {}, FallbackGraph(e, chain));
  }
}
