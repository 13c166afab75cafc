/**
 Scanner handles over the component heap: taking the input over, detaching, releasing, dropping.

 Each block is free, on the call's chain, or owned by one field of one handle. Every operation keeps that,
 so once the handles are dropped and the call is posted, every block is free.
 */
module Scanner {
  import opened FiniteSets
  import opened Allocator
  import opened Wasm32
  import opened ComponentHeap

  const AREA_FIND := 16

  // A scanner's representation: the blocks it keeps (0 for none), where it is and whether it is done.
  // state is 0 while live, 1 once finished, 2 once it answered an error.
  datatype Rep = Rep(input: int, len: nat, pos: nat, state: nat, notes: int, memo: int)

  datatype Role = Body | Input | Notes | Memo

  datatype Owner = Owner(handle: int, role: Role)

  function Slot(r: int, rep: Rep, role: Role): int {
    match role
    case Body => r
    case Input => rep.input
    case Notes => rep.notes
    case Memo => rep.memo
  }

  predicate IsHeld(place: map<int, Place>, p: int) {
    p in place && place[p] == Held
  }

  // Every held block is in exactly one slot of exactly one handle, but for those an adapter has in hand.
  ghost predicate Owned(handles: map<int, Rep>, holder: map<int, Owner>, place: map<int, Place>, hand: set<int>) {
    && (forall p :: IsHeld(place, p) <==> p in holder || p in hand)
    && holder.Keys !! hand && 0 !in holder && 0 !in hand
    && (forall r :: r in handles ==> r != 0 && (handles[r].state == 0 ==> handles[r].input != 0))
    && (forall r, role {:trigger Slot(r, handles[r], role)} :: r in handles && Slot(r, handles[r], role) != 0 ==>
          Slot(r, handles[r], role) in holder && holder[Slot(r, handles[r], role)] == Owner(r, role))
    && (forall p :: p in holder ==>
          && holder[p].handle in handles
          && Slot(holder[p].handle, handles[holder[p].handle], holder[p].role) == p)
  }

  // ---- Ownership steps ----

  lemma PlacesOnly(handles: map<int, Rep>, holder: map<int, Owner>, place: map<int, Place>, place': map<int, Place>,
                   hand: set<int>)
    requires Owned(handles, holder, place, hand) && forall p :: IsHeld(place', p) <==> IsHeld(place, p)
    ensures Owned(handles, holder, place', hand)
  {
  }

  // A block newly in hand.
  lemma PickUp(handles: map<int, Rep>, holder: map<int, Owner>, place: map<int, Place>, place': map<int, Place>,
               hand: set<int>, got: set<int>)
    requires Owned(handles, holder, place, hand) && (forall p :: p in got ==> p != 0 && !IsHeld(place, p))
    requires forall p :: IsHeld(place', p) <==> IsHeld(place, p) || p in got
    ensures Owned(handles, holder, place', hand + got)
  {
    forall p | p in got ensures p !in holder.Keys {
      assert !IsHeld(place, p);
    }
  }

  // A block in hand given back.
  lemma PutDown(handles: map<int, Rep>, holder: map<int, Owner>, place: map<int, Place>, place': map<int, Place>,
                hand: set<int>, p: int)
    requires Owned(handles, holder, place, hand) && p in hand
    requires forall q :: IsHeld(place', q) <==> IsHeld(place, q) && q != p
    ensures Owned(handles, holder, place', hand - {p})
  {
  }

  // Two blocks in hand become a handle and its input.
  lemma NewHandle(handles: map<int, Rep>, holder: map<int, Owner>, place: map<int, Place>, r: int, rep: Rep)
    requires Owned(handles, holder, place, {r, rep.input}) && r != rep.input && rep.notes == 0 && rep.memo == 0
    ensures r !in handles
    ensures Owned(handles[r := rep], holder[r := Owner(r, Body)][rep.input := Owner(r, Input)], place, {})
  {
    assert r !in holder && (r in handles ==> Slot(r, handles[r], Body) == r);
    var handles' := handles[r := rep];
    forall q, o | q in handles && Slot(q, handles[q], o) != 0
      ensures Slot(q, handles'[q], o) == Slot(q, handles[q], o) {
      assert Slot(q, handles[q], o) in holder;
    }
  }

  // A block in hand goes into an empty slot.
  lemma FillSlot(handles: map<int, Rep>, holder: map<int, Owner>, place: map<int, Place>, r: int, role: Role,
                 rep: Rep, p: int)
    requires Owned(handles, holder, place, {p}) && r in handles && role != Body && Slot(r, handles[r], role) == 0
    requires Slot(r, rep, role) == p
    requires rep.state == handles[r].state && forall other :: other != role ==>
               Slot(r, rep, other) == Slot(r, handles[r], other)
    ensures Owned(handles[r := rep], holder[p := Owner(r, role)], place, {})
  {
    var handles', holder' := handles[r := rep], holder[p := Owner(r, role)];
    assert Slot(r, rep, Input) == rep.input && Slot(r, handles[r], Input) == handles[r].input && p !in holder;
    forall q | q in holder' ensures holder'[q].handle in handles' &&
      Slot(holder'[q].handle, handles'[holder'[q].handle], holder'[q].role) == q {
      if q != p {
        assert q in holder && (holder[q].handle == r ==> holder[q].role != role);
      }
    }
    forall q, o | q in handles' && Slot(q, handles'[q], o) != 0
      ensures Slot(q, handles'[q], o) in holder' && holder'[Slot(q, handles'[q], o)] == Owner(q, o)
    {
      assert (q == r && o == role) || Slot(q, handles'[q], o) == Slot(q, handles[q], o);
    }
  }

  // A slot is emptied, its block in hand.
  lemma ClearSlot(handles: map<int, Rep>, holder: map<int, Owner>, place: map<int, Place>, r: int, role: Role, rep: Rep)
    requires Owned(handles, holder, place, {}) && r in handles && role != Body && Slot(r, handles[r], role) != 0
    requires Slot(r, rep, role) == 0
    requires rep.state != 0 && forall other :: other != role ==> Slot(r, rep, other) == Slot(r, handles[r], other)
    ensures var p := Slot(r, handles[r], role);
            p in holder && holder[p] == Owner(r, role) && Owned(handles[r := rep], holder - {p}, place, {p})
  {
    var p := Slot(r, handles[r], role);
    var handles', holder' := handles[r := rep], holder - {p};
    forall q, o | q in handles' && Slot(q, handles'[q], o) != 0
      ensures Slot(q, handles'[q], o) in holder' && holder'[Slot(q, handles'[q], o)] == Owner(q, o)
    {
      assert Slot(q, handles'[q], o) == Slot(q, handles[q], o);
    }
  }

  lemma ReleaseSlot(handles: map<int, Rep>, holder: map<int, Owner>, place: map<int, Place>, place': map<int, Place>,
                    r: int, role: Role)
    requires Owned(handles, holder, place, {}) && r in handles && handles[r].state != 0 && role != Body
    requires Slot(r, handles[r], role) != 0
    requires forall q :: IsHeld(place', q) <==> IsHeld(place, q) && q != Slot(r, handles[r], role)
    ensures Owned(handles[r := Without(handles[r], role)], holder - {Slot(r, handles[r], role)}, place', {})
  {
    var p := Slot(r, handles[r], role);
    ClearSlot(handles, holder, place, r, role, Without(handles[r], role));
    PutDown(handles[r := Without(handles[r], role)], holder - {p}, place, place', {p}, p);
    assert {p} - {p} == {};
  }

  // A handle with nothing but itself goes.
  lemma DropHandle(handles: map<int, Rep>, holder: map<int, Owner>, place: map<int, Place>, r: int)
    requires Owned(handles, holder, place, {}) && r in handles && forall role :: role != Body ==>
               Slot(r, handles[r], role) == 0
    ensures r in holder && Owned(handles - {r}, holder - {r}, place, {r})
  {
    assert Slot(r, handles[r], Body) == r;
  }

  lemma GainedHeld(b: Book, b': Book, p: int, size: nat)
    requires Gained(b, b', p, size)
    ensures forall q :: IsHeld(b'.place, q) <==> IsHeld(b.place, q)
    ensures p in b'.place && !IsHeld(b'.place, p)
  {
  }

  lemma MovedHeld(b: Book, b': Book, blocks: seq<int>, to: Place)
    requires Moved(b, b', blocks, to) && forall p :: p in blocks ==> p in b.place && b.place[p] != Held
    ensures forall q :: IsHeld(b'.place, q) <==> IsHeld(b.place, q) || (to == Held && q in blocks)
  {
    forall q ensures IsHeld(b'.place, q) <==> IsHeld(b.place, q) || (to == Held && q in blocks) {
      assert q in b'.place <==> q in b'.place.Keys;
      assert q in b.place <==> q in b.place.Keys;
    }
  }

  // ---- What one search call answered ----

  datatype Found = Unknown | Exhausted | Matched(start: nat, end: nat)

  datatype Reply = NoMore | Failed | Reported(start: nat, end: nat)

  // ---- The component ----

  class Component {
    const heap: Heap
    const notesPerPos: nat    // bytes of search notes per text position, 0 when the pattern keeps none
    const memoPerPos: nat     // bytes of Backtracking memo per text position, likewise
    var handles: map<int, Rep>
    ghost var holder: map<int, Owner>

    ghost predicate Intact(hand: set<int>)
      reads this, heap
    {
      heap.Valid() && Owned(handles, holder, heap.book.place, hand)
    }

    ghost predicate Valid()
      reads this, heap
    {
      Intact({})
    }

    constructor (heap: Heap, notesPerPos: nat, memoPerPos: nat)
      requires heap.Valid() && heap.book.place == map[]
      ensures Valid() && this.heap == heap && handles == map[]
    {
      this.heap, this.notesPerPos, this.memoPerPos := heap, notesPerPos, memoPerPos;
      handles, holder := map[], map[];
    }

    // Memory has room for both of a handle's blocks as it is.
    ghost predicate Affords(top: int, pages: nat, repSize: nat, len: nat) {
      repSize <= MAX_SIZE && len <= MAX_SIZE && top + 2 * (repSize + 8) + 2 * (len + 8) <= pages * PAGE
    }

    // An allocation on the current call's chain: a lowered argument, or a result area.
    method Allocate(align: nat, size: nat, grows: bool, ghost hand: set<int>) returns (trapped: bool, p: int)
      requires Intact(hand) && size < WORD
      modifies heap
      ensures !trapped ==>
                && Intact(hand) && Gained(old(heap.book), heap.book, p, size) && p > 0 && heap.callList == p
                && p !in hand && p !in holder
      ensures !trapped ==> heap.heapTop <= old(heap.heapTop) + 2 * (size + 8) && old(heap.pages) <= heap.pages
      ensures align <= 8 && size <= MAX_SIZE && old(heap.heapTop) + 2 * (size + 8) <= old(heap.pages) * PAGE ==>
                !trapped
    {
      trapped, p := heap.Realloc(align, size, grows);
      if !trapped {
        GainedHeld(old(heap.book), heap.book, p, size);
        PlacesOnly(handles, holder, old(heap.book).place, heap.book.place, hand);
        assert !IsHeld(heap.book.place, p);
      }
    }

    // The chain set back to where it was: the blocks that joined since are in hand.
    method Detach(to: int, ghost k: nat, ghost hand: set<int>)
      requires Intact(hand) && k <= |heap.book.chain| && to == if k == |heap.book.chain| then 0 else heap.book.chain[k]
      modifies heap
      ensures Intact(hand + Elements(old(heap.book).chain[..k])) && heap.callList == to
      ensures heap.book.chain == old(heap.book).chain[k..] && heap.book.sizes == old(heap.book).sizes
      ensures heap.heapTop == old(heap.heapTop) && heap.pages == old(heap.pages)
    {
      ghost var blocks := heap.book.chain[..k];
      OnChain(heap, blocks, k);
      heap.Restore(to, k);
      MovedHeld(old(heap.book), heap.book, blocks, Held);
      PickUp(handles, holder, old(heap.book).place, heap.book.place, hand, Elements(blocks));
    }

    // The blocks that joined in front of the chain it is set back to are in hand.
    method Claim(to: int, ghost blocks: seq<int>, ghost rest: seq<int>, ghost hand: set<int>)
      requires Intact(hand) && heap.book.chain == blocks + rest && to == if rest == [] then 0 else rest[0]
      modifies heap
      ensures Intact(hand + Elements(blocks)) && heap.book.chain == rest && heap.book.sizes == old(heap.book).sizes
      ensures heap.heapTop == old(heap.heapTop) && heap.pages == old(heap.pages)
    {
      Prefix(blocks, rest, heap.book.chain);
      Detach(to, |blocks|, hand);
    }

    // A block in hand goes back to its list.
    method FreeInHand(p: int, ghost hand: set<int>)
      requires Intact(hand) && p in hand
      modifies heap
      ensures Intact(hand - {p}) && heap.book.chain == old(heap.book).chain && heap.callList == old(heap.callList)
    {
      assert IsHeld(heap.book.place, p);
      heap.Free(p, heap.callList);
      PutDown(handles, holder, old(heap.book).place, heap.book.place, hand, p);
    }

    // post-return: the call's own blocks go, whatever handles hold stays.
    method PostReturn()
      requires Valid()
      modifies heap
      ensures Valid() && heap.book.chain == [] && heap.callList == 0
    {
      OnChain(heap, heap.book.chain, |heap.book.chain|);
      heap.Post();
      MovedHeld(old(heap.book), heap.book, old(heap.book).chain, OnFreeList);
      PlacesOnly(handles, holder, old(heap.book).place, heap.book.place, {});
    }

    // The newest block on the chain, when it is the argument just lowered, leaves the chain for good.
    method TakeOver(ptr: int) returns (copy: int)
      requires Valid()
      modifies heap
      ensures if ptr != 0 && ptr == old(heap.callList)
              then copy == ptr && Intact({ptr}) && old(heap.book).chain == [ptr] + heap.book.chain
              else copy == 0 && Valid() && heap.book.chain == old(heap.book).chain
      ensures heap.heapTop == old(heap.heapTop) && heap.pages == old(heap.pages)
    {
      copy := 0;
      if heap.callList == ptr && ptr != 0 {
        ChainHead(heap.word, heap.heads, heap.callList, heap.book);
        SecondOnChain(heap);
        Detach(At(heap.word, ptr - 4), 1, {});
        assert old(heap.book).chain[..1] == [ptr];
        assert Elements([ptr]) == {ptr};
        copy := ptr;
      }
    }

    // One block, off the chain again.
    method Draw(align: nat, size: nat, grows: bool, ghost hand: set<int>) returns (trapped: bool, p: int)
      requires Intact(hand) && size < WORD
      modifies heap
      ensures !trapped ==> p != 0 && p !in hand && Intact(hand + {p}) && heap.book.chain == old(heap.book).chain
      ensures !trapped ==> p in heap.book.sizes && size + 8 <= Pow2(heap.book.sizes[p])
      ensures !trapped ==> heap.heapTop <= old(heap.heapTop) + 2 * (size + 8) && old(heap.pages) <= heap.pages
      ensures align <= 8 && size <= MAX_SIZE && old(heap.heapTop) + 2 * (size + 8) <= old(heap.pages) * PAGE ==>
                !trapped
    {
      var chain := heap.callList;
      ChainHead(heap.word, heap.heads, heap.callList, heap.book);
      trapped, p := Allocate(align, size, grows, hand);
      if !trapped {
        Claim(chain, [p], old(heap.book).chain, hand);
        assert Elements([p]) == {p};
      }
    }

    // The representation and the input's copy, made in this order, on the chain.
    method AllocateBoth(len: nat, repSize: nat, grows0: bool, grows1: bool) returns (trapped: bool, r: int, copy: int)
      requires Valid() && len < WORD && repSize < WORD
      modifies heap
      ensures !trapped ==>
                copy != 0 && r != 0 && r != copy && Valid() && heap.book.chain == [copy, r] + old(heap.book).chain
      ensures Affords(old(heap.heapTop), old(heap.pages), repSize, len) ==> !trapped
    {
      copy := 0;
      trapped, r := Allocate(8, repSize, grows0, {});
      if !trapped {
        ghost var mid := heap.book.chain;
        trapped, copy := Allocate(1, len, grows1, {});
        assert !trapped ==> heap.book.chain == [copy] + mid == [copy, r] + old(heap.book).chain;
      }
    }

    // Both of them taken off the chain together.
    method DrawBoth(len: nat, repSize: nat, grows0: bool, grows1: bool) returns (trapped: bool, r: int, copy: int)
      requires Valid() && len < WORD && repSize < WORD
      modifies heap
      ensures !trapped ==> copy != 0 && r != copy && Intact({r, copy}) && heap.book.chain == old(heap.book).chain
      ensures Affords(old(heap.heapTop), old(heap.pages), repSize, len) ==> !trapped
    {
      var chain := heap.callList;
      ChainHead(heap.word, heap.heads, heap.callList, heap.book);
      trapped, r, copy := AllocateBoth(len, repSize, grows0, grows1);
      if !trapped {
        Claim(chain, [copy, r], old(heap.book).chain, {});
        assert {} + Elements([copy, r]) == {r, copy};
      }
    }

    // The representation, and the input's copy when it was not taken over, off the chain again.
    method Furnish(copy0: int, len: nat, repSize: nat, grows0: bool, grows1: bool)
      returns (trapped: bool, r: int, copy: int)
      requires Intact(Held0(copy0)) && len < WORD && repSize < WORD
      modifies heap
      ensures !trapped ==> copy != 0 && r != copy && Intact({r, copy}) && heap.book.chain == old(heap.book).chain
      ensures !trapped && copy0 != 0 ==> copy == copy0
      ensures Affords(old(heap.heapTop), old(heap.pages), repSize, len) ==> !trapped
    {
      copy := copy0;
      if copy0 == 0 {
        trapped, r, copy := DrawBoth(len, repSize, grows0, grows1);
      } else {
        trapped, r := Draw(8, repSize, grows0, {copy0});
        assert {copy0} + {r} == {r, copy};
      }
    }

    // The constructor: the lowered input is taken over, anything else is copied; what it allocates is the handle's.
    method Construct(ptr: int, len: nat, start: nat, repSize: nat, grows0: bool, grows1: bool)
      returns (trapped: bool, r: int)
      requires Valid() && len < WORD && repSize < WORD
      modifies this, heap
      ensures !trapped ==> Valid() && r !in old(handles) && exists copy ::
                && handles == old(handles)[r := Rep(copy, len, start, 0, 0, 0)]
                && if ptr != 0 && ptr == old(heap.callList)
                then copy == ptr && old(heap.book).chain == [ptr] + heap.book.chain
                   else heap.book.chain == old(heap.book).chain
      ensures Affords(old(heap.heapTop), old(heap.pages), repSize, len) ==> !trapped
    {
      var copy := TakeOver(ptr);
      trapped, r, copy := Furnish(copy, len, repSize, grows0, grows1);
      if !trapped {
        var rep := Rep(copy, len, start, 0, 0, 0);
        NewHandle(handles, holder, heap.book.place, r, rep);
        handles := handles[r := rep];
        holder := holder[r := Owner(r, Body)][copy := Owner(r, Input)];
      }
    }

    // One slot of a finished scanner: its block goes back and the pointer is zeroed.
    method Release(r: int, role: Role)
      requires Valid() && r in handles && handles[r].state != 0 && role != Body
      modifies this, heap
      ensures Valid() && handles == old(handles)[r := Without(old(handles)[r], role)]
      ensures heap.book.chain == old(heap.book).chain
    {
      var p := Slot(r, handles[r], role);
      if p != 0 {
        assert p in holder && IsHeld(heap.book.place, p);
        heap.Free(p, heap.callList);
        ReleaseSlot(handles, holder, old(heap.book).place, heap.book.place, r, role);
        holder := holder - {p};
      } else {
        assert handles[r := Without(handles[r], role)] == handles;
      }
      handles := handles[r := Without(handles[r], role)];
    }

    // emitPatReleaseFinished.
    method ReleaseFinished(r: int)
      requires Valid() && r in handles && handles[r].state != 0
      modifies this, heap
      ensures Valid() && heap.book.chain == old(heap.book).chain
      ensures handles == old(handles)[r := old(handles)[r].(input := 0, notes := 0, memo := 0)]
    {
      Release(r, Input);
      Release(r, Notes);
      Release(r, Memo);
    }

    // What a block of this size may take of the heap, when one is drawn.
    ghost function Draws(one: bool, size: nat): nat {
      if one then 2 * (size + 8) else 0
    }

    // A block the search has earned and does not hold yet.
    ghost predicate Due(rep: Rep, role: Role, armed: bool, tripped: bool) {
      match role
      case Notes => notesPerPos > 0 && armed && rep.notes == 0
      case Memo => memoPerPos > 0 && tripped && rep.memo == 0
      case _ => false
    }

    ghost function Wanted(rep: Rep, role: Role): nat {
      (rep.len + 1) * if role == Memo then memoPerPos else notesPerPos
    }

    // As it is, memory has room for what is due, and this much besides.
    ghost predicate Ample(rep: Rep, armed: bool, tripped: bool, besides: nat)
      reads heap
    {
      var memo, notes := Due(rep, Memo, armed, tripped), Due(rep, Notes, armed, tripped);
      && (memo ==> Wanted(rep, Memo) <= MAX_SIZE) && (notes ==> Wanted(rep, Notes) <= MAX_SIZE)
      && heap.heapTop + besides + Draws(memo, Wanted(rep, Memo)) + Draws(notes, Wanted(rep, Notes)) <= heap.pages * PAGE
    }

    // emitGiveSearchMemory: zeroed memory for the search, off the chain; none when the allocator could not serve it.
    method GiveMemory(len: nat, perPos: nat, grows: bool) returns (p: int)
      requires Valid()
      modifies heap
      ensures heap.book.chain == old(heap.book).chain && if p == 0 then Valid() else Intact({p})
      ensures p != 0 ==> p in heap.book.sizes && (len + 1) * perPos + 8 <= Pow2(heap.book.sizes[p])
      ensures p != 0 <==> old(heap.CanReserve((len + 1) * perPos, grows))
      ensures heap.heapTop <= old(heap.heapTop) + Draws(p != 0, (len + 1) * perPos) && old(heap.pages) <= heap.pages
    {
      var size := (len + 1) * perPos;
      var ok := heap.TryReserve(size, grows);
      p := 0;
      if ok {
        var trapped;
        trapped, p := Draw(1, size, false, {});
        assert {} + {p} == {p};
      }
    }

    method GiveTo(r: int, role: Role, perPos: nat, grows: bool)
      requires Valid() && r in handles && (role == Notes || role == Memo) && Slot(r, handles[r], role) == 0
      modifies this, heap
      ensures Valid() && heap.book.chain == old(heap.book).chain
      ensures exists p :: handles == old(handles)[r := With(old(handles)[r], role, p)]
      ensures var p, size := Slot(r, handles[r], role), (old(handles)[r].len + 1) * perPos;
              && (p != 0 <==> old(heap.CanReserve(size, grows)))
              && (p != 0 ==> p in heap.book.sizes && size + 8 <= Pow2(heap.book.sizes[p]))
              && heap.heapTop <= old(heap.heapTop) + Draws(p != 0, size) && old(heap.pages) <= heap.pages
    {
      var p := GiveMemory(handles[r].len, perPos, grows);
      if p != 0 {
        var rep := With(handles[r], role, p);
        FillSlot(handles, holder, heap.book.place, r, role, rep, p);
        handles := handles[r := rep];
        holder := holder[p := Owner(r, role)];
      } else {
        assert With(handles[r], role, 0) == handles[r];
        assert handles[r := handles[r]] == handles;
      }
    }

    // The search ended: the state says how, and what only the search read is released.
    method Finish(r: int, state: nat)
      requires Valid() && r in handles && state > 0
      modifies this, heap
      ensures Valid() && heap.book.chain == old(heap.book).chain
      ensures handles == old(handles)[r := old(handles)[r].(state := state, input := 0, notes := 0, memo := 0)]
    {
      StateOnly(handles, holder, heap.book.place, r, handles[r].(state := state));
      handles := handles[r := handles[r].(state := state)];
      ReleaseFinished(r);
    }

    // What the search has earned and does not hold yet, as far as memory goes.
    method Earn(r: int, armed: bool, tripped: bool, grows0: bool, grows1: bool)
      requires Valid() && r in handles && handles[r].state == 0
      modifies this, heap
      ensures Valid() && heap.book.chain == old(heap.book).chain
      ensures handles.Keys == old(handles).Keys && forall q :: q in handles && q != r ==> handles[q] == old(handles)[q]
      ensures handles[r] == old(handles)[r].(notes := handles[r].notes, memo := handles[r].memo)
      ensures !Due(old(handles)[r], Memo, armed, tripped) ==> handles[r].memo == old(handles)[r].memo
      ensures !Due(old(handles)[r], Notes, armed, tripped) ==> handles[r].notes == old(handles)[r].notes
      ensures Due(old(handles)[r], Memo, armed, tripped) ==>
                (handles[r].memo != 0 <==> old(heap.CanReserve(Wanted(handles[r], Memo), grows0)))
      ensures Due(old(handles)[r], Notes, armed, tripped) && !Due(old(handles)[r], Memo, armed, tripped) ==>
                (handles[r].notes != 0 <==> old(heap.CanReserve(Wanted(handles[r], Notes), grows1)))
      ensures old(Ample(handles[r], armed, tripped, 0)) ==>
                !Due(handles[r], Memo, armed, tripped) && !Due(handles[r], Notes, armed, tripped)
    {
      if memoPerPos > 0 && tripped && handles[r].memo == 0 {
        GiveTo(r, Memo, memoPerPos, grows0);
      }
      if notesPerPos > 0 && armed && handles[r].notes == 0 {
        GiveTo(r, Notes, notesPerPos, grows1);
      }
    }

    // The search goes on: memory it has earned, and the position past this match.
    method Continue(r: int, start: nat, end: nat, armed: bool, tripped: bool, grows0: bool, grows1: bool)
      requires Valid() && r in handles && handles[r].state == 0
      modifies this, heap
      ensures Valid() && heap.book.chain == old(heap.book).chain
      ensures handles.Keys == old(handles).Keys && forall q :: q in handles && q != r ==> handles[q] == old(handles)[q]
      ensures var was := old(handles)[r].(notes := handles[r].notes, memo := handles[r].memo);
              handles[r] == was.(pos := if end > start then end else start + 1)
      ensures !Due(old(handles)[r], Memo, armed, tripped) ==> handles[r].memo == old(handles)[r].memo
      ensures !Due(old(handles)[r], Notes, armed, tripped) ==> handles[r].notes == old(handles)[r].notes
      ensures old(Ample(handles[r], armed, tripped, 0)) ==>
                !Due(handles[r], Memo, armed, tripped) && !Due(handles[r], Notes, armed, tripped)
    {
      Earn(r, armed, tripped, grows0, grows1);
      var rep := handles[r].(pos := if end > start then end else start + 1);
      StateOnly(handles, holder, heap.book.place, r, rep);
      handles := handles[r := rep];
    }

    // next. found is what the search body answers from the held input; armed and tripped what it left in its block.
    method Next(r: int, found: Found, armed: bool, tripped: bool, grows0: bool, grows1: bool, grows2: bool)
      returns (trapped: bool, reply: Reply)
      requires Valid() && r in handles
      modifies this, heap
      ensures !trapped ==> Valid() && handles.Keys == old(handles).Keys && forall q :: q in handles && q != r ==>
                handles[q] == old(handles)[q]
      ensures !trapped && old(handles)[r].state != 0 ==>
                handles == old(handles) && reply == if old(handles)[r].state >= 2 then Failed else NoMore
      ensures !trapped && old(handles)[r].state == 0 ==>
                match found
                case Unknown => reply == Failed &&
                  handles[r] == old(handles)[r].(state := 2, input := 0, notes := 0, memo := 0)
                case Exhausted => reply == NoMore &&
                  handles[r] == old(handles)[r].(state := 1, input := 0, notes := 0, memo := 0)
                case Matched(start, end) =>
                  && reply == Reported(start, end)
                  && handles[r] == old(handles)[r].(pos := if end > start then end else start + 1,
                                                    notes := handles[r].notes, memo := handles[r].memo)
                  && (!Due(old(handles)[r], Memo, armed, tripped) ==> handles[r].memo == old(handles)[r].memo)
                  && (!Due(old(handles)[r], Notes, armed, tripped) ==> handles[r].notes == old(handles)[r].notes)
                  && (old(Ample(handles[r], armed, tripped, 2 * (AREA_FIND + 8))) ==>
                        !Due(handles[r], Memo, armed, tripped) && !Due(handles[r], Notes, armed, tripped))
      ensures old(heap.heapTop) + 2 * (AREA_FIND + 8) <= old(heap.pages) * PAGE ==> !trapped
    {
      reply := NoMore;
      var ret;
      trapped, ret := Allocate(4, AREA_FIND, grows0, {});
      if trapped {
        return;
      }
      var state := handles[r].state;
      if state != 0 {
        reply := if state >= 2 then Failed else NoMore;
        return;
      }
      assert Slot(r, handles[r], Input) in holder && IsHeld(heap.book.place, handles[r].input);
      match found {
        case Unknown =>
          Finish(r, 2);
          reply := Failed;
        case Exhausted =>
          Finish(r, 1);
        case Matched(start, end) =>
          Continue(r, start, end, armed, tripped, grows1, grows2);
          reply := Reported(start, end);
      }
    }

    // The destructor: what a finished next has not released already, then the representation.
    method Drop(r: int)
      requires Valid() && r in handles
      modifies this, heap
      ensures Valid() && handles == old(handles) - {r} && heap.book.chain == old(heap.book).chain
    {
      StateOnly(handles, holder, heap.book.place, r, handles[r].(state := 1));
      handles := handles[r := handles[r].(state := 1)];
      Release(r, Notes);
      Release(r, Memo);
      Release(r, Input);
      DropHandle(handles, holder, heap.book.place, r);
      handles, holder := handles - {r}, holder - {r};
      FreeInHand(r, {r});
      assert {r} - {r} == {};
    }
  }

  lemma NothingHeld(holder: map<int, Owner>, place: map<int, Place>, p: int)
    requires Owned(map[], holder, place, {})
    ensures !IsHeld(place, p)
  {
  }

  // Once every handle is dropped and the last call has returned, every block ever carved is on its free list.
  lemma AllFree(c: Component)
    requires c.Valid() && c.handles == map[] && c.heap.book.chain == []
    ensures forall p :: p in c.heap.book.place ==> c.heap.book.place[p] == OnFreeList
    ensures forall k :: 0 <= k < CLASSES ==> Live(c.heap.book.history, k) == 0
  {
    var h := c.heap;
    GoodHas(h.word, h.heads, h.callList, h.book.top, h.book, |h.book.free|);
    forall p | p in h.book.place ensures h.book.place[p] == OnFreeList {
      NothingHeld(c.holder, h.book.place, p);
      assert p !in h.book.chain;
    }
    forall k | 0 <= k < CLASSES ensures Live(h.book.history, k) == 0 {
      assert ClassOk(h.word, h.heads, h.book, k);
      NoneLive(h.word, h.heads, h.book, k);
    }
  }

  // Fields other than the blocks may change, as long as a live scanner keeps its input.
  lemma StateOnly(handles: map<int, Rep>, holder: map<int, Owner>, place: map<int, Place>, r: int, rep: Rep)
    requires Owned(handles, holder, place, {}) && r in handles && (rep.state == 0 ==> rep.input != 0)
    requires rep.input == handles[r].input && rep.notes == handles[r].notes && rep.memo == handles[r].memo
    ensures Owned(handles[r := rep], holder, place, {})
  {
    var handles' := handles[r := rep];
    forall q, o | q in handles' ensures Slot(q, handles'[q], o) == Slot(q, handles[q], o) {
    }
  }

  function Without(rep: Rep, role: Role): Rep {
    With(rep, role, 0)
  }

  function With(rep: Rep, role: Role, p: int): Rep {
    match role
    case Body => rep
    case Input => rep.(input := p)
    case Notes => rep.(notes := p)
    case Memo => rep.(memo := p)
  }

  lemma Prefix(a: seq<int>, b: seq<int>, whole: seq<int>)
    requires whole == a + b
    ensures whole[..|a|] == a && whole[|a|..] == b
  {
  }

  function Held0(p: int): set<int> {
    if p == 0 then {} else {p}
  }

  lemma SecondOnChain(heap: Heap)
    requires heap.Valid() && heap.callList != 0
    ensures heap.book.chain != [] && heap.book.chain[0] == heap.callList
    ensures At(heap.word, heap.callList - 4) == if |heap.book.chain| == 1 then 0 else heap.book.chain[1]
  {
    ChainHead(heap.word, heap.heads, heap.callList, heap.book);
    GoodHas(heap.word, heap.heads, heap.callList, heap.book.top, heap.book, |heap.book.free|);
    assert IsList(heap.word, At(heap.word, heap.callList - 4), heap.book.chain[1..]);
  }

  lemma OnChain(heap: Heap, blocks: seq<int>, k: nat)
    requires heap.Valid() && k <= |heap.book.chain| && blocks == heap.book.chain[..k]
    ensures forall p :: p in blocks ==> p in heap.book.place && heap.book.place[p] == OnCall && p != 0
  {
    GoodHas(heap.word, heap.heads, heap.callList, heap.book.top, heap.book, |heap.book.free|);
    NullIsNone(heap.heads, heap.book.top, heap.book);
    forall p | p in blocks ensures p in heap.book.place && heap.book.place[p] == OnCall && p != 0 {
      assert p in heap.book.chain && p in heap.book.place.Keys;
    }
  }
}
