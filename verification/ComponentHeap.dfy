/**
 cabi_realloc, cm_free and cm_post over one linear memory, and the call chain they share.

 A Heap's book records which block is where and every event so far; Valid ties it to the words of memory.
 */
module ComponentHeap {
  import opened Allocator
  import opened Wasm32

  lemma EmptyList(word: Words, heads: int, head: int, top: int, b: Book, c: nat)
    requires Good(word, heads, head, top, b) && c < CLASSES
    ensures |b.free| == CLASSES && Laid(heads, top, b) && b.place.Keys == b.sizes.Keys
    ensures At(word, HeadAt(heads, c)) == 0 <==> b.free[c] == []
    ensures b.free[c] != [] ==> At(word, HeadAt(heads, c)) == b.free[c][0] && InFree(b, b.free[c][0], c)
  {
    GoodHas(word, heads, head, top, b, |b.free|);
    assert ClassOk(word, heads, b, c);
    NullIsNone(heads, top, b);
    if b.free[c] != [] {
      assert b.free[c][0] in b.free[c];
    }
  }

  lemma SizeOfClass(c: nat)
    requires c < CLASSES
    ensures Pow2(c) <= 0x8000_0000
  {
    Pow2Grows(c, 31);
    Pow2Large();
  }

  lemma NewBlock(heads: int, top: int, b: Book)
    requires Laid(heads, top, b) && b.place.Keys == b.sizes.Keys
    ensures top + 8 !in b.place && top + 8 !in b.sizes
  {
    NullIsNone(heads, top, b);
    assert top + 8 !in b.sizes.Keys;
  }

  // A block of the class newly held: off its list, or never seen before.
  ghost predicate Took(b: Book, b': Book, p: int, c: nat) {
    && (p in b.place ==> b.place[p] == OnFreeList) && b'.sizes == b.sizes[p := c] && (p in b.sizes ==> b.sizes[p] == c)
    && b'.place == b.place[p := Held] && b'.chain == b.chain && b'.history == b.history + [Taken(c)]
  }

  // A block newly on the call chain, big enough and at most twice too big.
  ghost predicate Gained(b: Book, b': Book, p: int, size: nat) {
    && (p in b.place ==> b.place[p] == OnFreeList) && b'.sizes == b.sizes[p := ClassOf(size)]
    && (p in b.sizes ==> b.sizes[p] == ClassOf(size))
    && size + 8 <= Pow2(b'.sizes[p]) <= 2 * (size + 8)
    && b'.place == b.place[p := OnCall] && b'.chain == [p] + b.chain && b'.history == b.history + [Taken(ClassOf(size))]
  }

  lemma CarveTook(b: Book, p: int, c: nat)
    requires p !in b.place && p !in b.sizes
    ensures Took(b, AfterCarve(b, p, c), p, c) && AfterCarve(b, p, c).top == p - 8 + Pow2(c)
  {
  }

  lemma CommitKeeps(word: Words, heads: int, head: int, b: Book, c: nat)
    requires Good(word, heads, head, b.top, b) && MIN_CLASS <= c < CLASSES && At(word, HeadAt(heads, c)) == 0
    ensures var b' := AfterCarve(b, b.top + 8, c);
            |b'.free| == CLASSES && Good(Put(word, b.top, c), heads, head, b'.top, b')
    ensures b.top + 8 !in b.place && b.top + 8 !in b.sizes
  {
    EmptyList(word, heads, head, b.top, b, c);
    NewBlock(heads, b.top, b);
    CarveKeeps(word, heads, head, b.top, b, c);
  }

  lemma LinkGained(b: Book, mid: Book, b': Book, p: int, size: nat)
    requires Took(b, mid, p, ClassOf(size)) && b'.chain == [p] + mid.chain && b'.place == mid.place[p := OnCall]
    requires b'.sizes == mid.sizes && b'.history == mid.history
    ensures Gained(b, b', p, size)
  {
    ClassFits(size);
    assert mid.place[p := OnCall] == b.place[p := OnCall];
  }

  // What a class with nothing free must carve, by its history.
  lemma CarveCosts(word: Words, heads: int, head: int, b: Book, c: nat)
    requires Good(word, heads, head, b.top, b) && c < CLASSES == |b.free| && b.free[c] == []
    ensures b.top + Pow2(c) == heads + HEADS_BYTES + Footprint(b.history + [Taken(c)], CLASSES)
  {
    GoodHas(word, heads, head, b.top, b, |b.free|);
    assert ClassOk(word, heads, b, c);
    TopIsFootprint(word, heads, head, b.top, b);
    TakenFootprint(b.history, c, CLASSES);
  }

  // Each of these blocks moved to one place, nothing else moved.
  ghost predicate Moved(b: Book, b': Book, blocks: seq<int>, to: Place) {
    && b'.sizes == b.sizes && b'.place.Keys == b.place.Keys
    && forall p :: p in b.place ==> b'.place[p] == if p in blocks then to else b.place[p]
  }

  // The frees of a chain, newest block first.
  function Gives(chain: seq<int>, sizes: map<int, nat>): seq<Event> {
    if chain == [] then []
    else (if chain[0] in sizes then [Given(sizes[chain[0]])] else []) + Gives(chain[1..], sizes)
  }

  lemma ChainHead(word: Words, heads: int, head: int, b: Book)
    requires Good(word, heads, head, b.top, b)
    ensures head == 0 <==> b.chain == []
    ensures b.chain != [] ==>
              && b.chain[0] == head && head in b.place && b.place[head] == OnCall && head in b.sizes
              && head !in b.chain[1..]
              && forall p :: p in b.chain[1..] ==> p in b.chain
  {
    GoodHas(word, heads, head, b.top, b, |b.free|);
    NullIsNone(heads, b.top, b);
    if b.chain != [] {
      assert b.chain[0] in b.chain && head in b.place.Keys;
      TailElements(b.chain);
    }
  }

  // How many pages memory has once it reaches end: as before, or just past it.
  function PagesUpTo(pages: nat, end: int): int {
    if end <= pages * PAGE then pages else end / PAGE + 1
  }

  class Heap {
    const heads: int          // the free-list head array; the heap starts past it
    const maxPages: nat
    var word: Words           // header words and class heads
    var heapTop: int
    var callList: int
    var pages: nat
    ghost var book: Book

    ghost predicate Within()
      reads this
    {
      pages <= maxPages < PAGE && heapTop <= pages * PAGE
    }

    ghost predicate ValidFrom(head: int)
      reads this
    {
      Within() && 0 <= heapTop == book.top && |book.free| == CLASSES && Good(word, heads, head, book.top, book)
    }

    ghost predicate Valid()
      reads this
    {
      ValidFrom(callList)
    }

    // A module's memory as instantiated: class heads zero, nothing carved.
    constructor (heads: int, pages: nat, maxPages: nat)
      requires heads > 0 && heads % 8 == 0 && pages <= maxPages < PAGE && heads + HEADS_BYTES <= pages * PAGE
      ensures Valid() && book.sizes == map[] && book.chain == [] && book.place == map[]
    {
      this.heads, this.maxPages, this.pages := heads, maxPages, pages;
      word, heapTop, callList := map[], heads + HEADS_BYTES, 0;
      book := Book(heads + HEADS_BYTES, [], map[], map[], [], seq(CLASSES, _ => []), []);
      new;
      GoodFrom(word, heads, 0, book.top, book, |book.free|);
    }

    // The bytes of memory a history needs.
    ghost function Needs(history: seq<Event>): int {
      heads + HEADS_BYTES + Footprint(history, CLASSES)
    }

    // Pop the class's free list.
    method Reuse(c: nat) returns (p: int)
      requires Valid() && c < CLASSES && At(word, HeadAt(heads, c)) != 0
      modifies this`word, this`book
      ensures Valid() && Took(old(book), book, p, c)
    {
      EmptyList(word, heads, callList, book.top, book, c);
      p := At(word, HeadAt(heads, c));
      ReuseKeeps(word, heads, callList, book.top, book, c);
      word := Put(word, HeadAt(heads, c), At(word, p - 4));
      book := AfterReuse(book, c);
    }

    predicate CanReach(end: int, grows: bool)
      reads this
    {
      end <= pages * PAGE || (grows && end / PAGE + 1 <= maxPages)
    }

    // The heap top can move up by a block of the class.
    predicate CanCarve(c: nat, grows: bool)
      requires c < CLASSES
      reads this
    {
      heapTop + Pow2(c) < WORD && CanReach(heapTop + Pow2(c), grows)
    }

    // Memory up to end, growing it when it does not reach; grows says whether memory.grow obliges.
    method Reach(end: int, grows: bool) returns (ok: bool)
      requires Within() && 0 <= end
      modifies this`pages
      ensures Within() && (ok <==> old(CanReach(end, grows)))
      ensures pages == if ok then PagesUpTo(old(pages), end) else old(pages)
    {
      ok := true;
      if end > pages * PAGE {
        var delta := (end - pages * PAGE) / PAGE + 1;
        if !(grows && pages + delta <= maxPages) {
          return false;
        }
        pages := pages + delta;
      }
    }

    // Carve a block off the heap top, past the last block.
    method Carve(c: nat, grows: bool) returns (trapped: bool, p: int)
      requires Valid() && MIN_CLASS <= c < CLASSES && At(word, HeadAt(heads, c)) == 0
      modifies this`word, this`book, this`heapTop, this`pages
      ensures !trapped ==>
                Valid() && Took(old(book), book, p, c) && heapTop == old(heapTop) + Pow2(c) &&
                pages == PagesUpTo(old(pages), heapTop)
      ensures trapped <==> !old(CanCarve(c, grows))
    {
      p := heapTop + 8;
      SizeOfClass(c);
      var end := Wrap(heapTop + Pow2(c));
      if end < heapTop {
        return true, p;
      }
      var ok := Reach(end, grows);
      if !ok {
        return true, p;
      }
      trapped := false;
      Commit(c);
    }

    method Commit(c: nat)
      requires Valid() && MIN_CLASS <= c < CLASSES && At(word, HeadAt(heads, c)) == 0
      requires heapTop + Pow2(c) <= pages * PAGE
      modifies this`word, this`book, this`heapTop
      ensures Valid() && Took(old(book), book, old(heapTop) + 8, c) && heapTop == old(heapTop) + Pow2(c)
    {
      CommitKeeps(word, heads, callList, book, c);
      CarveTook(book, book.top + 8, c);
      word := Put(word, heapTop, c);
      book := AfterCarve(book, book.top + 8, c);
      heapTop := heapTop + Pow2(c);
    }

    // A block of the class, from its list when there is one.
    method Obtain(c: nat, grows: bool) returns (trapped: bool, p: int)
      requires Valid() && MIN_CLASS <= c < CLASSES
      modifies this`word, this`book, this`heapTop, this`pages
      ensures !trapped ==> Valid() && Took(old(book), book, p, c) && pages == PagesUpTo(old(pages), heapTop)
      ensures !trapped ==> heapTop == old(heapTop) + if old(book).free[c] != [] then 0 else Pow2(c)
      ensures trapped <==> old(book).free[c] == [] && !old(CanCarve(c, grows))
      ensures Needs(old(book).history + [Taken(c)]) <= old(pages) * PAGE ==> !trapped && pages == old(pages)
    {
      trapped := false;
      EmptyList(word, heads, callList, book.top, book, c);
      if At(word, HeadAt(heads, c)) != 0 {
        p := Reuse(c);
      } else {
        CarveCosts(word, heads, callList, book, c);
        trapped, p := Carve(c, grows);
      }
    }

    // Join the call chain.
    method Link(p: int)
      requires Valid() && p in book.place && book.place[p] == Held
      modifies this`word, this`book, this`callList
      ensures Valid() && callList == p && book.chain == [p] + old(book).chain
      ensures book.place == old(book).place[p := OnCall]
      ensures book.sizes == old(book).sizes && book.history == old(book).history
    {
      LinkKeeps(word, heads, callList, book.top, book, p);
      word := Put(word, p - 4, callList);
      callList := p;
      book := AfterLink(book, p);
    }

    // cabi_realloc. A trap ends the run.
    method Realloc(align: nat, size: nat, grows: bool) returns (trapped: bool, p: int)
      requires Valid() && size < WORD
      modifies this
      ensures !trapped ==> Valid() && Gained(old(book), book, p, size) && p > 0 && p % 8 == 0 && callList == p
      ensures !trapped ==> old(heapTop) <= heapTop <= old(heapTop) + 2 * (size + 8)
      ensures !trapped ==> pages == PagesUpTo(old(pages), heapTop)
      ensures align > 8 || size > MAX_SIZE ==> trapped
      ensures align <= 8 && size <= MAX_SIZE && ClassOf(size) < |old(book).free| ==>
                (trapped <==> old(book).free[ClassOf(size)] == [] && !old(CanCarve(ClassOf(size), grows)))
      ensures !trapped && ClassOf(size) < |old(book).free| && old(book).free[ClassOf(size)] != [] ==>
                heapTop == old(heapTop) && pages == old(pages)
      ensures align <= 8 && size <= MAX_SIZE && old(heapTop) + 2 * (size + 8) <= old(pages) * PAGE ==>
                !trapped && pages == old(pages)
      ensures align <= 8 && size <= MAX_SIZE &&
              Needs(old(book).history + [Taken(ClassOf(size))]) <= old(pages) * PAGE ==>
                !trapped && pages == old(pages)
    {
      p := 0;
      if align > 8 || size > MAX_SIZE {
        return true, p;
      }
      ClassFits(size);
      var c := BitLength(Wrap(size + 7));
      if c < MIN_CLASS {
        c := MIN_CLASS;
      }
      if c > 31 {
        return true, p;
      }
      trapped, p := Serve(c, size, grows);
    }

    method Serve(c: nat, ghost size: nat, grows: bool) returns (trapped: bool, p: int)
      requires Valid() && MIN_CLASS <= c < CLASSES && c == ClassOf(size)
      modifies this
      ensures !trapped ==> Valid() && Gained(old(book), book, p, size) && p > 0 && p % 8 == 0 && callList == p
      ensures !trapped ==> pages == PagesUpTo(old(pages), heapTop)
      ensures !trapped ==> heapTop == old(heapTop) + if old(book).free[c] != [] then 0 else Pow2(c)
      ensures trapped <==> old(book).free[c] == [] && !old(CanCarve(c, grows))
      ensures Needs(old(book).history + [Taken(c)]) <= old(pages) * PAGE ==> !trapped && pages == old(pages)
    {
      trapped, p := Obtain(c, grows);
      if !trapped {
        GoodHas(word, heads, callList, book.top, book, |book.free|);
        OwnWords(heads, book.top, book, p);
        ghost var mid := book;
        Link(p);
        LinkGained(old(book), mid, book, p, size);
      }
    }

    // cm_free: back to its class's list. head is where the call chain is read from.
    method Free(p: int, ghost head: int)
      requires ValidFrom(head) && p in book.place && book.place[p] == Held
      modifies this`word, this`book
      ensures ValidFrom(head) && book.place == old(book).place[p := OnFreeList] && book.chain == old(book).chain
      ensures p in old(book).sizes && book.sizes == old(book).sizes
      ensures book.history == old(book).history + [Given(book.sizes[p])]
    {
      FreeKeeps(word, heads, head, book.top, book, p);
      var at := HeadAt(heads, At(word, p - 8));
      word := Put(word, p - 4, At(word, at));
      word := Put(word, at, p);
      book := AfterFree(book, p);
    }

    // Following the chain's first link leaves its block held.
    ghost method Unlink(head: int) returns (next: int)
      requires ValidFrom(head) && book.chain != []
      modifies this`book
      ensures next == At(word, head - 4) && ValidFrom(next) && head == old(book).chain[0]
      ensures Moved(old(book), book, [head], Held) && book.chain == old(book).chain[1..]
      ensures book.history == old(book).history
      ensures head in book.place && book.place[head] == Held
    {
      ChainHead(word, heads, head, book);
      UnlinkKeeps(word, heads, head, book.top, book);
      next := At(word, head - 4);
      book := AfterUnlink(book);
    }

    // cm_post: every block of the call goes back to its list.
    method Post()
      requires Valid()
      modifies this`word, this`book, this`callList
      ensures Valid() && book.chain == [] && callList == 0
      ensures Moved(old(book), book, old(book).chain, OnFreeList)
      ensures book.history == old(book).history + Gives(old(book).chain, old(book).sizes)
    {
      var p := callList;
      ghost var done: seq<int> := [];
      while true
        invariant ValidFrom(p) && old(book).chain == done + book.chain && Moved(old(book), book, done, OnFreeList)
        invariant book.history + Gives(book.chain, book.sizes)
                  == old(book).history + Gives(old(book).chain, old(book).sizes)
        decreases |book.chain|
      {
        ChainHead(word, heads, p, book);
        if p == 0 {
          break;
        }
        var next := At(word, p - 4);
        ghost var before := book;
        ghost var head := Unlink(p);
        Free(p, next);
        OneFreed(old(book), before, book, done, p);
        done := done + [p];
        p := next;
      }
      assert done == old(book).chain;
      callList := 0;
    }

    // Setting the chain back to an earlier point of it detaches the blocks that joined since.
    method Restore(to: int, ghost k: nat)
      requires Valid() && k <= |book.chain| && to == if k == |book.chain| then 0 else book.chain[k]
      modifies this`callList, this`book
      ensures Valid() && callList == to && book.chain == old(book).chain[k..] && book.history == old(book).history
      ensures Moved(old(book), book, old(book).chain[..k], Held)
    {
      ghost var head, i := callList, 0;
      while i < k
        invariant 0 <= i <= k && ValidFrom(head) && book.chain == old(book).chain[i..]
        invariant book.history == old(book).history
        invariant Moved(old(book), book, old(book).chain[..i], Held)
      {
        ghost var before := book;
        head := Unlink(head);
        assert old(book).chain[..i + 1] == old(book).chain[..i] + [old(book).chain[i]];
        TwoMoves(old(book), before, book, old(book).chain[..i], old(book).chain[i]);
        i := i + 1;
      }
      ChainHead(word, heads, head, book);
      callList := to;
    }

    // There is room for a request of this size, or for the pages it lacks.
    predicate CanReserve(size: nat, grows: bool)
      reads this
    {
      size <= MAX_SIZE &&
      (heapTop + 2 * (size + 8) <= pages * PAGE || (grows && heapTop + 2 * (size + 8) <= maxPages * PAGE))
    }

    // emitTryReserve: whether a request can be served without a trap, growing memory for it if need be.
    method TryReserve(size: nat, grows: bool) returns (ok: bool)
      requires Valid()
      modifies this`pages
      ensures Valid() && old(pages) <= pages && (ok ==> size <= MAX_SIZE && heapTop + 2 * (size + 8) <= pages * PAGE)
      ensures ok <==> old(CanReserve(size, grows))
      ensures pages == old(pages) || (ok && (pages - 1) * PAGE < heapTop + 2 * (size + 8))
    {
      if size > MAX_SIZE {
        return false;
      }
      var need := heapTop + 2 * (size + 8);
      ok := need <= pages * PAGE;
      if !ok {
        var delta := (need - pages * PAGE + 0xFFFF) / PAGE;
        ok := grows && pages + delta <= maxPages;
        if ok {
          pages := pages + delta;
        }
      }
    }
  }

  lemma TwoMoves(b: Book, mid: Book, after: Book, done: seq<int>, p: int)
    requires Moved(b, mid, done, Held) && Moved(mid, after, [p], Held)
    ensures Moved(b, after, done + [p], Held)
  {
  }

  lemma OneFreed(b: Book, before: Book, after: Book, done: seq<int>, p: int)
    requires Moved(b, before, done, OnFreeList) && before.chain != [] && p == before.chain[0] && p in before.place
    requires after.sizes == before.sizes && after.place.Keys == before.place.Keys && after.place[p] == OnFreeList
    requires forall q :: q in before.place && q != p ==> after.place[q] == before.place[q]
    ensures Moved(b, after, done + [p], OnFreeList)
  {
  }

  // ---- Counting ----

  ghost function OfClass(order: seq<int>, sizes: map<int, nat>, c: nat): set<int> {
    set p | p in order && p in sizes && sizes[p] == c
  }

  lemma {:induction false} CountIsSize(order: seq<int>, sizes: map<int, nat>, c: nat)
    requires NoRepeat(order)
    ensures CountOf(order, sizes, c) == |OfClass(order, sizes, c)|
    decreases |order|
  {
    if order != [] {
      var init, p := order[..|order| - 1], order[|order| - 1];
      assert order == init + [p];
      LastIsNew(init, p);
      CountIsSize(init, sizes, c);
      OneMoreOfClass(init, p, sizes, c);
    }
  }

  lemma LastIsNew(init: seq<int>, p: int)
    requires NoRepeat(init + [p])
    ensures NoRepeat(init) && p !in init
  {
    var all := init + [p];
    assert forall i :: 0 <= i < |init| ==> all[i] == init[i] && all[i] != all[|init|];
  }

  lemma OneMoreOfClass(init: seq<int>, p: int, sizes: map<int, nat>, c: nat)
    requires p !in init
    ensures |OfClass(init + [p], sizes, c)| == |OfClass(init, sizes, c)| + if p in sizes && sizes[p] == c then 1 else 0
  {
    assert OfClass(init + [p], sizes, c) == OfClass(init, sizes, c) + if p in sizes && sizes[p] == c then {p} else {};
  }

  lemma {:induction false} ListSize(s: seq<int>, all: set<int>)
    requires NoRepeat(s) && forall p :: p in s <==> p in all
    ensures |s| == |all|
    decreases |s|
  {
    if s == [] {
      forall p ensures p !in all {
        assert p !in s;
      }
      assert all == {};
    } else {
      var init, p := s[..|s| - 1], s[|s| - 1];
      assert s == init + [p];
      LastIsNew(init, p);
      ListSize(init, all - {p});
    }
  }

  lemma OrderNoRepeat(order: seq<int>, sizes: map<int, nat>, base: int, top: int)
    requires Tiles(order, sizes, base, top)
    ensures NoRepeat(order)
  {
    forall i, j | 0 <= i < j < |order| ensures order[i] != order[j] {
      TilesApart(order, sizes, base, top, i, j);
    }
  }

  // When every block of a class is free, none of it is live.
  lemma NoneLive(word: Words, heads: int, b: Book, c: nat)
    requires c < |b.free| && ClassOk(word, heads, b, c) && Laid(heads, b.top, b) && b.place.Keys == b.sizes.Keys
    requires forall p :: p in b.place ==> b.place[p] == OnFreeList
    ensures Live(b.history, c) == 0
  {
    OrderNoRepeat(b.order, b.sizes, heads + HEADS_BYTES, b.top);
    CountIsSize(b.order, b.sizes, c);
    forall p ensures p in b.free[c] <==> p in OfClass(b.order, b.sizes, c) {
      assert InFree(b, p, c) <==> p in b.place.Keys && b.sizes[p] == c;
    }
    ListSize(b.free[c], OfClass(b.order, b.sizes, c));
  }
}
