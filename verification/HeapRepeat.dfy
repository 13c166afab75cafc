/** A call repeated costs nothing: the second time its blocks all come from the lists the first one filled. */
module HeapRepeat {
  import opened Allocator
  import opened Wasm32
  import opened ComponentHeap

  // The blocks a call asks for, and gives back newest first.
  function Takes(sizes: seq<nat>): seq<Event> {
    if sizes == [] then [] else Takes(sizes[..|sizes| - 1]) + [Taken(ClassOf(sizes[|sizes| - 1]))]
  }

  function GivesBack(sizes: seq<nat>): seq<Event> {
    if sizes == [] then [] else [Given(ClassOf(sizes[|sizes| - 1]))] + GivesBack(sizes[..|sizes| - 1])
  }

  function CallEvents(sizes: seq<nat>): seq<Event> {
    Takes(sizes) + GivesBack(sizes)
  }

  lemma {:induction false} LiveFirst(e: Event, rest: seq<Event>, c: nat)
    ensures Live([e] + rest, c) == Live([e], c) + Live(rest, c)
  {
    LiveConcat([e], rest, c);
  }

  lemma {:induction false} Balanced(sizes: seq<nat>, c: nat)
    ensures Live(Takes(sizes), c) + Live(GivesBack(sizes), c) == 0 && Live(CallEvents(sizes), c) == 0
  {
    LiveConcat(Takes(sizes), GivesBack(sizes), c);
    if sizes != [] {
      var init, k := sizes[..|sizes| - 1], ClassOf(sizes[|sizes| - 1]);
      Balanced(init, c);
      EventLast(Takes(init), Taken(k), c);
      LiveFirst(Given(k), GivesBack(init), c);
    }
  }

  lemma {:induction false} GivesStay(chain: seq<int>, sizes: map<int, nat>, sizes': map<int, nat>)
    requires forall i :: 0 <= i < |chain| ==>
               chain[i] in sizes && chain[i] in sizes' && sizes'[chain[i]] == sizes[chain[i]]
    ensures Gives(chain, sizes') == Gives(chain, sizes)
  {
    if chain != [] {
      GivesStay(chain[1..], sizes, sizes');
    }
  }

  ghost predicate ChainKnown(b: Book) {
    forall i :: 0 <= i < |b.chain| ==> b.chain[i] in b.sizes
  }

  // One more block on the chain is one more to give back, before the others.
  lemma GainedGives(b: Book, b': Book, p: int, size: nat)
    requires Gained(b, b', p, size) && ChainKnown(b)
    ensures ChainKnown(b') && Gives(b'.chain, b'.sizes) == [Given(ClassOf(size))] + Gives(b.chain, b.sizes)
  {
    forall i | 0 <= i < |b.chain| ensures b'.sizes[b.chain[i]] == b.sizes[b.chain[i]] {
      assert b.chain[i] in b.sizes;
    }
    GivesStay(b.chain, b.sizes, b'.sizes);
    assert b'.chain[1..] == b.chain;
  }

  lemma {:induction false} TakesSplit(sizes: seq<nat>, i: nat)
    requires i <= |sizes|
    ensures exists rest :: Takes(sizes) == Takes(sizes[..i]) + rest
    decreases |sizes|
  {
    if i == |sizes| {
      assert sizes[..i] == sizes && Takes(sizes) == Takes(sizes[..i]) + [];
    } else {
      var init := sizes[..|sizes| - 1];
      TakesSplit(init, i);
      assert init[..i] == sizes[..i];
      var rest :| Takes(init) == Takes(sizes[..i]) + rest;
      assert Takes(sizes) == Takes(sizes[..i]) + (rest + [Taken(ClassOf(sizes[|sizes| - 1]))]);
    }
  }

  // All along a repeated call the history needs no more than after the first.
  lemma RepeatNeeds(setup: seq<Event>, sizes: seq<nat>, i: nat)
    requires i <= |sizes|
    ensures Footprint(setup + CallEvents(sizes) + Takes(sizes[..i]), CLASSES) <= Footprint(setup + CallEvents(sizes),
            CLASSES)
  {
    var run := CallEvents(sizes);
    TakesSplit(sizes, i);
    var rest :| Takes(sizes) == Takes(sizes[..i]) + rest;
    assert setup + run + run == (setup + run + Takes(sizes[..i])) + (rest + GivesBack(sizes));
    FootprintGrows(setup + run + Takes(sizes[..i]), rest + GivesBack(sizes), CLASSES);
    forall c | 0 <= c < CLASSES ensures Live(run, c) == 0 {
      Balanced(sizes, c);
    }
    FootprintRepeats(setup, run, CLASSES);
  }

  lemma RepeatTop(setup: seq<Event>, sizes: seq<nat>)
    ensures Footprint(setup + CallEvents(sizes) + CallEvents(sizes), CLASSES)
            == Footprint(setup + CallEvents(sizes), CLASSES)
  {
    forall c | 0 <= c < CLASSES ensures Live(CallEvents(sizes), c) == 0 {
      Balanced(sizes, c);
    }
    FootprintRepeats(setup, CallEvents(sizes), CLASSES);
  }

  ghost predicate Servable(sizes: seq<nat>) {
    forall i :: 0 <= i < |sizes| ==> sizes[i] <= MAX_SIZE
  }

  // What a call has asked for so far is what its chain will give back.
  ghost predicate Owes(b: Book, sizes: seq<nat>) {
    ChainKnown(b) && Gives(b.chain, b.sizes) == GivesBack(sizes)
  }

  // Memory holds all a call will need after this history.
  ghost predicate Fits(heads: int, history: seq<Event>, sizes: seq<nat>, bytes: int) {
    forall i :: 0 <= i <= |sizes| ==> NeedsAt(heads, history, sizes, i) <= bytes
  }

  ghost function NeedsAt(heads: int, history: seq<Event>, sizes: seq<nat>, i: nat): int
    requires i <= |sizes|
  {
    heads + HEADS_BYTES + Footprint(history + Takes(sizes[..i]), CLASSES)
  }

  lemma NextTake(history: seq<Event>, sizes: seq<nat>, i: nat)
    requires i < |sizes|
    ensures sizes[..i + 1] == sizes[..i] + [sizes[i]]
    ensures history + Takes(sizes[..i + 1]) == history + Takes(sizes[..i]) + [Taken(ClassOf(sizes[i]))]
  {
    assert sizes[..i + 1][..i] == sizes[..i];
  }

  // One allocation of a call. A trap ends the run.
  method Ask(heap: Heap, sizes: seq<nat>, i: nat, grows: bool, ghost start: seq<Event>) returns (trapped: bool)
    requires heap.Valid() && i < |sizes| && sizes[i] <= MAX_SIZE
    requires Owes(heap.book, sizes[..i]) && heap.book.history == start + Takes(sizes[..i])
    modifies heap
    ensures !trapped ==>
              heap.Valid() && Owes(heap.book, sizes[..i + 1]) && heap.book.history == start + Takes(sizes[..i + 1])
    ensures NeedsAt(heap.heads, start, sizes, i + 1) <= old(heap.pages) * PAGE ==>
              !trapped && heap.pages == old(heap.pages)
  {
    NextTake(start, sizes, i);
    ghost var before := heap.book;
    var p;
    trapped, p := heap.Realloc(8, sizes[i], grows);
    if !trapped {
      GainedGives(before, heap.book, p, sizes[i]);
      assert sizes[..i + 1][..i] == sizes[..i];
    }
  }

  // cm_post at the end of a call.
  method Finish(heap: Heap, ghost sizes: seq<nat>, ghost start: seq<Event>)
    requires heap.Valid() && Owes(heap.book, sizes) && heap.book.history == start + Takes(sizes)
    modifies heap`word, heap`book, heap`callList
    ensures heap.Valid() && heap.book.chain == [] && heap.book.history == start + CallEvents(sizes)
  {
    heap.Post();
  }

  // One call: its allocations, then cm_post.
  method OneCall(heap: Heap, sizes: seq<nat>, grows: bool) returns (trapped: bool)
    requires heap.Valid() && heap.book.chain == [] && Servable(sizes)
    modifies heap
    ensures !trapped ==>
              heap.Valid() && heap.book.chain == [] &&
              heap.book.history == old(heap.book).history + CallEvents(sizes)
    ensures Fits(heap.heads, old(heap.book).history, sizes, old(heap.pages) * PAGE) ==>
              !trapped && heap.pages == old(heap.pages)
  {
    ghost var start, fits := heap.book.history, Fits(heap.heads, heap.book.history, sizes, heap.pages * PAGE);
    for i := 0 to |sizes|
      invariant heap.Valid() && Owes(heap.book, sizes[..i]) && heap.book.history == start + Takes(sizes[..i])
      invariant fits ==> heap.pages == old(heap.pages)
    {
      trapped := Ask(heap, sizes, i, grows, start);
      if trapped {
        return;
      }
    }
    assert sizes[..|sizes|] == sizes;
    Finish(heap, sizes, start);
    trapped := false;
  }

  // The same call again, on a heap whose history ends with it: it cannot trap, whatever memory.grow says, and neither
  // the heap top nor memory moves.
  method SameCall(heap: Heap, sizes: seq<nat>, grows: bool, ghost setup: seq<Event>) returns (trapped: bool)
    requires heap.Valid() && heap.book.chain == [] && Servable(sizes) && heap.book.history == setup + CallEvents(sizes)
    modifies heap
    ensures !trapped && heap.Valid() && heap.book.chain == [] && heap.heapTop == old(heap.heapTop)
    ensures heap.pages == old(heap.pages)
    ensures heap.book.history == setup + CallEvents(sizes) + CallEvents(sizes)
  {
    TopIsFootprint(heap.word, heap.heads, heap.callList, heap.book.top, heap.book);
    forall i | 0 <= i <= |sizes| ensures NeedsAt(heap.heads, heap.book.history, sizes, i) <= heap.pages * PAGE {
      RepeatNeeds(setup, sizes, i);
    }
    trapped := OneCall(heap, sizes, grows);
    RepeatTop(setup, sizes);
    TopIsFootprint(heap.word, heap.heads, heap.callList, heap.book.top, heap.book);
  }
}
