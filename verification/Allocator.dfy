/** The component heap's size classes: what a run of allocations and frees keeps, block by block, and how far it pushes
    the heap top. */
module Allocator {
  import opened Wasm32

  const MAX_SIZE := 0x7FFF_FFF0
  const MIN_CLASS := 4
  const CLASSES := 32
  const HEADS_BYTES := 128

  // 32 - clz: how many bits a number needs.
  function BitLength(x: nat): nat {
    if x == 0 then 0 else 1 + BitLength(x / 2)
  }

  lemma {:induction false} BitLengthBounds(x: nat)
    requires x > 0
    ensures BitLength(x) > 0 && Pow2(BitLength(x) - 1) <= x < Pow2(BitLength(x))
  {
    if x > 1 {
      BitLengthBounds(x / 2);
    }
  }

  lemma {:induction false} Pow2Grows(a: nat, b: nat)
    requires a <= b
    ensures Pow2(a) <= Pow2(b)
    decreases b
  {
    if a < b {
      Pow2Grows(a, b - 1);
    }
  }

  lemma SmallPowers()
    ensures Pow2(3) == 8 && Pow2(4) == 16 && Pow2(8) == 256
  {
    assert Pow2(3) == 2 * Pow2(2) && Pow2(2) == 2 * Pow2(1) && Pow2(1) == 2 * Pow2(0);
    assert Pow2(8) == 2 * Pow2(7) && Pow2(7) == 2 * Pow2(6) && Pow2(6) == 2 * Pow2(5) && Pow2(5) == 2 * Pow2(4);
  }

  lemma Twice(x: nat)
    requires x % 16 == 0
    ensures (2 * x) % 16 == 0
  {
  }

  lemma {:induction false} Pow2Sixteen(n: nat)
    requires n >= MIN_CLASS
    ensures Pow2(n) % 16 == 0 && Pow2(n) >= 16
  {
    if n > MIN_CLASS {
      Pow2Sixteen(n - 1);
      Twice(Pow2(n - 1));
    } else {
      SmallPowers();
    }
  }

  function ClassOf(size: nat): (c: nat)
    ensures c >= MIN_CLASS
  {
    if BitLength(size + 7) < MIN_CLASS then MIN_CLASS else BitLength(size + 7)
  }

  // A block holds its request and its header, and is at most twice that.
  lemma ClassFits(size: nat)
    ensures size + 8 <= Pow2(ClassOf(size)) <= 2 * (size + 8)
    ensures size <= MAX_SIZE ==> ClassOf(size) < CLASSES
  {
    BitLengthBounds(size + 7);
    SmallPowers();
    if BitLength(size + 7) < MIN_CLASS {
      Pow2Grows(BitLength(size + 7), 4);
    }
    if ClassOf(size) >= CLASSES {
      Pow2Grows(31, ClassOf(size) - 1);
      Pow2Large();
    }
  }

  lemma Pow2Large()
    ensures Pow2(31) == 0x8000_0000
  {
    SmallPowers();
    Pow2Sum(8, 8);
    Pow2Sum(16, 8);
    Pow2Sum(24, 4);
    Pow2Sum(28, 3);
  }

  lemma {:induction false} Pow2Sum(a: nat, b: nat)
    ensures Pow2(a + b) == Pow2(a) * Pow2(b)
  {
    if b > 0 {
      Pow2Sum(a, b - 1);
      assert Pow2(a + b) == 2 * Pow2(a + (b - 1));
      assert Pow2(a) * Pow2(b) == 2 * (Pow2(a) * Pow2(b - 1));
    }
  }

  // ---- Lists threaded through the word below each block ----

  // Memory words by address, zero where nothing has been written.
  type Words = map<int, int>

  function At(word: Words, a: int): int {
    if a in word then word[a] else 0
  }

  function Put(word: Words, at: int, value: int): Words {
    word[at := value]
  }

  ghost predicate IsList(word: Words, head: int, s: seq<int>)
    decreases |s|
  {
    if s == [] then head == 0 else head == s[0] && IsList(word, At(word, s[0] - 4), s[1..])
  }

  lemma {:induction false} ListFrame(word: Words, word': Words, head: int, s: seq<int>)
    requires IsList(word, head, s) && forall p :: p in s ==> At(word', p - 4) == At(word, p - 4)
    ensures IsList(word', head, s)
    decreases |s|
  {
    if s != [] {
      assert s[0] in s && forall p :: p in s[1..] ==> p in s;
      ListFrame(word, word', At(word, s[0] - 4), s[1..]);
    }
  }

  lemma ListCons(word: Words, p: int, s: seq<int>)
    requires IsList(word, At(word, p - 4), s)
    ensures IsList(word, p, [p] + s)
  {
    assert ([p] + s)[1..] == s;
  }

  // ---- Blocks in address order ----

  // Payload pointers of blocks laid end to end from base to top.
  ghost predicate Tiles(order: seq<int>, sizes: map<int, nat>, base: int, top: int) {
    if order == [] then base == top
    else
      var p := order[|order| - 1];
      p in sizes && p >= base + 8 && top == p - 8 + Pow2(sizes[p]) && Tiles(order[..|order| - 1], sizes, base, p - 8)
  }

  // No two blocks overlap.
  lemma {:induction false} TilesApart(order: seq<int>, sizes: map<int, nat>, base: int, top: int, i: nat, j: nat)
    requires Tiles(order, sizes, base, top) && i < j < |order|
    ensures order[i] in sizes && order[i] + Pow2(sizes[order[i]]) <= order[j]
    decreases |order|
  {
    var init, p := order[..|order| - 1], order[|order| - 1];
    if j == |order| - 1 {
      TilesWithin(init, sizes, base, p - 8, i);
    } else {
      TilesApart(init, sizes, base, p - 8, i, j);
    }
  }

  lemma {:induction false} TilesWithin(order: seq<int>, sizes: map<int, nat>, base: int, top: int, i: nat)
    requires Tiles(order, sizes, base, top) && i < |order|
    ensures order[i] in sizes && base + 8 <= order[i] && order[i] + Pow2(sizes[order[i]]) <= top + 8
    decreases |order|
  {
    if i < |order| - 1 {
      TilesWithin(order[..|order| - 1], sizes, base, order[|order| - 1] - 8, i);
    }
  }

  lemma {:induction false} TilesStay(order: seq<int>, sizes: map<int, nat>, sizes': map<int, nat>, base: int, top: int)
    requires Tiles(order, sizes, base, top) && forall p :: p in sizes ==> p in sizes' && sizes'[p] == sizes[p]
    ensures Tiles(order, sizes', base, top)
  {
    if order != [] {
      TilesStay(order[..|order| - 1], sizes, sizes', base, order[|order| - 1] - 8);
    }
  }

  // ---- What a run of allocations and frees needs ----

  datatype Event = Taken(sizeClass: nat) | Given(sizeClass: nat)

  function Live(history: seq<Event>, c: nat): int {
    if history == [] then 0
    else
      var e := history[|history| - 1];
      Live(history[..|history| - 1], c) + (if e.sizeClass != c then 0 else if e.Taken? then 1 else -1)
  }

  function Max(a: int, b: int): int {
    if a < b then b else a
  }

  // The most blocks of a class ever live at once.
  function Peak(history: seq<Event>, c: nat): (p: int)
    ensures p >= 0 && p >= Live(history, c)
  {
    if history == [] then 0 else Max(Peak(history[..|history| - 1], c), Live(history, c))
  }

  lemma {:induction false} LiveConcat(a: seq<Event>, b: seq<Event>, c: nat)
    ensures Live(a + b, c) == Live(a, c) + Live(b, c)
  {
    if b == [] {
      assert a + b == a;
    } else {
      assert (a + b)[..|a + b| - 1] == a + b[..|b| - 1];
      LiveConcat(a, b[..|b| - 1], c);
    }
  }

  // A run that gives back all it takes needs no more memory the second time.
  lemma {:induction false} RepeatIsFlat(setup: seq<Event>, run: seq<Event>, c: nat)
    requires Live(run, c) == 0
    ensures Peak(setup + run + run, c) == Peak(setup + run, c)
  {
    PeakConcat(setup, run, c);
    PeakConcat(setup + run, run, c);
    LiveConcat(setup, run, c);
    PeakPrefix(setup, run, c);
  }

  // The peak of a run from a state with n live.
  function PeakFrom(n: int, run: seq<Event>, c: nat): int {
    if run == [] then n else Max(PeakFrom(n, run[..|run| - 1], c), n + Live(run, c))
  }

  lemma {:induction false} PeakConcat(a: seq<Event>, b: seq<Event>, c: nat)
    ensures Peak(a + b, c) == Max(Peak(a, c), PeakFrom(Live(a, c), b, c))
  {
    if b == [] {
      assert a + b == a;
    } else {
      assert (a + b)[..|a + b| - 1] == a + b[..|b| - 1];
      PeakConcat(a, b[..|b| - 1], c);
      LiveConcat(a, b, c);
    }
  }

  lemma PeakPrefix(a: seq<Event>, b: seq<Event>, c: nat)
    ensures Peak(a + b, c) >= PeakFrom(Live(a, c), b, c)
  {
    PeakConcat(a, b, c);
  }

  // ---- The books: every block ever carved, and where it is ----

  datatype Place = OnFreeList | OnCall | Held

  datatype Book = Book(
    top: int,                 // the heap top
    order: seq<int>,          // payload pointers in address order
    sizes: map<int, nat>,     // the class of each
    place: map<int, Place>,
    chain: seq<int>,          // the current call's blocks, newest first
    free: seq<seq<int>>,      // each class's free list
    history: seq<Event>)

  function HeadAt(heads: int, c: nat): int {
    heads + 4 * c
  }

  // The class heads are words of their own, side by side in the bytes kept for them.
  lemma HeadsApart(heads: int, c: nat, d: nat)
    requires c < d < CLASSES
    ensures heads <= HeadAt(heads, c) && HeadAt(heads, c) + 4 <= HeadAt(heads, d)
    ensures HeadAt(heads, d) + 4 <= heads + HEADS_BYTES
  {
  }

  ghost predicate Sized(heads: int, top: int, p: int, c: nat) {
    && MIN_CLASS <= c < CLASSES && p % 8 == 0 && heads + HEADS_BYTES + 8 <= p
    && Pow2(c) >= 16 && p + Pow2(c) <= top + 8
  }

  // Blocks tile the carved heap; payloads are 8-aligned, above the class heads and a header apart.
  ghost predicate Laid(heads: int, top: int, b: Book) {
    && heads > 0 && heads % 8 == 0 && top % 8 == 0 && heads + HEADS_BYTES <= top
    && Tiles(b.order, b.sizes, heads + HEADS_BYTES, top)
    && (forall p :: p in b.order <==> p in b.sizes)
    && (forall p :: p in b.sizes ==> Sized(heads, top, p, b.sizes[p]))
  }

  ghost predicate Tagged(word: Words, b: Book) {
    forall p :: p in b.sizes ==> At(word, p - 8) == b.sizes[p]
  }

  ghost predicate NoRepeat(s: seq<int>) {
    forall i, j :: 0 <= i < j < |s| ==> s[i] != s[j]
  }

  ghost predicate InFree(b: Book, p: int, c: nat) {
    p in b.place && b.place[p] == OnFreeList && p in b.sizes && b.sizes[p] == c
  }

  // The blocks on the call chain, linked newest first.
  ghost predicate ChainOk(word: Words, head: int, b: Book) {
    && b.place.Keys == b.sizes.Keys && IsList(word, head, b.chain) && NoRepeat(b.chain)
    && forall p :: p in b.chain <==> p in b.place && b.place[p] == OnCall
  }

  function CountOf(order: seq<int>, sizes: map<int, nat>, c: nat): nat {
    if order == [] then 0
    else
      var p := order[|order| - 1];
      CountOf(order[..|order| - 1], sizes, c) + if p in sizes && sizes[p] == c then 1 else 0
  }

  // One class: its free list is linked from its head and holds exactly the class's free blocks; the blocks ever
  // carved are as many as were ever live at once, and those not live are on the list.
  ghost predicate ClassOk(word: Words, heads: int, b: Book, c: nat)
    requires c < |b.free|
  {
    && IsList(word, At(word, HeadAt(heads, c)), b.free[c]) && NoRepeat(b.free[c])
    && (forall p :: p in b.free[c] <==> InFree(b, p, c))
    && CountOf(b.order, b.sizes, c) == Peak(b.history, c)
    && |b.free[c]| + Live(b.history, c) == Peak(b.history, c)
  }

  // Memory against the books, up to n of the classes: every block tiles the heap, carries its class, and is in
  // exactly one place.
  ghost predicate GoodBelow(word: Words, heads: int, head: int, top: int, b: Book, n: nat)
    requires n <= |b.free|
  {
    if n == 0 then |b.free| == CLASSES && Laid(heads, top, b) && Tagged(word, b) && ChainOk(word, head, b)
    else GoodBelow(word, heads, head, top, b, n - 1) && ClassOk(word, heads, b, n - 1)
  }

  ghost predicate Good(word: Words, heads: int, head: int, top: int, b: Book) {
    GoodBelow(word, heads, head, top, b, |b.free|)
  }

  lemma {:induction false} GoodHas(word: Words, heads: int, head: int, top: int, b: Book, n: nat)
    requires n <= |b.free| && GoodBelow(word, heads, head, top, b, n)
    ensures |b.free| == CLASSES && Laid(heads, top, b) && Tagged(word, b) && ChainOk(word, head, b)
    ensures forall c :: 0 <= c < n ==> ClassOk(word, heads, b, c)
  {
    if n > 0 {
      GoodHas(word, heads, head, top, b, n - 1);
    }
  }

  lemma {:induction false} GoodFrom(word: Words, heads: int, head: int, top: int, b: Book, n: nat)
    requires n <= |b.free| == CLASSES && Laid(heads, top, b) && Tagged(word, b) && ChainOk(word, head, b)
    requires forall c :: 0 <= c < |b.free| ==> ClassOk(word, heads, b, c)
    ensures GoodBelow(word, heads, head, top, b, n)
  {
    if n > 0 {
      GoodFrom(word, heads, head, top, b, n - 1);
      assert ClassOk(word, heads, b, n - 1);
    }
  }

  // ---- Which words are whose ----

  // Blocks are at least a header apart.
  lemma Spaced(heads: int, top: int, b: Book, p: int, q: int)
    requires Laid(heads, top, b) && p in b.sizes && q in b.sizes && p != q
    ensures p + 16 <= q || q + 16 <= p
  {
    assert p in b.order && q in b.order;
    var i :| 0 <= i < |b.order| && b.order[i] == p;
    var j :| 0 <= j < |b.order| && b.order[j] == q;
    assert Sized(heads, top, p, b.sizes[p]) && Sized(heads, top, q, b.sizes[q]);
    if i < j {
      TilesApart(b.order, b.sizes, heads + HEADS_BYTES, top, i, j);
    } else {
      TilesApart(b.order, b.sizes, heads + HEADS_BYTES, top, j, i);
    }
  }

  // Headers, links and class heads are all different words.
  lemma OwnWords(heads: int, top: int, b: Book, p: int)
    requires Laid(heads, top, b) && p in b.sizes
    ensures p - 8 >= heads + HEADS_BYTES > 0 && b.sizes[p] < CLASSES && p % 8 == 0
    ensures forall q :: q in b.sizes && q != p ==> q - 4 != p - 4 && q - 8 != p - 8
    ensures forall q :: q in b.sizes ==> q - 4 != p - 8 && q - 8 != p - 4
  {
    assert Sized(heads, top, p, b.sizes[p]);
    forall q | q in b.sizes && q != p ensures p + 16 <= q || q + 16 <= p {
      Spaced(heads, top, b, p, q);
    }
  }

  lemma NullIsNone(heads: int, top: int, b: Book)
    requires Laid(heads, top, b)
    ensures 0 !in b.sizes && top + 8 !in b.sizes && top + 8 !in b.order
    ensures forall p :: p in b.sizes ==> p - 8 >= heads + HEADS_BYTES
  {
    forall p | p in b.sizes ensures heads + HEADS_BYTES + 8 <= p && p + 16 <= top + 8 {
      assert Sized(heads, top, p, b.sizes[p]);
    }
  }

  // Nothing a class is judged by has changed.
  lemma ClassFrame(word: Words, word': Words, heads: int, b: Book, b': Book, c: nat)
    requires c < |b.free| == |b'.free| && ClassOk(word, heads, b, c) && b'.free[c] == b.free[c]
    requires At(word', HeadAt(heads, c)) == At(word, HeadAt(heads, c))
    requires forall q :: q in b.free[c] ==> At(word', q - 4) == At(word, q - 4)
    requires forall q :: InFree(b', q, c) <==> InFree(b, q, c)
    requires CountOf(b'.order, b'.sizes, c) == CountOf(b.order, b.sizes, c)
    requires Live(b'.history, c) == Live(b.history, c) && Peak(b'.history, c) == Peak(b.history, c)
    ensures ClassOk(word', heads, b', c)
  {
    ListFrame(word, word', At(word, HeadAt(heads, c)), b.free[c]);
  }

  lemma TailElements(s: seq<int>)
    requires s != [] && NoRepeat(s)
    ensures NoRepeat(s[1..]) && forall q :: q in s[1..] <==> q in s && q != s[0]
  {
    assert s == [s[0]] + s[1..];
  }

  lemma EventLast(history: seq<Event>, e: Event, c: nat)
    ensures Live(history + [e], c) == Live(history, c) + if e.sizeClass != c then 0 else if e.Taken? then 1 else -1
    ensures Peak(history + [e], c) == Max(Peak(history, c), Live(history + [e], c))
  {
    assert (history + [e])[..|history|] == history;
  }

  // ---- Reusing a free block ----

  function AfterReuse(b: Book, c: nat): Book
    requires c < |b.free| && b.free[c] != []
  {
    b.(place := b.place[b.free[c][0] := Held], free := b.free[c := b.free[c][1..]], history := b.history + [Taken(c)])
  }

  lemma ReuseOwn(word: Words, heads: int, top: int, b: Book, c: nat)
    requires Laid(heads, top, b) && c < CLASSES == |b.free| && ClassOk(word, heads, b, c) && b.free[c] != []
    ensures ClassOk(Put(word, HeadAt(heads, c), At(word, b.free[c][0] - 4)), heads, AfterReuse(b, c), c)
  {
    var p := b.free[c][0];
    var word' := Put(word, HeadAt(heads, c), At(word, p - 4));
    NullIsNone(heads, top, b);
    TailElements(b.free[c]);
    assert InFree(b, p, c);
    forall q | q in b.free[c][1..] ensures At(word', q - 4) == At(word, q - 4) {
      assert InFree(b, q, c);
    }
    ListFrame(word, word', At(word, p - 4), b.free[c][1..]);
    EventLast(b.history, Taken(c), c);
  }

  lemma ReuseOther(word: Words, heads: int, top: int, b: Book, c: nat, d: nat)
    requires Laid(heads, top, b) && c < CLASSES == |b.free| && d < CLASSES && d != c && b.free[c] != []
    requires ClassOk(word, heads, b, c) && ClassOk(word, heads, b, d)
    ensures ClassOk(Put(word, HeadAt(heads, c), At(word, b.free[c][0] - 4)), heads, AfterReuse(b, c), d)
  {
    var p := b.free[c][0];
    var word' := Put(word, HeadAt(heads, c), At(word, p - 4));
    assert InFree(b, p, c);
    NullIsNone(heads, top, b);
    EventLast(b.history, Taken(c), d);
    forall q | q in b.free[d] ensures At(word', q - 4) == At(word, q - 4) {
      assert InFree(b, q, d);
    }
    ClassFrame(word, word', heads, b, AfterReuse(b, c), d);
  }

  lemma ReuseChain(word: Words, heads: int, head: int, top: int, b: Book, c: nat)
    requires Laid(heads, top, b) && ChainOk(word, head, b) && c < CLASSES == |b.free| && b.free[c] != []
    requires InFree(b, b.free[c][0], c)
    ensures ChainOk(Put(word, HeadAt(heads, c), At(word, b.free[c][0] - 4)), head, AfterReuse(b, c))
  {
    var word' := Put(word, HeadAt(heads, c), At(word, b.free[c][0] - 4));
    NullIsNone(heads, top, b);
    forall q | q in b.chain ensures At(word', q - 4) == At(word, q - 4) {
      assert q in b.place.Keys;
    }
    ListFrame(word, word', head, b.chain);
  }

  lemma ReuseKeeps(word: Words, heads: int, head: int, top: int, b: Book, c: nat)
    requires Good(word, heads, head, top, b) && c < |b.free| == CLASSES && b.free[c] != []
    ensures Good(Put(word, HeadAt(heads, c), At(word, b.free[c][0] - 4)), heads, head, top, AfterReuse(b, c))
    ensures InFree(b, b.free[c][0], c)
  {
    var b', word' := AfterReuse(b, c), Put(word, HeadAt(heads, c), At(word, b.free[c][0] - 4));
    GoodHas(word, heads, head, top, b, |b.free|);
    assert ClassOk(word, heads, b, c) && b.free[c][0] in b.free[c];
    forall d | 0 <= d < CLASSES ensures ClassOk(word', heads, b', d) {
      assert ClassOk(word, heads, b, d);
      if d == c {
        ReuseOwn(word, heads, top, b, c);
      } else {
        ReuseOther(word, heads, top, b, c, d);
      }
    }
    ReuseChain(word, heads, head, top, b, c);
    NullIsNone(heads, top, b);
    GoodFrom(word', heads, head, top, b', |b'.free|);
  }

  // ---- Carving a fresh block ----

  function AfterCarve(b: Book, p: int, c: nat): Book {
    b.(top := p - 8 + Pow2(c), order := b.order + [p], sizes := b.sizes[p := c], place := b.place[p := Held],
    history := b.history + [Taken(c)])
  }

  lemma {:induction false} CountStays(order: seq<int>, sizes: map<int, nat>, p: int, k: nat, c: nat)
    requires p !in order
    ensures CountOf(order, sizes[p := k], c) == CountOf(order, sizes, c)
    decreases |order|
  {
    if order != [] {
      CountStays(order[..|order| - 1], sizes, p, k, c);
    }
  }

  lemma CountOneMore(order: seq<int>, sizes: map<int, nat>, p: int, k: nat, c: nat)
    requires p !in order
    ensures CountOf(order + [p], sizes[p := k], c) == CountOf(order, sizes, c) + if k == c then 1 else 0
  {
    CountStays(order, sizes, p, k, c);
    assert (order + [p])[..|order|] == order;
  }

  lemma CarveSized(heads: int, top: int, b: Book, c: nat)
    requires Laid(heads, top, b) && MIN_CLASS <= c < CLASSES && Pow2(c) >= 16
    ensures forall q :: q in b.sizes ==> Sized(heads, top + Pow2(c), q, b.sizes[q])
    ensures Sized(heads, top + Pow2(c), top + 8, c)
  {
    forall q | q in b.sizes ensures Sized(heads, top + Pow2(c), q, b.sizes[q]) {
      assert Sized(heads, top, q, b.sizes[q]);
    }
  }

  lemma CarveListed(order: seq<int>, sizes: map<int, nat>, p: int, c: nat)
    requires forall q :: q in order <==> q in sizes
    ensures forall q :: q in order + [p] <==> q in sizes[p := c]
  {
  }

  lemma CarveTiles(base: int, top: int, b: Book, c: nat)
    requires Tiles(b.order, b.sizes, base, top) && top + 8 !in b.sizes && base <= top
    ensures Tiles(b.order + [top + 8], b.sizes[top + 8 := c], base, top + Pow2(c))
  {
    assert (b.order + [top + 8])[..|b.order|] == b.order;
    TilesStay(b.order, b.sizes, b.sizes[top + 8 := c], base, top);
  }

  lemma TopAligned(top: int, size: int)
    requires top % 8 == 0 && size % 16 == 0
    ensures (top + size) % 8 == 0
  {
    assert top + size == 8 * (top / 8 + 2 * (size / 16));
  }

  lemma CarveLaid(heads: int, top: int, b: Book, c: nat)
    requires Laid(heads, top, b) && MIN_CLASS <= c < CLASSES
    ensures var b' := AfterCarve(b, top + 8, c); Laid(heads, b'.top, b')
  {
    Pow2Sixteen(c);
    NullIsNone(heads, top, b);
    CarveSized(heads, top, b, c);
    CarveTiles(heads + HEADS_BYTES, top, b, c);
    CarveListed(b.order, b.sizes, top + 8, c);
    TopAligned(top, Pow2(c));
  }

  // A fresh block is on no list.
  lemma CarveFree(b: Book, p: int, c: nat, d: nat)
    requires p !in b.sizes && b.place.Keys == b.sizes.Keys
    ensures forall q :: InFree(AfterCarve(b, p, c), q, d) <==> InFree(b, q, d)
  {
  }

  lemma CarveOwn(word: Words, heads: int, top: int, b: Book, c: nat)
    requires Laid(heads, top, b) && c < CLASSES == |b.free| && b.place.Keys == b.sizes.Keys
    requires b.free[c] == [] && ClassOk(word, heads, b, c)
    ensures ClassOk(Put(word, top, c), heads, AfterCarve(b, top + 8, c), c)
  {
    NullIsNone(heads, top, b);
    CountOneMore(b.order, b.sizes, top + 8, c, c);
    EventLast(b.history, Taken(c), c);
    CarveFree(b, top + 8, c, c);
    assert At(Put(word, top, c), HeadAt(heads, c)) == At(word, HeadAt(heads, c));
  }

  lemma CarveOther(word: Words, heads: int, top: int, b: Book, c: nat, d: nat)
    requires Laid(heads, top, b) && c < CLASSES == |b.free| && d < CLASSES && d != c && b.place.Keys == b.sizes.Keys
    requires ClassOk(word, heads, b, d)
    ensures ClassOk(Put(word, top, c), heads, AfterCarve(b, top + 8, c), d)
  {
    FreshTop(heads, top, b);
    HeadIsBelow(heads, top, b, d);
    CarveLinks(word, heads, top, b, c, d);
    CarveFrame(word, Put(word, top, c), heads, b, top + 8, c, d);
  }

  lemma HeadIsBelow(heads: int, top: int, b: Book, d: nat)
    requires Laid(heads, top, b) && d < CLASSES
    ensures HeadAt(heads, d) < top
  {
  }

  lemma CarveFrame(word: Words, word': Words, heads: int, b: Book, p: int, c: nat, d: nat)
    requires d < |b.free| && d != c && ClassOk(word, heads, b, d) && p !in b.sizes && p !in b.order
    requires b.place.Keys == b.sizes.Keys
    requires At(word', HeadAt(heads, d)) == At(word, HeadAt(heads, d))
    requires forall q :: q in b.free[d] ==> At(word', q - 4) == At(word, q - 4)
    ensures ClassOk(word', heads, AfterCarve(b, p, c), d)
  {
    CountOneMore(b.order, b.sizes, p, c, d);
    EventLast(b.history, Taken(c), d);
    CarveFree(b, p, c, d);
    ClassFrame(word, word', heads, b, AfterCarve(b, p, c), d);
  }

  lemma FreshTop(heads: int, top: int, b: Book)
    requires Laid(heads, top, b)
    ensures top + 8 !in b.sizes && top + 8 !in b.order
  {
    NullIsNone(heads, top, b);
  }

  lemma CarveLinks(word: Words, heads: int, top: int, b: Book, c: nat, d: nat)
    requires Laid(heads, top, b) && d < |b.free| && ClassOk(word, heads, b, d)
    ensures forall q :: q in b.free[d] ==> At(Put(word, top, c), q - 4) == At(word, q - 4)
  {
    forall q | q in b.free[d] ensures At(Put(word, top, c), q - 4) == At(word, q - 4) {
      assert InFree(b, q, d);
      LinkIsNotTag(heads, top, b, q);
    }
  }

  lemma LinkIsNotTag(heads: int, top: int, b: Book, q: int)
    requires Laid(heads, top, b) && q in b.sizes
    ensures q - 4 != top && q - 8 != top
  {
    assert Sized(heads, top, q, b.sizes[q]);
  }

  lemma CarveElsewhere(word: Words, heads: int, top: int, b: Book, c: nat)
    requires Laid(heads, top, b)
    ensures forall q :: q in b.sizes ==>
              At(Put(word, top, c), q - 4) == At(word, q - 4) && At(Put(word, top, c), q - 8) == At(word, q - 8)
    ensures top + 8 !in b.sizes
  {
    NullIsNone(heads, top, b);
    forall q | q in b.sizes ensures q - 4 != top && q - 8 != top {
      LinkIsNotTag(heads, top, b, q);
    }
  }

  lemma CarveTagged(word: Words, heads: int, top: int, b: Book, c: nat)
    requires Laid(heads, top, b) && Tagged(word, b)
    ensures Tagged(Put(word, top, c), AfterCarve(b, top + 8, c))
  {
    CarveElsewhere(word, heads, top, b, c);
  }

  lemma CarveChain(word: Words, heads: int, head: int, top: int, b: Book, c: nat)
    requires Laid(heads, top, b) && ChainOk(word, head, b)
    ensures ChainOk(Put(word, top, c), head, AfterCarve(b, top + 8, c))
  {
    CarveElsewhere(word, heads, top, b, c);
    assert forall q :: q in b.chain ==> q in b.place.Keys;
    ListFrame(word, Put(word, top, c), head, b.chain);
  }

  lemma CarveKeeps(word: Words, heads: int, head: int, top: int, b: Book, c: nat)
    requires Good(word, heads, head, top, b) && MIN_CLASS <= c < CLASSES == |b.free| && b.free[c] == []
    ensures var b' := AfterCarve(b, top + 8, c); Good(Put(word, top, c), heads, head, b'.top, b')
  {
    GoodHas(word, heads, head, top, b, |b.free|);
    CarveParts(word, Put(word, top, c), heads, head, top, b, AfterCarve(b, top + 8, c), c);
  }

  lemma CarveParts(word: Words, word': Words, heads: int, head: int, top: int, b: Book, b': Book, c: nat)
    requires Laid(heads, top, b) && Tagged(word, b) && ChainOk(word, head, b)
    requires MIN_CLASS <= c < CLASSES == |b.free| && b.free[c] == []
    requires forall d :: 0 <= d < CLASSES ==> ClassOk(word, heads, b, d)
    requires word' == Put(word, top, c) && b' == AfterCarve(b, top + 8, c)
    ensures Good(word', heads, head, b'.top, b')
  {
    CarveClasses(word, word', heads, top, b, b', c);
    CarveRest(word, heads, head, top, b, c);
    GoodFrom(word', heads, head, b'.top, b', |b'.free|);
  }

  lemma CarveRest(word: Words, heads: int, head: int, top: int, b: Book, c: nat)
    requires Laid(heads, top, b) && Tagged(word, b) && ChainOk(word, head, b) && MIN_CLASS <= c < CLASSES
    ensures var word', b' := Put(word, top, c), AfterCarve(b, top + 8, c);
            Laid(heads, b'.top, b') && Tagged(word', b') && ChainOk(word', head, b')
  {
    CarveTagged(word, heads, top, b, c);
    CarveChain(word, heads, head, top, b, c);
    CarveLaid(heads, top, b, c);
  }

  lemma CarveClasses(word: Words, word': Words, heads: int, top: int, b: Book, b': Book, c: nat)
    requires Laid(heads, top, b) && c < CLASSES == |b.free| && b.place.Keys == b.sizes.Keys && b.free[c] == []
    requires forall d :: 0 <= d < CLASSES ==> ClassOk(word, heads, b, d)
    requires word' == Put(word, top, c) && b' == AfterCarve(b, top + 8, c)
    ensures |b'.free| == CLASSES && forall d :: 0 <= d < CLASSES ==> ClassOk(word', heads, b', d)
  {
    forall d | 0 <= d < CLASSES ensures ClassOk(word', heads, b', d) {
      assert ClassOk(word, heads, b, d);
      if d == c {
        CarveOwn(word, heads, top, b, c);
      } else {
        CarveOther(word, heads, top, b, c, d);
      }
    }
  }

  // ---- What a history costs ----

  // The bytes of the first n classes when each has had its peak of blocks carved.
  function Footprint(history: seq<Event>, n: nat): nat {
    if n == 0 then 0 else Footprint(history, n - 1) + Peak(history, n - 1) * Pow2(n - 1)
  }

  function Carved(order: seq<int>, sizes: map<int, nat>, n: nat): nat {
    if n == 0 then 0 else Carved(order, sizes, n - 1) + CountOf(order, sizes, n - 1) * Pow2(n - 1)
  }

  lemma {:induction false} CarvedOneMore(order: seq<int>, sizes: map<int, nat>, n: nat)
    requires order != [] && order[|order| - 1] in sizes
    ensures var c := sizes[order[|order| - 1]];
            Carved(order, sizes, n) == Carved(order[..|order| - 1], sizes, n) + if c < n then Pow2(c) else 0
  {
    if n > 0 {
      CarvedOneMore(order, sizes, n - 1);
      MoreBlocks(CountOf(order[..|order| - 1], sizes, n - 1), Pow2(n - 1));
    }
  }

  lemma MoreBlocks(k: nat, size: nat)
    ensures (k + 1) * size == k * size + size
  {
  }

  lemma {:induction false} NoneCarved(sizes: map<int, nat>, n: nat)
    ensures Carved([], sizes, n) == 0
  {
    if n > 0 {
      NoneCarved(sizes, n - 1);
    }
  }

  // Blocks that tile the heap fill it: its end is where it starts plus what was carved of each class.
  lemma {:induction false} TilesFill(order: seq<int>, sizes: map<int, nat>, base: int, top: int, n: nat)
    requires Tiles(order, sizes, base, top) && forall p :: p in sizes ==> sizes[p] < n
    ensures top == base + Carved(order, sizes, n)
  {
    if order == [] {
      NoneCarved(sizes, n);
    } else {
      TilesFill(order[..|order| - 1], sizes, base, order[|order| - 1] - 8, n);
      CarvedOneMore(order, sizes, n);
    }
  }

  lemma {:induction false} CarvedAtPeak(order: seq<int>, sizes: map<int, nat>, history: seq<Event>, n: nat)
    requires forall c :: 0 <= c < n ==> CountOf(order, sizes, c) == Peak(history, c)
    ensures Carved(order, sizes, n) == Footprint(history, n)
  {
    if n > 0 {
      CarvedAtPeak(order, sizes, history, n - 1);
    }
  }

  // The heap top is the class heads and each class's peak: nothing else ever moves it.
  lemma TopIsFootprint(word: Words, heads: int, head: int, top: int, b: Book)
    requires Good(word, heads, head, top, b)
    ensures top == heads + HEADS_BYTES + Footprint(b.history, CLASSES)
  {
    GoodHas(word, heads, head, top, b, |b.free|);
    forall p | p in b.sizes ensures b.sizes[p] < CLASSES {
      assert Sized(heads, top, p, b.sizes[p]);
    }
    TilesFill(b.order, b.sizes, heads + HEADS_BYTES, top, CLASSES);
    forall c | 0 <= c < CLASSES ensures CountOf(b.order, b.sizes, c) == Peak(b.history, c) {
      assert ClassOk(word, heads, b, c);
    }
    CarvedAtPeak(b.order, b.sizes, b.history, CLASSES);
  }

  lemma {:induction false} FootprintGrows(a: seq<Event>, b: seq<Event>, n: nat)
    ensures Footprint(a, n) <= Footprint(a + b, n)
  {
    if n > 0 {
      FootprintGrows(a, b, n - 1);
      PeakConcat(a, b, n - 1);
      MoreOfClass(Peak(a, n - 1), Peak(a + b, n - 1), Pow2(n - 1));
    }
  }

  lemma MoreOfClass(a: nat, b: nat, size: nat)
    requires a <= b
    ensures a * size <= b * size
  {
  }

  // A balanced run costs nothing the second time, at any point of it.
  lemma {:induction false} FootprintRepeats(setup: seq<Event>, run: seq<Event>, n: nat)
    requires forall c :: 0 <= c < n ==> Live(run, c) == 0
    ensures Footprint(setup + run + run, n) == Footprint(setup + run, n)
  {
    if n > 0 {
      FootprintRepeats(setup, run, n - 1);
      RepeatIsFlat(setup, run, n - 1);
    }
  }

  // A block of a class that has none free adds its size.
  lemma {:induction false} TakenFootprint(history: seq<Event>, c: nat, n: nat)
    requires Live(history, c) == Peak(history, c)
    ensures Footprint(history + [Taken(c)], n) == Footprint(history, n) + if c < n then Pow2(c) else 0
  {
    if n > 0 {
      TakenFootprint(history, c, n - 1);
      EventLast(history, Taken(c), n - 1);
      MoreBlocks(Peak(history, n - 1), Pow2(n - 1));
    }
  }

  // ---- On and off the call chain ----

  function AfterLink(b: Book, p: int): Book {
    b.(place := b.place[p := OnCall], chain := [p] + b.chain)
  }

  // A block on no free list may change its link and its place, as long as it stays off them.
  lemma HeldClass(word: Words, word': Words, heads: int, b: Book, b': Book, p: int, c: nat)
    requires c < |b.free| && ClassOk(word, heads, b, c) && p in b.place && b.place[p] != OnFreeList
    requires At(word', HeadAt(heads, c)) == At(word, HeadAt(heads, c))
    requires forall q :: q in b.sizes && q != p ==> At(word', q - 4) == At(word, q - 4)
    requires b'.free == b.free && b'.order == b.order && b'.sizes == b.sizes && b'.history == b.history
    requires b'.place.Keys == b.place.Keys && b'.place[p] != OnFreeList && forall q :: q in b.place && q != p ==>
               b'.place[q] == b.place[q]
    ensures ClassOk(word', heads, b', c)
  {
    forall q | q in b.free[c] ensures At(word', q - 4) == At(word, q - 4) {
      assert InFree(b, q, c);
    }
    forall q ensures InFree(b', q, c) <==> InFree(b, q, c) {
      assert q in b'.place <==> q in b'.place.Keys;
    }
    ClassFrame(word, word', heads, b, b', c);
  }

  lemma LinkChain(word: Words, heads: int, head: int, top: int, b: Book, p: int)
    requires Laid(heads, top, b) && Tagged(word, b) && ChainOk(word, head, b) && p in b.place && b.place[p] == Held
    ensures ChainOk(Put(word, p - 4, head), p, AfterLink(b, p)) && Tagged(Put(word, p - 4, head), AfterLink(b, p))
  {
    var word' := Put(word, p - 4, head);
    assert p in b.place.Keys;
    OwnWords(heads, top, b, p);
    forall q | q in b.chain ensures At(word', q - 4) == At(word, q - 4) {
      assert q in b.place.Keys;
    }
    ListFrame(word, word', head, b.chain);
    ListCons(word', p, b.chain);
  }

  lemma LinkKeeps(word: Words, heads: int, head: int, top: int, b: Book, p: int)
    requires Good(word, heads, head, top, b) && p in b.place && b.place[p] == Held
    ensures Good(Put(word, p - 4, head), heads, p, top, AfterLink(b, p))
  {
    var word', b' := Put(word, p - 4, head), AfterLink(b, p);
    GoodHas(word, heads, head, top, b, |b.free|);
    assert p in b.place.Keys;
    OwnWords(heads, top, b, p);
    forall d | 0 <= d < CLASSES ensures ClassOk(word', heads, b', d) {
      assert ClassOk(word, heads, b, d);
      HeldClass(word, word', heads, b, b', p, d);
    }
    LinkChain(word, heads, head, top, b, p);
    GoodFrom(word', heads, p, top, b', |b'.free|);
  }

  function AfterUnlink(b: Book): Book
    requires b.chain != []
  {
    b.(place := b.place[b.chain[0] := Held], chain := b.chain[1..])
  }

  // Following the newest block's link leaves it held.
  lemma UnlinkKeeps(word: Words, heads: int, head: int, top: int, b: Book)
    requires Good(word, heads, head, top, b) && b.chain != []
    ensures head == b.chain[0] && Good(word, heads, At(word, head - 4), top, AfterUnlink(b))
  {
    var b' := AfterUnlink(b);
    GoodHas(word, heads, head, top, b, |b.free|);
    assert b.chain[0] in b.chain && head in b.place.Keys;
    TailElements(b.chain);
    forall d | 0 <= d < CLASSES ensures ClassOk(word, heads, b', d) {
      assert ClassOk(word, heads, b, d);
      HeldClass(word, word, heads, b, b', head, d);
    }
    GoodFrom(word, heads, At(word, head - 4), top, b', |b'.free|);
  }

  // ---- Giving a block back ----

  function AfterFree(b: Book, p: int): Book
    requires p in b.sizes && b.sizes[p] < |b.free|
  {
    var c := b.sizes[p];
    b.(place := b.place[p := OnFreeList], free := b.free[c := [p] + b.free[c]], history := b.history + [Given(c)])
  }

  function FreedWords(word: Words, heads: int, p: int, c: nat): Words {
    Put(Put(word, p - 4, At(word, HeadAt(heads, c))), HeadAt(heads, c), p)
  }

  lemma FreedWordsElsewhere(word: Words, heads: int, top: int, b: Book, p: int)
    requires Laid(heads, top, b) && p in b.sizes
    ensures b.sizes[p] < CLASSES
    ensures var c := b.sizes[p]; var word' := FreedWords(word, heads, p, c);
            && At(word', p - 4) == At(word, HeadAt(heads, c)) && At(word', HeadAt(heads, c)) == p
            && (forall q :: q in b.sizes && q != p ==> At(word', q - 4) == At(word, q - 4))
            && (forall q :: q in b.sizes ==> At(word', q - 8) == At(word, q - 8))
            && (forall d :: 0 <= d < CLASSES && d != c ==> At(word', HeadAt(heads, d)) == At(word, HeadAt(heads, d)))
  {
    OwnWords(heads, top, b, p);
    NullIsNone(heads, top, b);
  }

  lemma FreeOwn(word: Words, heads: int, top: int, b: Book, p: int)
    requires Laid(heads, top, b) && |b.free| == CLASSES && p in b.sizes && b.sizes[p] < CLASSES
    requires ClassOk(word, heads, b, b.sizes[p])
    requires p in b.place && b.place[p] == Held
    ensures ClassOk(FreedWords(word, heads, p, b.sizes[p]), heads, AfterFree(b, p), b.sizes[p])
  {
    var c := b.sizes[p];
    var word' := FreedWords(word, heads, p, c);
    FreedWordsElsewhere(word, heads, top, b, p);
    forall q | q in b.free[c] ensures At(word', q - 4) == At(word, q - 4) {
      assert InFree(b, q, c);
    }
    ListFrame(word, word', At(word, HeadAt(heads, c)), b.free[c]);
    ListCons(word', p, b.free[c]);
    EventLast(b.history, Given(c), c);
    assert !InFree(b, p, c);
  }

  lemma FreeOther(word: Words, heads: int, top: int, b: Book, p: int, d: nat)
    requires Laid(heads, top, b) && |b.free| == CLASSES && p in b.sizes && b.sizes[p] < CLASSES && d < CLASSES
    requires d != b.sizes[p]
    requires ClassOk(word, heads, b, d) && p in b.place && b.place[p] == Held
    ensures ClassOk(FreedWords(word, heads, p, b.sizes[p]), heads, AfterFree(b, p), d)
  {
    var c := b.sizes[p];
    var word' := FreedWords(word, heads, p, c);
    FreedWordsElsewhere(word, heads, top, b, p);
    forall q | q in b.free[d] ensures At(word', q - 4) == At(word, q - 4) {
      assert InFree(b, q, d);
    }
    EventLast(b.history, Given(c), d);
    ClassFrame(word, word', heads, b, AfterFree(b, p), d);
  }

  lemma FreeChain(word: Words, heads: int, head: int, top: int, b: Book, p: int)
    requires Laid(heads, top, b) && Tagged(word, b) && ChainOk(word, head, b) && |b.free| == CLASSES
    requires p in b.sizes && b.sizes[p] < CLASSES && p in b.place && b.place[p] == Held
    ensures var word' := FreedWords(word, heads, p, b.sizes[p]);
            ChainOk(word', head, AfterFree(b, p)) && Tagged(word', AfterFree(b, p))
  {
    var word' := FreedWords(word, heads, p, b.sizes[p]);
    FreedWordsElsewhere(word, heads, top, b, p);
    forall q | q in b.chain ensures At(word', q - 4) == At(word, q - 4) {
      assert q in b.place.Keys;
    }
    ListFrame(word, word', head, b.chain);
  }

  lemma FreeKeeps(word: Words, heads: int, head: int, top: int, b: Book, p: int)
    requires Good(word, heads, head, top, b) && p in b.place && b.place[p] == Held
    ensures p in b.sizes && b.sizes[p] < CLASSES == |b.free| && At(word, p - 8) == b.sizes[p]
    ensures Good(FreedWords(word, heads, p, b.sizes[p]), heads, head, top, AfterFree(b, p))
  {
    GoodHas(word, heads, head, top, b, |b.free|);
    assert p in b.place.Keys;
    FreedWordsElsewhere(word, heads, top, b, p);
    var word', b' := FreedWords(word, heads, p, b.sizes[p]), AfterFree(b, p);
    forall d | 0 <= d < CLASSES ensures ClassOk(word', heads, b', d) {
      assert ClassOk(word, heads, b, d);
      if d == b.sizes[p] {
        FreeOwn(word, heads, top, b, p);
      } else {
        FreeOther(word, heads, top, b, p, d);
      }
    }
    FreeChain(word, heads, head, top, b, p);
    GoodFrom(word', heads, head, top, b', |b'.free|);
  }
}
