/** A stack frame in memory: the position, the captures, then the instruction to retry, four bytes each. */
module FrameBytes {
  import opened BtProgram
  import opened BtMachine
  import opened LazyMemo
  import opened Wasm32

  // ---- A word as bits, and back ----

  predicate Bit(w: nat, i: nat) {
    w / Pow2(i) % 2 == 1
  }

  // i32.store: byte k of the word, as the set of its bits.
  function ByteOf(w: nat, k: nat): set<nat> {
    Bits(w, 8 * k, 8)
  }

  // The set bits among n of the word's, counted from one of them.
  function Bits(w: nat, from: nat, n: nat): (s: set<nat>)
    ensures forall i: nat :: i in s <==> i < n && Bit(w, from + i)
  {
    if n == 0 then {} else Bits(w, from, n - 1) + if Bit(w, from + (n - 1)) then {n - 1} else {}
  }

  // The value of the low n bits at an address, low byte first.
  function Low(mem: Memory, at: int, n: nat): nat {
    if n == 0 then 0
    else Low(mem, at, n - 1) + if (n - 1) % 8 in mem(at + (n - 1) / 8) then Pow2(n - 1) else 0
  }

  // i32.load.
  function Load(mem: Memory, at: int): nat {
    Low(mem, at, 32)
  }

  // A register's value as a signed number.
  function Signed(w: nat): int {
    if w < WORD / 2 then w else w - WORD
  }

  lemma Multiple(x: int, d: nat)
    requires x >= 1
    ensures x * d >= d
  {
    assert x * d == (x - 1) * d + d;
  }

  lemma Remainder(w: nat, d: nat, k: nat, r: nat)
    requires w == k * d + r && r < d
    ensures w % d == r
  {
    var q := w / d;
    assert w == q * d + w % d;
    assert (q - k) * d == q * d - k * d;
    assert (k - q) * d == k * d - q * d;
    if q > k {
      Multiple(q - k, d);
    } else if q < k {
      Multiple(k - q, d);
    }
  }

  // One bit more.
  lemma NextBit(w: nat, n: nat)
    ensures w % Pow2(n + 1) == w % Pow2(n) + if Bit(w, n) then Pow2(n) else 0
  {
    var p := Pow2(n);
    var q, r := w / p, w % p;
    assert w == q * p + r;
    assert q == 2 * (q / 2) + q % 2;
    Spread(q / 2, q % 2, p, r);
    Remainder(w, 2 * p, q / 2, q % 2 * p + r);
  }

  lemma Spread(k: nat, b: nat, p: nat, r: nat)
    requires b < 2 && r < p
    ensures (2 * k + b) * p + r == k * (2 * p) + (b * p + r) && b * p + r < 2 * p
  {
    assert (2 * k + b) * p == 2 * k * p + b * p && k * (2 * p) == 2 * k * p;
  }

  ghost predicate Stored(mem: Memory, at: int, w: nat) {
    forall k :: 0 <= k < 4 ==> mem(at + k) == ByteOf(w, k)
  }

  lemma BitStored(mem: Memory, at: int, w: nat, n: nat, k: nat, i: nat)
    requires Stored(mem, at, w) && k < 4 && i < 8 && n == 8 * k + i
    ensures i in mem(at + k) <==> Bit(w, n)
  {
    assert mem(at + k) == ByteOf(w, k);
  }

  lemma {:induction false} LowIs(mem: Memory, at: int, w: nat, n: nat)
    requires Stored(mem, at, w) && n <= 32
    ensures Low(mem, at, n) == w % Pow2(n)
  {
    if n > 0 {
      LowIs(mem, at, w, n - 1);
      NextBit(w, n - 1);
      BitStored(mem, at, w, n - 1, (n - 1) / 8, (n - 1) % 8);
    }
  }

  lemma WordSize()
    ensures Pow2(32) == WORD
  {
    assert Pow2(8) == 256 by {
      assert Pow2(4) == 2 * Pow2(3) && Pow2(3) == 2 * Pow2(2) && Pow2(2) == 2 * Pow2(1) && Pow2(1) == 2 * Pow2(0);
      assert Pow2(8) == 2 * Pow2(7) && Pow2(7) == 2 * Pow2(6) && Pow2(6) == 2 * Pow2(5) && Pow2(5) == 2 * Pow2(4);
    }
    PowAdds(8, 8);
    PowAdds(16, 16);
  }

  lemma {:induction false} PowAdds(a: nat, b: nat)
    ensures Pow2(a + b) == Pow2(a) * Pow2(b)
  {
    if b > 0 {
      PowAdds(a, b - 1);
      assert Pow2(a + b) == 2 * (Pow2(a) * Pow2(b - 1));
    }
  }

  // What is stored is loaded.
  lemma StoreLoad(mem: Memory, at: int, v: int)
    requires Stored(mem, at, Wrap(v)) && -(WORD / 2) <= v < WORD
    ensures v >= 0 ==> Load(mem, at) == v
    ensures v < WORD / 2 ==> Signed(Load(mem, at)) == v
  {
    LowIs(mem, at, Wrap(v), 32);
    WordSize();
    assert v < 0 ==> Wrap(v) == v + WORD;
  }

  // ---- Frames ----

  function FrameSize(slots: nat): nat {
    4 * slots + 8
  }

  // A frame is as many words as it has fields, the captures and two more.
  lemma FrameFills(slots: nat, i: nat)
    ensures 4 * i + 4 <= FrameSize(slots) <==> i < slots + 2
    ensures FrameSize(slots) % 4 == 0
  {
  }

  // The words of a frame.
  function FrameWord(f: Frame, i: nat): int {
    if i == 0 then f.node.pos else if i <= |f.caps| then f.caps[i - 1] else f.node.pc
  }

  // The bytes a push writes from this address up.
  function FrameAt(f: Frame, at: int): Memory {
    a => if a < at then {} else ByteOf(Wrap(FrameWord(f, (a - at) / 4)), (a - at) % 4)
  }

  // What a pop reads there.
  function ReadFrame(mem: Memory, at: int, slots: nat): (f: Frame)
    ensures |f.caps| == slots
  {
    Frame(At(Load(mem, at + 4 + 4 * slots), Load(mem, at)), seq(slots, i => Signed(Load(mem, at + 4 + 4 * i))))
  }

  // Every field fits its word.
  ghost predicate Fits32(f: Frame) {
    && f.node.pc < WORD && f.node.pos < WORD
    && forall i :: 0 <= i < |f.caps| ==> -(WORD / 2) <= f.caps[i] < WORD / 2
  }

  ghost predicate Agree(a: Memory, b: Memory, from: int, to: int) {
    forall x :: from <= x < to ==> a(x) == b(x)
  }

  lemma WordStored(mem: Memory, f: Frame, at: int, i: nat)
    requires i < |f.caps| + 2 && Agree(mem, FrameAt(f, at), at, at + FrameSize(|f.caps|))
    ensures Stored(mem, at + 4 * i, Wrap(FrameWord(f, i)))
  {
    forall k | 0 <= k < 4 ensures mem(at + 4 * i + k) == ByteOf(Wrap(FrameWord(f, i)), k) {
      assert (4 * i + k) / 4 == i && (4 * i + k) % 4 == k;
      assert mem(at + 4 * i + k) == FrameAt(f, at)(at + 4 * i + k);
    }
  }

  lemma WordBack(mem: Memory, f: Frame, at: int, i: nat, v: int)
    requires i < |f.caps| + 2 && Agree(mem, FrameAt(f, at), at, at + FrameSize(|f.caps|))
    requires v == FrameWord(f, i) && -(WORD / 2) <= v < WORD
    ensures v >= 0 ==> Load(mem, at + 4 * i) == v
    ensures v < WORD / 2 ==> Signed(Load(mem, at + 4 * i)) == v
  {
    var a := at + 4 * i;
    assert Stored(mem, a, Wrap(v)) by {
      WordStored(mem, f, at, i);
    }
    StoreLoad(mem, a, v);
  }

  lemma CapBack(mem: Memory, f: Frame, at: int, i: nat)
    requires i < |f.caps| && Fits32(f) && Agree(mem, FrameAt(f, at), at, at + FrameSize(|f.caps|))
    ensures Signed(Load(mem, at + 4 + 4 * i)) == f.caps[i]
  {
    WordBack(mem, f, at, i + 1, f.caps[i]);
  }

  // A frame written is the frame read back.
  lemma FrameRoundTrip(mem: Memory, f: Frame, at: int)
    requires Fits32(f) && Agree(mem, FrameAt(f, at), at, at + FrameSize(|f.caps|))
    ensures ReadFrame(mem, at, |f.caps|) == f
  {
    WordBack(mem, f, at, 0, f.node.pos);
    WordBack(mem, f, at, |f.caps| + 1, f.node.pc);
    var back := ReadFrame(mem, at, |f.caps|);
    forall i | 0 <= i < |f.caps| ensures back.caps[i] == f.caps[i] {
      CapBack(mem, f, at, i);
    }
    assert back.caps == f.caps;
  }

  lemma LoadAgrees(a: Memory, b: Memory, at: int)
    requires Agree(a, b, at, at + 4)
    ensures Load(a, at) == Load(b, at)
  {
    LowAgrees(a, b, at, 32);
  }

  lemma {:induction false} LowAgrees(a: Memory, b: Memory, at: int, n: nat)
    requires Agree(a, b, at, at + 4) && n <= 32
    ensures Low(a, at, n) == Low(b, at, n)
  {
    if n > 0 {
      LowAgrees(a, b, at, n - 1);
      assert a(at + (n - 1) / 8) == b(at + (n - 1) / 8);
    }
  }

  // Memory that keeps a frame's bytes keeps the frame.
  lemma FrameAgrees(a: Memory, b: Memory, at: int, slots: nat)
    requires Agree(a, b, at, at + FrameSize(slots))
    ensures ReadFrame(a, at, slots) == ReadFrame(b, at, slots)
  {
    LoadAgrees(a, b, at);
    LoadAgrees(a, b, at + 4 + 4 * slots);
    forall i | 0 <= i < slots ensures Load(a, at + 4 + 4 * i) == Load(b, at + 4 + 4 * i) {
      LoadAgrees(a, b, at + 4 + 4 * i);
    }
  }
}
