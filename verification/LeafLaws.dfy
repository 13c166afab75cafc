/** What the leaves of an expression read, by decoding the text. */
module LeafLaws {
  import opened BtProgram
  import opened RegexpTree
  import opened TextLaws
  import opened Utf8

  // ---- Leaves ----

  // The next k bytes of the text are the rune.
  ghost predicate Reads(text: Text, pos: nat, k: nat, unicode: bool, r: nat) {
    pos + k <= |text| && Decode(text[pos..pos + k], unicode) == Some(r)
  }

  lemma {:induction false} ReadsIsEncoded(text: Text, pos: nat, k: nat, unicode: bool, r: nat)
    ensures Reads(text, pos, k, unicode, r) <==>
              pos + k <= |text| && Encode(r, unicode) == Option<seq<Byte>>.Some(text[pos..pos + k])
  {
    if pos + k <= |text| {
      DecodeEncode(r, unicode);
      if Reads(text, pos, k, unicode, r) {
        EncodeDecode(text[pos..pos + k], unicode);
      }
    }
  }

  // One rune at most is read at a position.
  lemma {:induction false} ReadsOne(text: Text, pos: nat, k: nat, j: nat, unicode: bool, r: nat, q: nat)
    requires Reads(text, pos, k, unicode, r) && Reads(text, pos, j, unicode, q)
    ensures k == j && r == q
  {
    ReadsIsEncoded(text, pos, k, unicode, r);
    ReadsIsEncoded(text, pos, j, unicode, q);
    if k <= j {
      assert text[pos..pos + k] <= text[pos..pos + j];
      NoPrefix(r, q, unicode);
    } else {
      assert text[pos..pos + j] <= text[pos..pos + k];
      NoPrefix(q, r, unicode);
    }
  }

  // Rune by rune, up to ASCII case when it folds.
  ghost predicate Spelt(runes: seq<nat>, fold: bool, unicode: bool, text: Text, pos: nat, end: nat) {
    if runes == [] then end == pos
    else
      exists k, r ::
        Reads(text, pos, k, unicode, r) && MeansRune(r, runes[0], fold) &&
        Spelt(runes[1..], fold, unicode, text, pos + k, end)
  }

  predicate MeansRune(r: nat, q: nat, fold: bool) {
    r == q || (fold && LowerCase(r) == LowerCase(q))
  }

  lemma MeansIs(r: nat, q: nat, fold: bool)
    ensures MeansRune(r, q, fold) <==> r == q || (fold && r == FoldRune(q))
  {
    FoldLaws(q, r);
  }

  lemma {:induction false} RuneAtReads(r: nat, unicode: bool, text: Text, pos: nat)
    ensures IsRuneAt(r, unicode, text, pos) ==> Reads(text, pos, |Encode(r, unicode).value|, unicode, r)
    ensures forall k :: Reads(text, pos, k, unicode, r) ==>
              IsRuneAt(r, unicode, text, pos) && |Encode(r, unicode).value| == k
  {
    if IsRuneAt(r, unicode, text, pos) {
      ReadsIsEncoded(text, pos, |Encode(r, unicode).value|, unicode, r);
    }
    forall k | Reads(text, pos, k, unicode, r)
      ensures IsRuneAt(r, unicode, text, pos) && |Encode(r, unicode).value| == k
    {
      ReadsIsEncoded(text, pos, k, unicode, r);
    }
  }

  // Spelling ends there exactly when the literal is so spelt.
  ghost predicate SpeltRight(runes: seq<nat>, fold: bool, unicode: bool, text: Text, pos: nat, end: nat)
    requires pos <= |text|
  {
    Spelling(runes, fold, unicode, text, pos) == Option<nat>.Some(end) <==>
      Spelt(runes, fold, unicode, text, pos, end)
  }

  lemma {:induction false} SpellingIs(runes: seq<nat>, fold: bool, unicode: bool, text: Text, pos: nat, end: nat)
    requires pos <= |text|
    ensures SpeltRight(runes, fold, unicode, text, pos, end)
    decreases |runes|
  {
    if runes != [] {
      var a, b := runes[0], FoldRune(runes[0]);
      if IsRuneAt(a, unicode, text, pos) {
        SpellingIs(runes[1..], fold, unicode, text, pos + |Encode(a, unicode).value|, end);
        SpellingOn(runes, fold, unicode, text, pos, end, a);
      } else if fold && IsRuneAt(b, unicode, text, pos) {
        SpellingIs(runes[1..], fold, unicode, text, pos + |Encode(b, unicode).value|, end);
        SpellingOn(runes, fold, unicode, text, pos, end, b);
      } else {
        NotSpelt(runes, fold, unicode, text, pos, end);
      }
    }
  }

  // Past the first rune, both ways of telling agree on what is left.
  lemma {:induction false} SpellingOn(runes: seq<nat>, fold: bool, unicode: bool, text: Text, pos: nat, end: nat,
                                      r: nat)
    requires pos <= |text| && runes != [] && IsRuneAt(r, unicode, text, pos)
    requires r == runes[0] || (fold && r == FoldRune(runes[0]) && !IsRuneAt(runes[0], unicode, text, pos))
    requires SpeltRight(runes[1..], fold, unicode, text, pos + |Encode(r, unicode).value|, end)
    ensures SpeltRight(runes, fold, unicode, text, pos, end)
  {
    RuneAtReads(r, unicode, text, pos);
    MeansIs(r, runes[0], fold);
    SpeltOn(runes, fold, unicode, text, pos, end, |Encode(r, unicode).value|, r);
  }

  lemma {:induction false} NotSpelt(runes: seq<nat>, fold: bool, unicode: bool, text: Text, pos: nat, end: nat)
    requires runes != [] && !IsRuneAt(runes[0], unicode, text, pos)
    requires fold ==> !IsRuneAt(FoldRune(runes[0]), unicode, text, pos)
    requires pos <= |text|
    ensures SpeltRight(runes, fold, unicode, text, pos, end)
  {
    forall k, r | Reads(text, pos, k, unicode, r) ensures !MeansRune(r, runes[0], fold) {
      MeansIs(r, runes[0], fold);
      RuneAtReads(r, unicode, text, pos);
    }
  }

  lemma {:induction false} SpeltOn(runes: seq<nat>, fold: bool, unicode: bool, text: Text, pos: nat, end: nat, k: nat,
                                   r: nat)
    requires runes != [] && Reads(text, pos, k, unicode, r) && MeansRune(r, runes[0], fold)
    ensures Spelt(runes, fold, unicode, text, pos, end) <==> Spelt(runes[1..], fold, unicode, text, pos + k, end)
  {
    if Spelt(runes, fold, unicode, text, pos, end) {
      var j, q :| Reads(text, pos, j, unicode, q) && MeansRune(q, runes[0], fold) &&
                  Spelt(runes[1..], fold, unicode, text, pos + j, end);
      ReadsOne(text, pos, k, j, unicode, r, q);
    }
  }

  // A rune the class lists starts here, and takes k bytes.
  ghost predicate ReadsOneOf(ranges: seq<(nat, nat)>, unicode: bool, text: Text, pos: nat, k: nat) {
    exists i, r :: 0 <= i < |ranges| && ranges[i].0 <= r <= ranges[i].1 && Reads(text, pos, k, unicode, r)
  }

  lemma {:induction false} OneOfIs(ranges: seq<(nat, nat)>, unicode: bool, text: Text, pos: nat, k: nat)
    ensures IsOneOf(ranges, unicode, text, pos, k) <==> ReadsOneOf(ranges, unicode, text, pos, k)
  {
    if IsOneOf(ranges, unicode, text, pos, k) {
      var i, r :| 0 <= i < |ranges| && ranges[i].0 <= r <= ranges[i].1 &&
                  Encode(r, unicode) == Option<seq<Byte>>.Some(text[pos..pos + k]);
      ReadsIsEncoded(text, pos, k, unicode, r);
    }
    if ReadsOneOf(ranges, unicode, text, pos, k) {
      var i, r :| 0 <= i < |ranges| && ranges[i].0 <= r <= ranges[i].1 && Reads(text, pos, k, unicode, r);
      ReadsIsEncoded(text, pos, k, unicode, r);
    }
  }

  lemma {:induction false} RuneStatesAre(ranges: seq<(nat, nat)>, unicode: bool, text: Text, s: State, n: nat)
    requires s.pos <= |text|
    ensures (forall k :: 0 < k <= n ==> !ReadsOneOf(ranges, unicode, text, s.pos, k)) ==>
              RuneStates(ranges, unicode, text, s, n) == []
    ensures forall k :: 0 < k <= n && ReadsOneOf(ranges, unicode, text, s.pos, k) ==>
              RuneStates(ranges, unicode, text, s, n) == [State(s.pos + k, s.caps)]
  {
    if n > 0 {
      RuneStatesAre(ranges, unicode, text, s, n - 1);
      OneOfIs(ranges, unicode, text, s.pos, n);
      if ReadsOneOf(ranges, unicode, text, s.pos, n) {
        forall k | ReadsOneOf(ranges, unicode, text, s.pos, k) ensures k == n {
          SameWidth(ranges, unicode, text, s.pos, k, n);
        }
      }
    }
  }

  lemma {:induction false} SameWidth(ranges: seq<(nat, nat)>, unicode: bool, text: Text, pos: nat, k: nat, j: nat)
    requires ReadsOneOf(ranges, unicode, text, pos, k) && ReadsOneOf(ranges, unicode, text, pos, j)
    ensures k == j
  {
    var a, r :| 0 <= a < |ranges| && ranges[a].0 <= r <= ranges[a].1 && Reads(text, pos, k, unicode, r);
    var b, q :| 0 <= b < |ranges| && ranges[b].0 <= q <= ranges[b].1 && Reads(text, pos, j, unicode, q);
    ReadsOne(text, pos, k, j, unicode, r, q);
  }

  lemma {:induction false} WidthIsSmall(text: Text, pos: nat, k: nat, unicode: bool, r: nat)
    requires Reads(text, pos, k, unicode, r)
    ensures 1 <= k <= 4
  {
  }

  // A class reads exactly one rune, one of those it lists, however many bytes that takes.
  lemma {:induction false} ClassReads(ranges: seq<(nat, nat)>, unicode: bool, text: Text, s: State, k: nat)
    requires s.pos <= |text|
    ensures Runs(Class(ranges), unicode, text, s) == [State(s.pos + k, s.caps)] <==>
              ReadsOneOf(ranges, unicode, text, s.pos, k)
    ensures Runs(Class(ranges), unicode, text, s) == [] <==>
              forall j :: !ReadsOneOf(ranges, unicode, text, s.pos, j)
  {
    RuneStatesAre(ranges, unicode, text, s, 4);
    forall j | ReadsOneOf(ranges, unicode, text, s.pos, j) ensures 0 < j <= 4 {
      var i, r :| 0 <= i < |ranges| && ranges[i].0 <= r <= ranges[i].1 && Reads(text, s.pos, j, unicode, r);
      WidthIsSmall(text, s.pos, j, unicode, r);
    }
  }

  lemma {:induction false} ReadsInRange(text: Text, pos: nat, k: nat, unicode: bool, r: nat)
    requires Reads(text, pos, k, unicode, r)
    ensures r <= 0x10FFFF
  {
    ReadsIsEncoded(text, pos, k, unicode, r);
    EncodesIff(r, unicode);
  }

  // A dot reads any rune, or any but a newline.
  lemma {:induction false} DotReads(unicode: bool, text: Text, s: State, k: nat)
    requires s.pos <= |text|
    ensures Runs(AnyChar, unicode, text, s) == [State(s.pos + k, s.caps)] <==>
              exists r :: Reads(text, s.pos, k, unicode, r)
    ensures Runs(AnyCharNotNL, unicode, text, s) == [State(s.pos + k, s.caps)] <==>
              exists r :: Reads(text, s.pos, k, unicode, r) && r != '\n' as int
  {
    ClassReads(ANY, unicode, text, s, k);
    ClassReads(ANY_NOT_NL, unicode, text, s, k);
    if r: nat :| Reads(text, s.pos, k, unicode, r) {
      ReadsInRange(text, s.pos, k, unicode, r);
      assert ANY[0].0 <= r <= ANY[0].1;
      if r != '\n' as int {
        var i := if r < 10 then 0 else 1;
        assert ANY_NOT_NL[i].0 <= r <= ANY_NOT_NL[i].1;
      }
    }
  }
}
