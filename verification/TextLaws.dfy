/** What the assertions of a pattern test, in terms of a text's lines and words. */
module TextLaws {
  import opened BtProgram

  // ---- Lines ----

  // The text split at its newlines.
  function Lines(text: Text): (lines: seq<Text>)
    ensures lines != []
  {
    if text == [] then [[]]
    else
      var rest := Lines(text[1..]);
      if text[0] as int == '\n' as int then [[]] + rest else [[text[0]] + rest[0]] + rest[1..]
  }

  // Where a line begins, each one before it followed by its newline.
  function LineStart(lines: seq<Text>, k: nat): nat
    requires k < |lines|
  {
    if k == 0 then 0 else LineStart(lines, k - 1) + |lines[k - 1]| + 1
  }

  function Unlines(lines: seq<Text>): Text
    requires lines != []
  {
    if |lines| == 1 then lines[0] else lines[0] + ['\n' as int as Byte] + Unlines(lines[1..])
  }

  // The lines are the text's, and hold no newline.
  lemma {:induction false} LinesAre(text: Text)
    ensures Unlines(Lines(text)) == text
    ensures forall k :: 0 <= k < |Lines(text)| ==> NEWLINE !in Lines(text)[k]
  {
    if text != [] {
      var tail := text[1..];
      var rest := Lines(tail);
      LinesAre(tail);
      assert text == [text[0]] + tail;
      if text[0] as int == '\n' as int {
        assert ([[]] + rest)[1..] == rest;
      } else {
        var first := [text[0]] + rest[0];
        assert Lines(text)[1..] == rest[1..];
        if |rest| == 1 {
          assert Unlines(Lines(text)) == first;
        } else {
          assert first + ['\n' as int as Byte] + Unlines(rest[1..]) == [text[0]] + Unlines(rest);
        }
      }
    }
  }

  // One byte in front moves every line but the first, which it lengthens or ends.
  lemma {:induction false} StartsShift(text: Text, k: nat)
    requires text != [] && k < |Lines(text)|
    ensures var rest := Lines(text[1..]);
            if text[0] == NEWLINE
              then LineStart(Lines(text), k) == (if k == 0 then 0 else LineStart(rest, k - 1) + 1)
              else k < |rest| && LineStart(Lines(text), k) == (if k == 0 then 0 else LineStart(rest, k) + 1)
    ensures var rest := Lines(text[1..]);
            |Lines(text)| == |rest| + if text[0] == NEWLINE then 1 else 0
  {
    if k > 0 {
      StartsShift(text, k - 1);
    }
  }

  ghost predicate StartsLine(text: Text, p: nat) {
    exists k :: 0 <= k < |Lines(text)| && LineStart(Lines(text), k) == p
  }

  function LineEnd(lines: seq<Text>, k: nat): nat
    requires k < |lines|
  {
    LineStart(lines, k) + |lines[k]|
  }

  ghost predicate EndsLine(text: Text, p: nat) {
    exists k :: 0 <= k < |Lines(text)| && LineEnd(Lines(text), k) == p
  }

  lemma StartsNext(text: Text, p: nat)
    requires text != [] && p > 0
    ensures StartsLine(text, p) <==> StartsLine(text[1..], p - 1) && (p > 1 || text[0] == NEWLINE)
  {
    var lines, rest := Lines(text), Lines(text[1..]);
    StartsShift(text, 0);
    if k :| 0 <= k < |lines| && LineStart(lines, k) == p {
      StartsShift(text, k);
      var j := if text[0] == NEWLINE then k - 1 else k;
      assert LineStart(rest, j) == p - 1;
    }
    if k :| 0 <= k < |rest| && LineStart(rest, k) == p - 1 && (p > 1 || text[0] == NEWLINE) {
      var j := if text[0] == NEWLINE then k + 1 else k;
      StartsShift(text, j);
      assert LineStart(lines, j) == p;
    }
  }

  // ^ in multi-line mode: exactly where a line begins.
  lemma {:induction false} BeginLineIs(text: Text, p: nat)
    requires p <= |text|
    ensures Holds(BeginLine, text, p) <==> StartsLine(text, p)
  {
    if p == 0 {
      assert LineStart(Lines(text), 0) == 0;
    } else {
      StartsNext(text, p);
      BeginLineIs(text[1..], p - 1);
    }
  }

  lemma EndsShift(text: Text, k: nat)
    requires text != [] && k < |Lines(text)|
    ensures var rest := Lines(text[1..]);
            if text[0] == NEWLINE
              then LineEnd(Lines(text), k) == (if k == 0 then 0 else LineEnd(rest, k - 1) + 1)
              else k < |rest| && LineEnd(Lines(text), k) == LineEnd(rest, k) + 1
    ensures |Lines(text)| == |Lines(text[1..])| + if text[0] == NEWLINE then 1 else 0
  {
    StartsShift(text, k);
  }

  lemma EndsNext(text: Text, p: nat)
    requires text != []
    ensures EndsLine(text, p) <==> if p == 0 then text[0] == NEWLINE else EndsLine(text[1..], p - 1)
  {
    var lines, rest := Lines(text), Lines(text[1..]);
    EndsShift(text, 0);
    if k :| 0 <= k < |lines| && LineEnd(lines, k) == p {
      EndsShift(text, k);
      if p > 0 {
        assert LineEnd(rest, if text[0] == NEWLINE then k - 1 else k) == p - 1;
      }
    }
    if p > 0 && EndsLine(text[1..], p - 1) {
      var k :| 0 <= k < |rest| && LineEnd(rest, k) == p - 1;
      var j := if text[0] == NEWLINE then k + 1 else k;
      EndsShift(text, j);
      assert LineEnd(lines, j) == p;
    }
  }

  // $ in multi-line mode: exactly where a line ends.
  lemma {:induction false} EndLineIs(text: Text, p: nat)
    requires p <= |text|
    ensures Holds(EndLine, text, p) <==> EndsLine(text, p)
  {
    if text == [] {
      assert LineEnd(Lines(text), 0) == 0;
    } else {
      EndsNext(text, p);
      if p > 0 {
        EndLineIs(text[1..], p - 1);
      }
    }
  }

  // ---- Words ----

  predicate IsWordChar(c: char) {
    'a' <= c <= 'z' || 'A' <= c <= 'Z' || '0' <= c <= '9' || c == '_'
  }

  lemma WordBytes(b: Byte)
    ensures IsWord(b) <==> IsWordChar(b as char)
  {
  }

  predicate WordIn(text: Text, i: int) {
    0 <= i < |text| && IsWordChar(text[i] as char)
  }

  // text[a..b] is a whole word: it holds one at least, and none stands on either side.
  ghost predicate IsWholeWord(text: Text, a: nat, b: nat) {
    a < b <= |text| && (forall i :: a <= i < b ==> WordIn(text, i)) && !WordIn(text, a - 1) && !WordIn(text, b)
  }

  ghost predicate AtWordEdge(text: Text, p: nat) {
    exists a, b :: IsWholeWord(text, a, b) && (p == a || p == b)
  }

  function WordEnd(text: Text, p: nat): (b: nat)
    requires p <= |text|
    ensures p <= b <= |text| && !WordIn(text, b) && forall i :: p <= i < b ==> WordIn(text, i)
    decreases |text| - p
  {
    if WordIn(text, p) then WordEnd(text, p + 1) else p
  }

  function WordBegin(text: Text, p: nat): (a: nat)
    requires p <= |text|
    ensures a <= p && !WordIn(text, a - 1) && forall i :: a <= i < p ==> WordIn(text, i)
  {
    if WordIn(text, p - 1) then WordBegin(text, p - 1) else p
  }

  // \b: exactly the two ends of each word; \B: everywhere else.
  lemma WordBoundaryIs(text: Text, p: nat)
    requires p <= |text|
    ensures Holds(WordBoundary, text, p) <==> AtWordEdge(text, p)
    ensures Holds(NoWordBoundary, text, p) <==> !AtWordEdge(text, p)
  {
    if 0 < p {
      WordBytes(text[p - 1]);
    }
    if p < |text| {
      WordBytes(text[p]);
    }
    if WordIn(text, p) && !WordIn(text, p - 1) {
      assert IsWholeWord(text, p, WordEnd(text, p));
    }
    if WordIn(text, p - 1) && !WordIn(text, p) {
      assert IsWholeWord(text, WordBegin(text, p), p);
    }
  }

  // ---- The ends of the text ----

  lemma TextEndsAre(text: Text, p: nat)
    requires p <= |text|
    ensures Holds(BeginText, text, p) <==> text[..p] == []
    ensures Holds(EndText, text, p) <==> text[p..] == []
  {
  }

  // ---- All of them ----

  ghost predicate Stands(what: Assertion, text: Text, p: nat)
    requires p <= |text|
  {
    match what
    case BeginLine => StartsLine(text, p)
    case EndLine => EndsLine(text, p)
    case BeginText => text[..p] == []
    case EndText => text[p..] == []
    case WordBoundary => AtWordEdge(text, p)
    case NoWordBoundary => !AtWordEdge(text, p)
  }

  lemma HoldsIsStands(what: Assertion, text: Text, p: nat)
    requires p <= |text|
    ensures Holds(what, text, p) <==> Stands(what, text, p)
  {
    BeginLineIs(text, p);
    EndLineIs(text, p);
    WordBoundaryIs(text, p);
    TextEndsAre(text, p);
  }

  // ---- Read backwards ----

  function Backwards(text: Text): (back: Text)
    ensures |back| == |text| && forall i :: 0 <= i < |text| ==> back[i] == text[|text| - 1 - i]
  {
    if text == [] then [] else Backwards(text[1..]) + [text[0]]
  }

  function Mirror(what: Assertion): Assertion {
    match what
    case BeginLine => EndLine
    case EndLine => BeginLine
    case BeginText => EndText
    case EndText => BeginText
    case _ => what
  }

  // An assertion at a place is its mirror at the same place of the text read backwards.
  lemma HoldsBackwards(what: Assertion, text: Text, p: nat)
    requires p <= |text|
    ensures Holds(what, text, p) <==> Holds(Mirror(what), Backwards(text), |text| - p)
  {
    var back, q := Backwards(text), |text| - p;
    assert p < |text| ==> back[q - 1] == text[p];
    assert p > 0 ==> back[q] == text[p - 1];
  }

  // ---- Case folding ----

  function LowerCase(r: nat): nat {
    if 'A' as int <= r <= 'Z' as int then r - 'A' as int + 'a' as int else r
  }

  predicate IsLetter(r: nat) {
    'A' as int <= r <= 'Z' as int || 'a' as int <= r <= 'z' as int
  }

  // The other case of an ASCII letter; any other rune is its own.
  lemma FoldLaws(r: nat, s: nat)
    ensures FoldRune(FoldRune(r)) == r && (FoldRune(r) != r <==> IsLetter(r))
    ensures r == s || FoldRune(r) == s <==> LowerCase(r) == LowerCase(s)
  {
  }
}
