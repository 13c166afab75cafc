/**
 The Aho-Corasick automaton.

 BuildTrie makes one node per prefix of a literal; BuildAC completes the rows breadth first, a missing byte
 taking the failure node's row, and adds the failure node's outputs. Complete says what the finished automaton
 is: each row leads to the longest known suffix and each node lists the literals that end its word. WalkExact
 and EndsAtWalk conclude that a walk over any text reports exactly the literals that end at each position.
 */
module AhoCorasick {

  const BYTES := 256

  type Word = seq<nat>

  // The nodes, a field at a time: next[n][b] is -1 while there is no edge.
  datatype Automaton = Automaton(next: seq<seq<int>>, failure: seq<nat>, output: seq<seq<nat>>)

  // ---- Suffixes ----

  predicate IsSuffix(u: Word, w: Word) {
    |u| <= |w| && w[|w| - |u|..] == u
  }

  predicate IsPrefix(u: Word, w: Word) {
    |u| <= |w| && w[..|u|] == u
  }

  lemma SuffixOfTail(u: Word, w: Word)
    requires w != []
    ensures IsSuffix(u, w) <==> u == w || IsSuffix(u, w[1..])
  {
    if |u| < |w| {
      assert w[|w| - |u|..] == w[1..][|w| - 1 - |u|..];
    } else if |u| == |w| {
      assert w[0..] == w;
    }
  }

  lemma SuffixOfSuffix(u: Word, v: Word, w: Word)
    requires IsSuffix(v, w)
    ensures IsSuffix(u, v) ==> IsSuffix(u, w)
    ensures IsSuffix(u, w) && |u| <= |v| ==> IsSuffix(u, v)
  {
    if |u| <= |v| {
      assert v[|v| - |u|..] == w[|w| - |u|..];
    }
  }

  // The words of a trie: the empty one, and every known word's prefixes.
  ghost predicate PrefixClosed(words: seq<Word>) {
    [] in words && forall u {:trigger ParentKnown(words, u)} :: u in words ==> ParentKnown(words, u)
  }

  ghost predicate ParentKnown(words: seq<Word>, u: Word) {
    u != [] ==> u[..|u| - 1] in words
  }

  lemma ParentFirst(words: seq<Word>, u: Word, c: nat)
    requires PrefixClosed(words) && u !in words
    ensures u + [c] !in words
  {
    assert (u + [c])[..|u + [c]| - 1] == u;
    assert u + [c] in words ==> ParentKnown(words, u + [c]);
  }

  // The longest suffix of w that is a known word.
  ghost function Longest(w: Word, words: seq<Word>): (u: Word)
    requires [] in words
    ensures u in words && IsSuffix(u, w)
    decreases |w|
  {
    if w in words then
      assert w[0..] == w;
      w
    else
      var u := Longest(w[1..], words);
      SuffixOfTail(u, w);
      u
  }

  lemma {:induction false} LongestIsLongest(w: Word, words: seq<Word>, u: Word)
    requires [] in words && u in words && IsSuffix(u, w)
    ensures IsSuffix(u, Longest(w, words))
    decreases |w|
  {
    if w !in words {
      SuffixOfTail(u, w);
      LongestIsLongest(w[1..], words, u);
    }
  }

  // One more byte: the longest suffix can only grow out of the one before.
  lemma {:induction false} LongestStep(w: Word, b: nat, words: seq<Word>)
    requires PrefixClosed(words)
    ensures Longest(w + [b], words) == Longest(Longest(w, words) + [b], words)
    decreases |w|
  {
    if w !in words {
      ParentFirst(words, w, b);
      assert (w + [b])[1..] == w[1..] + [b];
      LongestStep(w[1..], b, words);
    }
  }

  // ---- The trie ----

  ghost predicate Distinct<T>(s: seq<T>) {
    forall i, j :: 0 <= i < j < |s| ==> s[i] != s[j]
  }

  // No two nodes stand for one word.
  ghost predicate OneEach(words: seq<Word>) {
    forall i, j {:trigger Twins(words, i, j)} :: 0 <= i < |words| && 0 <= j < |words| && Twins(words, i, j) ==> i == j
  }

  ghost predicate Twins(words: seq<Word>, i: nat, j: nat)
    requires i < |words| && j < |words|
  {
    words[i] == words[j]
  }

  // Node n stands for words[n]; an edge adds its byte, and there is one wherever the longer word is known.
  ghost predicate EdgesOk(next: seq<seq<int>>, words: seq<Word>) {
    && |next| == |words| && (forall n :: 0 <= n < |next| ==> |next[n]| == BYTES)
    && (forall n, b :: 0 <= n < |next| && 0 <= b < BYTES ==> EdgeOk(next[n][b], words, n, b))
  }

  ghost predicate EdgeOk(m: int, words: seq<Word>, n: nat, b: nat)
    requires n < |words|
  {
    if m == -1 then words[n] + [b] !in words else 0 <= m < |words| && words[m] == words[n] + [b]
  }

  // The literals a word spells, by id.
  function Spelt(lits: seq<Word>, u: Word, k: nat): (ids: seq<nat>)
    requires k <= |lits|
    ensures forall i: nat :: i in ids <==> i < k && lits[i] == u
  {
    if k == 0 then [] else Spelt(lits, u, k - 1) + if lits[k - 1] == u then [k - 1] else []
  }

  // The known words are exactly the prefixes of the literals: all of the first k, only of the first most.
  ghost predicate Words(words: seq<Word>, lits: seq<Word>, k: nat, most: nat)
    requires k <= |lits| && most <= |lits|
  {
    && |words| > 0 && words[0] == [] && OneEach(words) && PrefixClosed(words)
    && (forall i :: 0 <= i < k ==> lits[i] in words)
    && (forall n :: 0 <= n < |words| && words[n] != [] ==> IsPrefixOfSome(words[n], lits, most))
  }

  ghost predicate IsPrefixOfSome(u: Word, lits: seq<Word>, most: nat)
    requires most <= |lits|
  {
    exists i :: 0 <= i < most && IsPrefix(u, lits[i])
  }

  ghost predicate Outputs(output: seq<seq<nat>>, words: seq<Word>, lits: seq<Word>, k: nat)
    requires k <= |lits|
  {
    |output| == |words| && forall n :: 0 <= n < |output| ==> output[n] == Spelt(lits, words[n], k)
  }

  ghost predicate Trie(a: Automaton, words: seq<Word>, lits: seq<Word>, k: nat, most: nat)
    requires k <= |lits| && most <= |lits|
  {
    && EdgesOk(a.next, words) && Words(words, lits, k, most) && Outputs(a.output, words, lits, k)
    && |a.failure| == |words| && forall n :: 0 <= n < |a.failure| ==> a.failure[n] == 0
  }

  // ---- Growing it ----

  function NoEdges(): (row: seq<int>)
    ensures |row| == BYTES && forall b :: 0 <= b < BYTES ==> row[b] == -1
  {
    seq(BYTES, _ => -1)
  }

  function WithEdge(next: seq<seq<int>>, cur: nat, b: nat): seq<seq<int>>
    requires cur < |next| && b < |next[cur]|
  {
    next[cur := next[cur][b := |next|]] + [NoEdges()]
  }

  lemma NothingBelow(words: seq<Word>, u: Word, c: nat)
    requires PrefixClosed(words) && u !in words
    ensures u + [c] !in words + [u]
  {
    ParentFirst(words, u, c);
    assert |u + [c]| != |u|;
  }

  lemma SameEdge(words: seq<Word>, n: nat, c: nat, cur: nat, b: nat)
    requires OneEach(words) && n < |words| && cur < |words| && words[n] + [c] == words[cur] + [b]
    ensures n == cur && c == b
  {
    assert words[n] == (words[n] + [c])[..|words[n]|] && words[cur] == (words[cur] + [b])[..|words[cur]|];
    assert Twins(words, n, cur);
    assert c == (words[n] + [c])[|words[n]|] && b == (words[cur] + [b])[|words[cur]|];
  }

  lemma GrowEdge(m: int, words: seq<Word>, n: nat, c: nat, cur: nat, b: nat)
    requires OneEach(words) && n < |words| && cur < |words| && EdgeOk(m, words, n, c) && (n != cur || c != b)
    ensures EdgeOk(m, words + [words[cur] + [b]], n, c)
  {
    if words[n] + [c] == words[cur] + [b] {
      SameEdge(words, n, c, cur, b);
      assert false;
    }
  }

  lemma GrowEdges(next: seq<seq<int>>, words: seq<Word>, cur: nat, b: nat)
    requires EdgesOk(next, words) && OneEach(words) && PrefixClosed(words) && cur < |next| && b < BYTES
    requires words[cur] + [b] !in words
    ensures EdgesOk(WithEdge(next, cur, b), words + [words[cur] + [b]])
  {
    var next', words', u := WithEdge(next, cur, b), words + [words[cur] + [b]], words[cur] + [b];
    forall n, c | 0 <= n < |next'| && 0 <= c < BYTES ensures EdgeOk(next'[n][c], words', n, c) {
      if n == |next| {
        NothingBelow(words, u, c);
      } else if n != cur || c != b {
        assert next'[n][c] == next[n][c];
        GrowEdge(next[n][c], words, n, c, cur, b);
      }
    }
  }

  lemma GrowWords(words: seq<Word>, lits: seq<Word>, k: nat, cur: nat, b: nat, u: Word)
    requires k < |lits| && Words(words, lits, k, k + 1) && cur < |words| && u == words[cur] + [b] && u !in words
    requires IsPrefix(u, lits[k])
    ensures Words(words + [u], lits, k, k + 1)
  {
    var words' := words + [u];
    assert u[..|u| - 1] == words[cur];
    forall v | v in words' ensures ParentKnown(words', v) {
      if v != u {
        assert v in words && ParentKnown(words, v);
      }
    }
    forall n | 0 <= n < |words'| && words'[n] != [] ensures IsPrefixOfSome(words'[n], lits, k + 1) {
      if n < |words| {
        assert IsPrefixOfSome(words[n], lits, k + 1);
      }
    }
    OneMoreWord(words, u);
  }

  lemma OneMoreWord(words: seq<Word>, u: Word)
    requires OneEach(words) && u !in words
    ensures OneEach(words + [u])
  {
    var words' := words + [u];
    forall i, j | 0 <= i < |words'| && 0 <= j < |words'| && Twins(words', i, j) ensures i == j {
      if i < |words| && j < |words| {
        assert Twins(words, i, j);
      }
    }
  }

  lemma {:induction false} NoneSpelt(lits: seq<Word>, u: Word, k: nat)
    requires k <= |lits| && forall i :: 0 <= i < k ==> lits[i] != u
    ensures Spelt(lits, u, k) == []
  {
    if k > 0 {
      NoneSpelt(lits, u, k - 1);
    }
  }

  lemma GrowOutputs(output: seq<seq<nat>>, words: seq<Word>, lits: seq<Word>, k: nat, u: Word)
    requires k <= |lits| && Outputs(output, words, lits, k) && forall i :: 0 <= i < k ==> lits[i] != u
    ensures Outputs(output + [[]], words + [u], lits, k)
  {
    NoneSpelt(lits, u, k);
  }

  ghost predicate AllBytes(lits: seq<Word>) {
    forall i, j :: 0 <= i < |lits| && 0 <= j < |lits[i]| ==> lits[i][j] < BYTES
  }

  // One byte of a literal: along its edge, made when missing.
  method Step(a0: Automaton, cur0: nat, b: nat, ghost words0: seq<Word>, ghost lits: seq<Word>, ghost k: nat)
    returns (a: Automaton, cur: nat, ghost words: seq<Word>)
    requires k < |lits| && Trie(a0, words0, lits, k, k + 1) && cur0 < |a0.next| && b < BYTES
    requires IsPrefix(words0[cur0] + [b], lits[k])
    ensures Trie(a, words, lits, k, k + 1) && cur < |a.next| && words[cur] == words0[cur0] + [b]
  {
    a, words := a0, words0;
    assert EdgeOk(a.next[cur0][b], words, cur0, b);
    if a.next[cur0][b] >= 0 {
      cur := a.next[cur0][b];
      return;
    }
    ghost var u := words[cur0] + [b];
    GrowEdges(a.next, words, cur0, b);
    GrowWords(words, lits, k, cur0, b, u);
    GrowOutputs(a.output, words, lits, k, u);
    cur := |a.next|;
    a := Automaton(WithEdge(a.next, cur0, b), a.failure + [0], a.output + [[]]);
    words := words + [u];
  }

  lemma MoreWords(words: seq<Word>, lits: seq<Word>, k: nat)
    requires k < |lits| && Words(words, lits, k, k)
    ensures Words(words, lits, k, k + 1)
  {
    forall n | 0 <= n < |words| && words[n] != [] ensures IsPrefixOfSome(words[n], lits, k + 1) {
      assert IsPrefixOfSome(words[n], lits, k);
    }
  }

  lemma EndLiteral(output: seq<seq<nat>>, words: seq<Word>, lits: seq<Word>, k: nat, cur: nat)
    requires k < |lits| && OneEach(words) && Outputs(output, words, lits, k) && cur < |words| && words[cur] == lits[k]
    ensures Outputs(output[cur := output[cur] + [k]], words, lits, k + 1)
  {
    forall n | 0 <= n < |output| ensures output[cur := output[cur] + [k]][n] == Spelt(lits, words[n], k + 1) {
      assert Twins(words, n, cur) ==> n == cur;
    }
  }

  lemma EndTrie(a: Automaton, words: seq<Word>, lits: seq<Word>, k: nat, cur: nat)
    requires k < |lits| && Trie(a, words, lits, k, k + 1) && cur < |words| && words[cur] == lits[k]
    ensures Trie(a.(output := a.output[cur := a.output[cur] + [k]]), words, lits, k + 1, k + 1)
  {
    EndLiteral(a.output, words, lits, k, cur);
    EndWords(words, lits, k, cur);
  }

  lemma EndWords(words: seq<Word>, lits: seq<Word>, k: nat, cur: nat)
    requires k < |lits| && Words(words, lits, k, k + 1) && cur < |words| && words[cur] == lits[k]
    ensures Words(words, lits, k + 1, k + 1)
  {
  }

  lemma NextPrefix(lit: Word, j: nat)
    requires j < |lit|
    ensures lit[..j + 1] == lit[..j] + [lit[j]] && IsPrefix(lit[..j] + [lit[j]], lit)
  {
    assert lit[..j + 1] == lit[..j] + [lit[j]];
  }

  // The node a literal's bytes lead to.
  method Descend(a0: Automaton, lit: Word, ghost lits: seq<Word>, ghost k: nat, ghost words0: seq<Word>)
    returns (a: Automaton, cur: nat, ghost words: seq<Word>)
    requires k < |lits| && lit == lits[k] && AllBytes(lits) && Trie(a0, words0, lits, k, k + 1)
    ensures Trie(a, words, lits, k, k + 1) && cur < |words| && words[cur] == lit
  {
    a, cur, words := a0, 0, words0;
    for j := 0 to |lit|
      invariant Trie(a, words, lits, k, k + 1) && cur < |words| && words[cur] == lit[..j]
    {
      NextPrefix(lit, j);
      assert lits[k][j] < BYTES;
      a, cur, words := Step(a, cur, lit[j], words, lits, k);
    }
    assert lit[..|lit|] == lit;
  }

  method AddLiteral(a0: Automaton, lits: seq<Word>, k: nat, ghost words0: seq<Word>)
    returns (a: Automaton, ghost words: seq<Word>)
    requires k < |lits| && AllBytes(lits) && Trie(a0, words0, lits, k, k)
    ensures Trie(a, words, lits, k + 1, k + 1)
  {
    MoreWords(words0, lits, k);
    var cur;
    a, cur, words := Descend(a0, lits[k], lits, k, words0);
    EndTrie(a, words, lits, k, cur);
    a := a.(output := a.output[cur := a.output[cur] + [k]]);
  }

  // The whole goto trie.
  method BuildTrie(lits: seq<Word>) returns (a: Automaton, ghost words: seq<Word>)
    requires AllBytes(lits)
    ensures Trie(a, words, lits, |lits|, |lits|)
  {
    a, words := Automaton([NoEdges()], [0], [[]]), [[]];
    for k := 0 to |lits|
      invariant Trie(a, words, lits, k, k)
    {
      a, words := AddLiteral(a, lits, k, words);
    }
  }

  // ---- Completion, breadth first ----

  // The node an input byte leads to, once a row is complete.
  ghost predicate StepOk(m: int, words: seq<Word>, n: nat, b: nat)
    requires n < |words| && [] in words
  {
    0 <= m < |words| && words[m] == Longest(words[n] + [b], words)
  }

  ghost predicate RowDone(row: seq<int>, words: seq<Word>, n: nat)
    requires n < |words| && [] in words
  {
    |row| == BYTES && forall b :: 0 <= b < BYTES ==> StepOk(row[b], words, n, b)
  }

  ghost predicate RowTrie(row: seq<int>, words: seq<Word>, n: nat)
    requires n < |words|
  {
    |row| == BYTES && forall b :: 0 <= b < BYTES ==> EdgeOk(row[b], words, n, b)
  }

  ghost predicate FailureOk(f: nat, words: seq<Word>, n: nat)
    requires n < |words| && words[n] != [] && [] in words
  {
    f < |words| && words[f] == Longest(words[n][1..], words)
  }

  // Exactly the literals that end w, each once.
  ghost predicate Exact(ids: seq<nat>, lits: seq<Word>, w: Word) {
    (forall i: nat :: i in ids <==> i < |lits| && IsSuffix(lits[i], w)) && Distinct(ids)
  }

  ghost predicate NoneEmpty(lits: seq<Word>) {
    forall i :: 0 <= i < |lits| ==> lits[i] != []
  }

  lemma {:induction false} SpeltDistinct(lits: seq<Word>, u: Word, k: nat)
    requires k <= |lits|
    ensures Distinct(Spelt(lits, u, k))
  {
    if k > 0 {
      SpeltDistinct(lits, u, k - 1);
    }
  }

  // A literal ends w when it is w, or ends the longest known proper suffix.
  lemma EndsHereOrThere(words: seq<Word>, lit: Word, w: Word)
    requires [] in words && w != [] && lit in words
    ensures IsSuffix(lit, w) <==> lit == w || IsSuffix(lit, Longest(w[1..], words))
  {
    SuffixOfTail(lit, w);
    if IsSuffix(lit, w[1..]) {
      LongestIsLongest(w[1..], words, lit);
    } else {
      SuffixOfSuffix(lit, Longest(w[1..], words), w[1..]);
    }
  }

  lemma Concat(own: seq<nat>, out: seq<nat>)
    requires Distinct(own) && Distinct(out) && forall i: nat :: i in own ==> i !in out
    ensures Distinct(own + out) && forall i: nat :: i in own + out <==> i in own || i in out
  {
    var all := own + out;
    forall i, j | 0 <= i < j < |all| ensures all[i] != all[j] {
      assert i < |own| ==> all[i] in own;
      assert j >= |own| ==> all[j] in out;
    }
  }

  // A node's literals are its own and its failure's.
  lemma JoinOutputs(lits: seq<Word>, words: seq<Word>, w: Word, out: seq<nat>)
    requires [] in words && w != [] && (forall i :: 0 <= i < |lits| ==> lits[i] in words)
    requires Exact(out, lits, Longest(w[1..], words))
    ensures Exact(Spelt(lits, w, |lits|) + out, lits, w)
  {
    var own := Spelt(lits, w, |lits|);
    SpeltDistinct(lits, w, |lits|);
    forall i: nat | i in own ensures i !in out {
      assert lits[i] == w && |Longest(w[1..], words)| < |w|;
    }
    Concat(own, out);
    forall i: nat | i < |lits| ensures i in own || i in out <==> IsSuffix(lits[i], w) {
      EndsHereOrThere(words, lits[i], w);
    }
  }

  lemma OneByteOutputs(lits: seq<Word>, w: Word)
    requires |w| == 1 && NoneEmpty(lits)
    ensures Exact(Spelt(lits, w, |lits|), lits, w)
  {
    SpeltDistinct(lits, w, |lits|);
    forall i: nat | i < |lits| ensures IsSuffix(lits[i], w) <==> lits[i] == w {
      SuffixOfTail(lits[i], w);
    }
  }

  // The row of a node whose failure's row is complete: where there is no edge, the failure's own step.
  lemma FailureStep(words: seq<Word>, n: nat, f: nat, b: nat, m: int)
    requires PrefixClosed(words) && n < |words| && words[n] != [] && FailureOk(f, words, n) && StepOk(m, words, f, b)
    ensures 0 <= m < |words| && words[m] == Longest((words[n] + [b])[1..], words)
    ensures words[n] + [b] !in words ==> StepOk(m, words, n, b)
  {
    FailureWord(words, words[n], b);
  }

  lemma FailureWord(words: seq<Word>, w: Word, b: nat)
    requires PrefixClosed(words) && w != []
    ensures Longest((w + [b])[1..], words) == Longest(Longest(w[1..], words) + [b], words)
    ensures w + [b] !in words ==> Longest(w + [b], words) == Longest((w + [b])[1..], words)
  {
    assert (w + [b])[1..] == w[1..] + [b];
    LongestStep(w[1..], b, words);
  }

  // ---- The search's state ----

  // What is known of a discovered node: its failure and its whole output.
  ghost predicate Found(a: Automaton, words: seq<Word>, lits: seq<Word>, n: nat)
    requires n < |words| == |a.failure| == |a.output| && [] in words
  {
    words[n] != [] && FailureOk(a.failure[n], words, n) && Exact(a.output[n], lits, words[n])
  }

  ghost predicate ChildOf(words: seq<Word>, t: nat, s: nat) {
    t < |words| && s < |words| && words[t] != [] && words[t][..|words[t]| - 1] == words[s]
  }

  ghost predicate Shaped(a: Automaton, words: seq<Word>) {
    && |a.next| == |a.failure| == |a.output| == |words| && |words| > 0 && words[0] == [] && OneEach(words)
    && PrefixClosed(words)
    && (forall n :: 0 <= n < |words| ==> |a.next[n]| == BYTES)
    && forall n :: 0 <= n < |words| && words[n] != [] ==> words[n][|words[n]| - 1] < BYTES
  }

  // order holds the discovered nodes but the root, in the order they were queued; the first head of them are done.
  ghost predicate Searching(a: Automaton, words: seq<Word>, lits: seq<Word>, order: seq<nat>, head: nat) {
    && Shaped(a, words) && head <= |order| && Distinct(order)
    && (forall n :: n in order ==> 0 < n < |words| && Found(a, words, lits, n))
    && (forall n :: 0 <= n < |words| ==> RowOk(a.next[n], words, IsDone(order, head, n), n))
    && (forall n :: 0 <= n < |words| && n !in order ==> a.output[n] == Spelt(lits, words[n], |lits|))
    && ByDepth(words, order, head)
    && (forall t, s :: ChildOf(words, t, s) ==> (t in order <==> IsDone(order, head, s)))
  }

  // A done node's row is complete, any other's is the trie's.
  ghost predicate RowOk(row: seq<int>, words: seq<Word>, done: bool, n: nat)
    requires n < |words| && [] in words
  {
    if done then RowDone(row, words, n) else RowTrie(row, words, n)
  }

  predicate IsDone(order: seq<nat>, head: nat, n: nat)
    requires head <= |order|
  {
    n == 0 || n in order[..head]
  }

  ghost predicate ByDepth(words: seq<Word>, order: seq<nat>, head: nat)
    requires head <= |order|
  {
    && (forall i :: 0 <= i < |order| ==> order[i] < |words|)
    && (forall i, j :: 0 <= i < j < |order| ==> |words[order[i]]| <= |words[order[j]]|)
    && (head < |order| ==> forall j :: 0 <= j < |order| ==> |words[order[j]]| <= |words[order[head]]| + 1)
  }

  lemma Parent(words: seq<Word>, n: nat) returns (p: nat)
    requires PrefixClosed(words) && n < |words| && words[n] != []
    ensures ChildOf(words, n, p)
  {
    assert ParentKnown(words, words[n]);
    p :| 0 <= p < |words| && words[p] == words[n][..|words[n]| - 1];
  }

  // Everything shallower than the next node is done, and everything as shallow is discovered.
  lemma {:induction false} Shallow(a: Automaton, words: seq<Word>, lits: seq<Word>, order: seq<nat>, head: nat, n: nat)
    requires Searching(a, words, lits, order, head) && head < |order| && n < |words|
    requires |words[n]| <= |words[order[head]]|
    ensures n == 0 || n in order
    ensures |words[n]| < |words[order[head]]| ==> IsDone(order, head, n)
    decreases |words[n]|
  {
    if words[n] == [] {
      assert Twins(words, n, 0);
    } else {
      var p := Parent(words, n);
      Shallow(a, words, lits, order, head, p);
      assert n in order;
      var k :| 0 <= k < |order| && order[k] == n;
      if |words[n]| < |words[order[head]]| {
        assert k < head;
        assert order[..head][k] == n;
      }
    }
  }

  // ---- One node's row ----

  // The row of s up to byte b, every other row as it was.
  ghost predicate RowPart(next0: seq<seq<int>>, next: seq<seq<int>>, words: seq<Word>, s: nat, b: nat)
    requires s < |words| && [] in words
  {
    && |next0| == |next| == |words| && |next0[s]| == |next[s]| == BYTES
    && (forall n :: 0 <= n < |words| && n != s ==> next[n] == next0[n])
    && (forall c :: 0 <= c < BYTES ==> if c < b then StepOk(next[s][c], words, s, c) else next[s][c] == next0[s][c])
  }

  // The children found on the way, one for each edge.
  ghost predicate Kids(row0: seq<int>, words: seq<Word>, s: nat, b: nat, kids: seq<nat>) {
    && Distinct(kids) && |row0| == BYTES
    && (forall t :: t in kids ==> ChildOf(words, t, s) && words[t][|words[t]| - 1] < b)
    && (forall c :: 0 <= c < b && c < BYTES && row0[c] >= 0 ==> row0[c] in kids)
  }

  // The children's failures and outputs are settled, nothing else has changed.
  ghost predicate Settled(a0: Automaton, a: Automaton, words: seq<Word>, lits: seq<Word>, kids: seq<nat>)
    requires [] in words
  {
    && |a0.failure| == |a0.output| == |a.failure| == |a.output| == |words|
    && (forall n :: 0 <= n < |words| && n !in kids ==> a.failure[n] == a0.failure[n] && a.output[n] == a0.output[n])
    && (forall t :: t in kids ==> t < |words| && Found(a, words, lits, t))
  }

  ghost predicate InRow(a0: Automaton, a: Automaton, words: seq<Word>, lits: seq<Word>, s: nat, b: nat, kids: seq<nat>)
    requires s < |words| && [] in words
  {
    RowPart(a0.next, a.next, words, s, b) && Kids(a0.next[s], words, s, b, kids) && Settled(a0, a, words, lits, kids)
  }

  // What the row of s rests on: its failure's row, and the outputs of every node as shallow as it.
  ghost predicate RowReady(a0: Automaton, words: seq<Word>, lits: seq<Word>, s: nat, f: nat)
    requires s < |words| && [] in words && PrefixClosed(words) && |a0.next| == |a0.output| == |words|
  {
    && words[s] != [] && FailureOk(f, words, s) && RowDone(a0.next[f], words, f) && f != s
    && RowTrie(a0.next[s], words, s)
    && (forall i :: 0 <= i < |lits| ==> lits[i] in words)
    && (forall n :: 0 <= n < |words| && |words[n]| <= |words[s]| ==> Exact(a0.output[n], lits, words[n]))
    && (forall t: nat :: ChildOf(words, t, s) ==> a0.output[t] == Spelt(lits, words[t], |lits|))
  }

  lemma RowSet(next0: seq<seq<int>>, next: seq<seq<int>>, words: seq<Word>, s: nat, b: nat, m: int)
    requires s < |words| && [] in words && b < BYTES && RowPart(next0, next, words, s, b) && StepOk(m, words, s, b)
    ensures RowPart(next0, next[s := next[s][b := m]], words, s, b + 1)
  {
  }

  lemma RowKeep(next0: seq<seq<int>>, next: seq<seq<int>>, words: seq<Word>, s: nat, b: nat)
    requires s < |words| && [] in words && b < BYTES && RowPart(next0, next, words, s, b)
    requires StepOk(next0[s][b], words, s, b)
    ensures RowPart(next0, next, words, s, b + 1)
  {
  }

  lemma KidsNone(row0: seq<int>, words: seq<Word>, s: nat, b: nat, kids: seq<nat>)
    requires Kids(row0, words, s, b, kids) && b < BYTES && row0[b] < 0
    ensures Kids(row0, words, s, b + 1, kids)
  {
  }

  lemma KidsMore(row0: seq<int>, words: seq<Word>, s: nat, b: nat, kids: seq<nat>, t: nat)
    requires Kids(row0, words, s, b, kids) && b < BYTES && row0[b] == t && ChildOf(words, t, s)
    requires words[t][|words[t]| - 1] == b
    ensures t !in kids && Kids(row0, words, s, b + 1, kids + [t])
  {
    var kids' := kids + [t];
    forall u | u in kids' ensures ChildOf(words, u, s) && words[u][|words[u]| - 1] < b + 1 {
      assert u in kids || u == t;
    }
    forall i, j | 0 <= i < j < |kids'| ensures kids'[i] != kids'[j] {
      assert kids'[i] in kids;
    }
  }

  lemma FoundSame(a: Automaton, a': Automaton, words: seq<Word>, lits: seq<Word>, u: nat)
    requires u < |words| == |a.failure| == |a.output| == |a'.failure| == |a'.output| && [] in words
    requires Found(a, words, lits, u)
    requires a'.failure[u] == a.failure[u] && a'.output[u] == a.output[u]
    ensures Found(a', words, lits, u)
  {
  }

  lemma SettleMore(a0: Automaton, a: Automaton, words: seq<Word>, lits: seq<Word>, kids: seq<nat>, t: nat, f: nat,
                   out: seq<nat>)
    requires [] in words && Settled(a0, a, words, lits, kids) && t < |words| && t !in kids && words[t] != []
    requires FailureOk(f, words, t) && Exact(out, lits, words[t])
    ensures Settled(a0, a.(failure := a.failure[t := f], output := a.output[t := out]), words, lits, kids + [t])
  {
    var a' := a.(failure := a.failure[t := f], output := a.output[t := out]);
    forall u | u in kids + [t] ensures u < |words| && Found(a', words, lits, u) {
      if u == t {
        assert a'.failure[u] == f && a'.output[u] == out;
      } else {
        FoundSame(a, a', words, lits, u);
      }
    }
  }

  // The edge on a byte leads to a child whose step is itself.
  lemma EdgeKid(words: seq<Word>, s: nat, b: nat, t: nat)
    requires s < |words| && t < |words| && [] in words && words[t] == words[s] + [b]
    ensures ChildOf(words, t, s) && words[t][|words[t]| - 1] == b && StepOk(t, words, s, b)
    ensures |words[t][1..]| == |words[s]|
  {
    assert words[t][..|words[t]| - 1] == words[s];
  }

  // Its failure and its output.
  lemma KidOutput(a0: Automaton, words: seq<Word>, lits: seq<Word>, s: nat, f: nat, b: nat, t: nat)
    requires s < |words| && t < |words| && [] in words && PrefixClosed(words) && |a0.next| == |a0.output| == |words|
    requires RowReady(a0, words, lits, s, f) && b < BYTES && words[t] == words[s] + [b]
    ensures var g := a0.next[f][b];
            && 0 <= g < |words| && FailureOk(g, words, t) && |words[g]| <= |words[s]| && g != t
            && Exact(a0.output[t] + a0.output[g], lits, words[t])
  {
    assert StepOk(a0.next[f][b], words, f, b);
    FailureStep(words, s, f, b, a0.next[f][b]);
    EdgeKid(words, s, b, t);
    JoinOutputs(lits, words, words[t], a0.output[a0.next[f][b]]);
  }

  // A node as shallow as s is none of its children.
  lemma NoKid(row0: seq<int>, words: seq<Word>, s: nat, b: nat, kids: seq<nat>, g: nat)
    requires Kids(row0, words, s, b, kids) && s < |words| && g < |words| && |words[g]| <= |words[s]|
    ensures g !in kids
  {
  }

  // A byte without an edge takes the failure's step.
  lemma MissingByte(a0: Automaton, a: Automaton, words: seq<Word>, lits: seq<Word>, s: nat, f: nat, b: nat,
                    kids: seq<nat>)
    requires s < |words| && [] in words && PrefixClosed(words) && |a0.next| == |a0.output| == |words| && b < BYTES
    requires RowReady(a0, words, lits, s, f) && InRow(a0, a, words, lits, s, b, kids) && a0.next[s][b] < 0
    ensures InRow(a0, a.(next := a.next[s := a.next[s][b := a0.next[f][b]]]), words, lits, s, b + 1, kids)
  {
    MissingStep(a0, words, lits, s, f, b);
    RowSet(a0.next, a.next, words, s, b, a0.next[f][b]);
    KidsNone(a0.next[s], words, s, b, kids);
    SettledSame(a0, a, a.(next := a.next[s := a.next[s][b := a0.next[f][b]]]), words, lits, kids);
  }

  lemma SettledSame(a0: Automaton, a: Automaton, a': Automaton, words: seq<Word>, lits: seq<Word>, kids: seq<nat>)
    requires [] in words && Settled(a0, a, words, lits, kids) && a'.failure == a.failure && a'.output == a.output
    ensures Settled(a0, a', words, lits, kids)
  {
    forall t | t in kids ensures t < |words| && Found(a', words, lits, t) {
      FoundSame(a, a', words, lits, t);
    }
  }

  lemma MissingStep(a0: Automaton, words: seq<Word>, lits: seq<Word>, s: nat, f: nat, b: nat)
    requires s < |words| && [] in words && PrefixClosed(words) && |a0.next| == |a0.output| == |words| && b < BYTES
    requires RowReady(a0, words, lits, s, f) && a0.next[s][b] < 0
    ensures StepOk(a0.next[f][b], words, s, b)
  {
    assert EdgeOk(a0.next[s][b], words, s, b) && StepOk(a0.next[f][b], words, f, b);
    FailureStep(words, s, f, b, a0.next[f][b]);
  }

  // A byte with an edge discovers its child.
  lemma KidByte(a0: Automaton, a: Automaton, words: seq<Word>, lits: seq<Word>, s: nat, f: nat, b: nat,
                kids: seq<nat>, t: nat, g: nat)
    requires s < |words| && [] in words && PrefixClosed(words) && |a0.next| == |a0.output| == |words| && b < BYTES
    requires RowReady(a0, words, lits, s, f) && InRow(a0, a, words, lits, s, b, kids) && t == a0.next[s][b]
    requires a0.next[f][b] == g
    ensures t < |words| && g < |words|
    ensures InRow(a0, a.(failure := a.failure[t := g], output := a.output[t := a.output[t] + a.output[g]]), words,
            lits, s, b + 1, kids + [t])
  {
    assert EdgeOk(t, words, s, b);
    EdgeKid(words, s, b, t);
    RowKeep(a0.next, a.next, words, s, b);
    KidsMore(a0.next[s], words, s, b, kids, t);
    KidOutput(a0, words, lits, s, f, b, t);
    NoKid(a0.next[s], words, s, b, kids, g);
    SettleMore(a0, a, words, lits, kids, t, g, a.output[t] + a.output[g]);
  }

  lemma RowBounds(a0: Automaton, a1: Automaton, words: seq<Word>, lits: seq<Word>, s: nat, f: nat, b: nat)
    requires s < |words| && [] in words && PrefixClosed(words) && |a0.next| == |a0.output| == |words| && b < BYTES
    requires RowReady(a0, words, lits, s, f) && RowPart(a0.next, a1.next, words, s, b)
    ensures f < |a1.next| && |a1.next[f]| == |a1.next[s]| == BYTES && a1.next[f][b] == a0.next[f][b]
    ensures a1.next[s][b] == a0.next[s][b]
    ensures 0 <= a1.next[f][b] < |words| && -1 <= a1.next[s][b] < |words|
  {
    assert EdgeOk(a0.next[s][b], words, s, b) && StepOk(a0.next[f][b], words, f, b);
  }

  method RowByte(a0: Automaton, a1: Automaton, ghost words: seq<Word>, ghost lits: seq<Word>, s: nat, f: nat, b: nat,
                 kids0: seq<nat>)
    returns (a: Automaton, kids: seq<nat>)
    requires s < |words| && [] in words && PrefixClosed(words) && |a0.next| == |a0.output| == |words| && b < BYTES
    requires RowReady(a0, words, lits, s, f) && InRow(a0, a1, words, lits, s, b, kids0)
    ensures InRow(a0, a, words, lits, s, b + 1, kids)
  {
    RowBounds(a0, a1, words, lits, s, f, b);
    if a1.next[s][b] < 0 {
      MissingByte(a0, a1, words, lits, s, f, b, kids0);
      a, kids := a1.(next := a1.next[s := a1.next[s][b := a1.next[f][b]]]), kids0;
    } else {
      a, kids := Discover(a0, a1, words, lits, s, f, b, kids0, a1.next[s][b], a1.next[f][b]);
    }
  }

  method Discover(ghost a0: Automaton, a1: Automaton, ghost words: seq<Word>, ghost lits: seq<Word>, ghost s: nat,
                  ghost f: nat, ghost b: nat,
                  kids0: seq<nat>, t: nat, g: nat)
    returns (a: Automaton, kids: seq<nat>)
    requires s < |words| && [] in words && PrefixClosed(words) && |a0.next| == |a0.output| == |words| && b < BYTES
    requires RowReady(a0, words, lits, s, f) && InRow(a0, a1, words, lits, s, b, kids0) && a0.next[s][b] == t
    requires a0.next[f][b] == g
    ensures InRow(a0, a, words, lits, s, b + 1, kids)
  {
    KidByte(a0, a1, words, lits, s, f, b, kids0, t, g);
    kids := kids0 + [t];
    a := a1.(failure := a1.failure[t := g], output := a1.output[t := a1.output[t] + a1.output[g]]);
  }

  // ---- The search ----

  // The next node's row may be completed.
  lemma NextReady(a: Automaton, words: seq<Word>, lits: seq<Word>, order: seq<nat>, head: nat)
    requires Searching(a, words, lits, order, head) && head < |order| && NoneEmpty(lits) &&
             forall i :: 0 <= i < |lits| ==> lits[i] in words
    ensures var s := order[head]; s < |words| && s < |a.failure| && RowReady(a, words, lits, s, a.failure[s])
  {
    var s := order[head];
    assert s in order && Found(a, words, lits, s);
    var f := a.failure[s];
    assert |words[f]| <= |words[s][1..]|;
    Shallow(a, words, lits, order, head, f);
    forall n | 0 <= n < |words| && |words[n]| <= |words[s]| ensures Exact(a.output[n], lits, words[n]) {
      Shallow(a, words, lits, order, head, n);
      if n == 0 {
        RootOutput(a, words, lits, order, head);
      }
    }
    NotYet(a, words, lits, order, head);
  }

  lemma RootOutput(a: Automaton, words: seq<Word>, lits: seq<Word>, order: seq<nat>, head: nat)
    requires Searching(a, words, lits, order, head) && NoneEmpty(lits)
    ensures Exact(a.output[0], lits, words[0])
  {
    NoneSpelt(lits, [], |lits|);
  }

  // The next node is not done, and its children are not discovered.
  lemma NotYet(a: Automaton, words: seq<Word>, lits: seq<Word>, order: seq<nat>, head: nat)
    requires Searching(a, words, lits, order, head) && head < |order|
    ensures !IsDone(order, head, order[head]) && RowTrie(a.next[order[head]], words, order[head])
    ensures forall t: nat :: ChildOf(words, t, order[head]) ==>
              t !in order && a.output[t] == Spelt(lits, words[t], |lits|)
  {
    assert order[head] in order;
    LaterNot(order, head);
  }

  lemma LaterNot(order: seq<nat>, head: nat)
    requires Distinct(order) && head < |order|
    ensures order[head] !in order[..head]
  {
  }

  // ---- A row done, its children queued ----

  // Every child of the row's node is among those found.
  lemma AllKids(a0: Automaton, words: seq<Word>, s: nat, kids: seq<nat>, t: nat)
    requires Shaped(a0, words) && s < |words| && RowTrie(a0.next[s], words, s)
    requires Kids(a0.next[s], words, s, BYTES, kids)
    ensures ChildOf(words, t, s) <==> t in kids
  {
    if ChildOf(words, t, s) {
      var c := words[t][|words[t]| - 1];
      assert words[t] == words[s] + [c] && words[t] in words;
      assert EdgeOk(a0.next[s][c], words, s, c);
      var m := a0.next[s][c];
      assert Twins(words, m, t);
    }
  }

  lemma DoneMore(order: seq<nat>, kids: seq<nat>, head: nat, n: nat)
    requires head < |order|
    ensures IsDone(order + kids, head + 1, n) <==> IsDone(order, head, n) || n == order[head]
  {
    assert (order + kids)[..head + 1] == order[..head] + [order[head]];
  }

  lemma DepthMore(words: seq<Word>, order: seq<nat>, head: nat, kids: seq<nat>)
    requires head < |order| && ByDepth(words, order, head) && forall t :: t in kids ==> ChildOf(words, t, order[head])
    ensures ByDepth(words, order + kids, head + 1)
  {
    var all, d := order + kids, |words[order[head]]|;
    forall i | 0 <= i < |all| ensures all[i] < |words| && |words[all[i]]| <= d + 1 &&
      (i >= |order| ==> |words[all[i]]| == d + 1) {
      if i >= |order| {
        assert all[i] in kids;
      }
    }
    forall i, j | 0 <= i < j < |all| ensures |words[all[i]]| <= |words[all[j]]| {
      if j < |order| {
        assert all[i] == order[i] && all[j] == order[j];
      }
    }
    if head + 1 < |all| {
      assert d <= |words[all[head + 1]]|;
    }
  }

  lemma OrderMore(order: seq<nat>, kids: seq<nat>)
    requires Distinct(order) && Distinct(kids) && forall t :: t in kids ==> t !in order
    ensures Distinct(order + kids)
  {
    var all := order + kids;
    forall i, j | 0 <= i < j < |all| ensures all[i] != all[j] {
      assert i < |order| ==> all[i] in order;
      assert j >= |order| ==> all[j] in kids;
    }
  }

  lemma FoundMore(a0: Automaton, a: Automaton, words: seq<Word>, lits: seq<Word>, order: seq<nat>, head: nat,
                  kids: seq<nat>, n: nat)
    requires Searching(a0, words, lits, order, head) && Settled(a0, a, words, lits, kids) &&
             (forall t :: t in kids ==> t !in order)
    requires n in order + kids
    ensures 0 < n < |words| && Found(a, words, lits, n)
  {
    if n in kids {
      assert Found(a, words, lits, n);
    } else {
      assert n in order && Found(a0, words, lits, n);
      FoundSame(a0, a, words, lits, n);
    }
  }

  lemma ParentsMore(words: seq<Word>, order: seq<nat>, head: nat, kids: seq<nat>, t: nat, p: nat)
    requires OneEach(words) && head < |order| && ChildOf(words, t, p)
    requires t in order <==> IsDone(order, head, p)
    requires ChildOf(words, t, order[head]) <==> t in kids
    ensures t in order + kids <==> IsDone(order + kids, head + 1, p)
  {
    DoneMore(order, kids, head, p);
    assert t in order + kids <==> t in order || t in kids;
    if t in kids {
      assert Twins(words, p, order[head]);
    }
  }

  // The children found are all the row's node has, none discovered before.
  ghost predicate NewKids(words: seq<Word>, order: seq<nat>, s: nat, kids: seq<nat>) {
    Distinct(kids) && forall t: nat :: (ChildOf(words, t, s) <==> t in kids) && (t in kids ==> t !in order)
  }

  lemma KidsAreNew(a0: Automaton, words: seq<Word>, lits: seq<Word>, order: seq<nat>, head: nat, kids: seq<nat>)
    requires Searching(a0, words, lits, order, head) && head < |order| && order[head] < |words|
    requires Kids(a0.next[order[head]], words, order[head], BYTES, kids)
    ensures NewKids(words, order, order[head], kids)
  {
    NotYet(a0, words, lits, order, head);
    forall t: nat ensures ChildOf(words, t, order[head]) <==> t in kids {
      AllKids(a0, words, order[head], kids, t);
    }
  }

  lemma FoundAll(a0: Automaton, a: Automaton, words: seq<Word>, lits: seq<Word>, order: seq<nat>, head: nat,
                 kids: seq<nat>)
    requires Searching(a0, words, lits, order, head) && Settled(a0, a, words, lits, kids) &&
             (forall t :: t in kids ==> t !in order)
    ensures forall n :: n in order + kids ==> 0 < n < |words| && Found(a, words, lits, n)
  {
    forall n | n in order + kids ensures 0 < n < |words| && Found(a, words, lits, n) {
      FoundMore(a0, a, words, lits, order, head, kids, n);
    }
  }

  lemma ParentsAll(words: seq<Word>, order: seq<nat>, head: nat, kids: seq<nat>)
    requires OneEach(words) && head < |order| && NewKids(words, order, order[head], kids)
    requires forall t, p :: ChildOf(words, t, p) ==> (t in order <==> IsDone(order, head, p))
    ensures forall t, p :: ChildOf(words, t, p) ==> (t in order + kids <==> IsDone(order + kids, head + 1, p))
  {
    forall t, p | ChildOf(words, t, p) ensures t in order + kids <==> IsDone(order + kids, head + 1, p) {
      ParentsMore(words, order, head, kids, t, p);
    }
  }

  lemma RowEnds(a0: Automaton, a: Automaton, words: seq<Word>, lits: seq<Word>, order: seq<nat>, head: nat,
                kids: seq<nat>)
    requires Searching(a0, words, lits, order, head) && head < |order| && order[head] < |words|
    requires InRow(a0, a, words, lits, order[head], BYTES, kids)
    ensures Searching(a, words, lits, order + kids, head + 1)
  {
    KidsAreNew(a0, words, lits, order, head, kids);
    QueueMore(words, order, head, kids);
    FoundAll(a0, a, words, lits, order, head, kids);
    RowsMore(a0, a, words, lits, order, head, kids);
    ShapedMore(a0, a, words, order[head]);
    OutputsMore(a0.output, a.output, words, lits, order, kids);
  }

  lemma QueueMore(words: seq<Word>, order: seq<nat>, head: nat, kids: seq<nat>)
    requires OneEach(words) && Distinct(order) && head < |order| && NewKids(words, order, order[head], kids)
    requires ByDepth(words, order, head)
    requires forall t, p :: ChildOf(words, t, p) ==> (t in order <==> IsDone(order, head, p))
    ensures Distinct(order + kids) && ByDepth(words, order + kids, head + 1)
    ensures forall t, p :: ChildOf(words, t, p) ==> (t in order + kids <==> IsDone(order + kids, head + 1, p))
  {
    DepthMore(words, order, head, kids);
    OrderMore(order, kids);
    ParentsAll(words, order, head, kids);
  }

  lemma RowMore(next0: seq<seq<int>>, next: seq<seq<int>>, words: seq<Word>, order: seq<nat>, head: nat,
                kids: seq<nat>, n: nat)
    requires head < |order| && order[head] < |words| && n < |words| && [] in words
    requires RowPart(next0, next, words, order[head], BYTES) && RowOk(next0[n], words, IsDone(order, head, n), n)
    ensures RowOk(next[n], words, IsDone(order + kids, head + 1, n), n)
  {
    DoneMore(order, kids, head, n);
    if n == order[head] {
      assert RowDone(next[n], words, n);
    } else {
      assert next[n] == next0[n];
    }
  }

  lemma RowsMore(a0: Automaton, a: Automaton, words: seq<Word>, lits: seq<Word>, order: seq<nat>, head: nat,
                 kids: seq<nat>)
    requires Searching(a0, words, lits, order, head) && head < |order| && order[head] < |words|
    requires RowPart(a0.next, a.next, words, order[head], BYTES)
    ensures forall n :: 0 <= n < |words| ==> RowOk(a.next[n], words, IsDone(order + kids, head + 1, n), n)
  {
    forall n | 0 <= n < |words| ensures RowOk(a.next[n], words, IsDone(order + kids, head + 1, n), n) {
      assert RowOk(a0.next[n], words, IsDone(order, head, n), n);
      RowMore(a0.next, a.next, words, order, head, kids, n);
    }
  }

  lemma ShapedMore(a0: Automaton, a: Automaton, words: seq<Word>, s: nat)
    requires Shaped(a0, words) && s < |words| && RowPart(a0.next, a.next, words, s, BYTES)
    requires |a.failure| == |a.output| == |words|
    ensures Shaped(a, words)
  {
    assert forall n :: 0 <= n < |words| && n != s ==> a.next[n] == a0.next[n];
  }

  lemma OutputsMore(output0: seq<seq<nat>>, output: seq<seq<nat>>, words: seq<Word>, lits: seq<Word>,
                    order: seq<nat>, kids: seq<nat>)
    requires |output0| == |output| == |words|
    requires forall n :: 0 <= n < |words| && n !in kids ==> output[n] == output0[n]
    requires forall n :: 0 <= n < |words| && n !in order ==> output0[n] == Spelt(lits, words[n], |lits|)
    ensures forall n :: 0 <= n < |words| && n !in order + kids ==> output[n] == Spelt(lits, words[n], |lits|)
  {
  }

  // ---- The root ----

  lemma WordBytes(words: seq<Word>, lits: seq<Word>, n: nat)
    requires AllBytes(lits) && Words(words, lits, |lits|, |lits|) && n < |words| && words[n] != []
    ensures words[n][|words[n]| - 1] < BYTES
  {
    assert IsPrefixOfSome(words[n], lits, |lits|);
    var i :| 0 <= i < |lits| && IsPrefix(words[n], lits[i]);
    assert words[n][|words[n]| - 1] == lits[i][|words[n]| - 1];
  }

  // The root's missing edges lead back to it.
  method CloseRoot(row0: seq<int>, ghost words: seq<Word>) returns (row: seq<int>)
    requires |words| > 0 && words[0] == [] && RowTrie(row0, words, 0)
    ensures RowDone(row, words, 0) && forall b :: 0 <= b < BYTES ==> row[b] == if row0[b] < 0 then 0 else row0[b]
  {
    row := row0;
    for b := 0 to BYTES
      invariant |row| == BYTES && forall c :: 0 <= c < BYTES ==> row[c] == if c < b && row0[c] < 0 then 0 else row0[c]
    {
      if row[b] < 0 {
        row := row[b := 0];
      }
    }
    forall b | 0 <= b < BYTES ensures StepOk(row[b], words, 0, b) {
      RootStep(words, row0[b], b);
    }
  }

  lemma RootStep(words: seq<Word>, m: int, b: nat)
    requires |words| > 0 && words[0] == [] && EdgeOk(m, words, 0, b)
    ensures StepOk(if m < 0 then 0 else m, words, 0, b)
  {
    assert [] + [b] == [b] && [b][1..] == [];
  }

  // A child of the root: its failure is the root, its literals its own.
  lemma RootKid(a: Automaton, words: seq<Word>, lits: seq<Word>, t: nat, b: nat)
    requires |words| > 0 && words[0] == [] && |a.failure| == |a.output| == |words| && NoneEmpty(lits)
    requires t < |words| && words[t] == [b]
    requires a.failure[t] == 0 && a.output[t] == Spelt(lits, words[t], |lits|)
    ensures Found(a, words, lits, t) && ChildOf(words, t, 0) && words[t][|words[t]| - 1] == b
  {
    assert words[t][1..] == [] && words[t][..0] == [];
    OneByteOutputs(lits, words[t]);
  }

  ghost predicate AllFound(a: Automaton, words: seq<Word>, lits: seq<Word>, kids: seq<nat>)
    requires |a.failure| == |a.output| == |words| && [] in words
  {
    forall t :: t in kids ==> t < |words| && Found(a, words, lits, t)
  }

  lemma RootEdge(a: Automaton, words: seq<Word>, lits: seq<Word>, b: nat)
    requires Trie(a, words, lits, |lits|, |lits|) && NoneEmpty(lits) && b < BYTES
    ensures RootEdgeOk(a, words, lits, b)
  {
    assert EdgeOk(a.next[0][b], words, 0, b) && words[0] + [b] == [b];
    if a.next[0][b] >= 0 {
      RootKid(a, words, lits, a.next[0][b], b);
    }
  }

  // Where the root's edges lead: nowhere, or to a node whose failure is the root and whose output is its own.
  ghost predicate RootEdges(a: Automaton, words: seq<Word>, lits: seq<Word>) {
    && [] in words && |a.next| == |a.failure| == |a.output| == |words| && 0 < |words| && |a.next[0]| == BYTES
    && forall b {:trigger RootEdgeOk(a, words, lits, b)} :: 0 <= b < BYTES ==> RootEdgeOk(a, words, lits, b)
  }

  ghost predicate RootEdgeOk(a: Automaton, words: seq<Word>, lits: seq<Word>, b: nat)
    requires [] in words && |a.next| == |a.failure| == |a.output| == |words| && 0 < |words| && b < |a.next[0]|
  {
    var m := a.next[0][b];
    if m < 0 then m == -1
    else 0 < m < |words| && words[m] == [b] && a.failure[m] == 0 && Found(a, words, lits, m) && ChildOf(words, m, 0)
  }

  lemma TrieRoot(a: Automaton, words: seq<Word>, lits: seq<Word>)
    requires Trie(a, words, lits, |lits|, |lits|) && NoneEmpty(lits)
    ensures RootEdges(a, words, lits)
  {
    forall b | 0 <= b < BYTES ensures RootEdgeOk(a, words, lits, b) {
      RootEdge(a, words, lits, b);
    }
  }

  lemma QueueKid(a: Automaton, words: seq<Word>, lits: seq<Word>, b: nat, kids: seq<nat>)
    requires RootEdges(a, words, lits) && b < BYTES && Kids(a.next[0], words, 0, b, kids)
    requires AllFound(a, words, lits, kids)
    ensures a.next[0][b] < 0 ==> Kids(a.next[0], words, 0, b + 1, kids)
    ensures a.next[0][b] >= 0 ==> 0 < a.next[0][b] < |a.failure| && a.failure[a.next[0][b]] == 0
    ensures a.next[0][b] >= 0 ==>
              var more := kids + [a.next[0][b]];
                Kids(a.next[0], words, 0, b + 1, more) && AllFound(a, words, lits, more)
  {
    assert RootEdgeOk(a, words, lits, b);
    if a.next[0][b] < 0 {
      KidsNone(a.next[0], words, 0, b, kids);
    } else {
      KidsMore(a.next[0], words, 0, b, kids, a.next[0][b]);
    }
  }

  // The root's children, queued in byte order; their failures are the root, as they were made.
  method RootKids(a: Automaton, row: seq<int>, ghost words: seq<Word>, ghost lits: seq<Word>)
    returns (failure: seq<nat>, kids: seq<nat>)
    requires RootEdges(a, words, lits)
    requires |row| == BYTES && forall b :: 0 <= b < BYTES ==> row[b] == if a.next[0][b] < 0 then 0 else a.next[0][b]
    ensures failure == a.failure && Kids(a.next[0], words, 0, BYTES, kids) && AllFound(a, words, lits, kids)
  {
    failure, kids := a.failure, [];
    for b := 0 to BYTES
      invariant failure == a.failure && Kids(a.next[0], words, 0, b, kids) && AllFound(a, words, lits, kids)
    {
      QueueKid(a, words, lits, b, kids);
      var child: nat := row[b];
      if child != 0 {
        ZeroAgain(failure, child);
        failure := failure[child := 0];
        kids := kids + [child];
      }
    }
  }

  lemma ZeroAgain(failure: seq<nat>, child: nat)
    requires child < |failure| && failure[child] == 0
    ensures failure[child := 0] == failure
  {
  }

  lemma RootShaped(a: Automaton, words: seq<Word>, lits: seq<Word>)
    requires Trie(a, words, lits, |lits|, |lits|) && AllBytes(lits)
    ensures Shaped(a, words) && forall n :: 0 <= n < |words| ==> RowTrie(a.next[n], words, n)
  {
    forall n | 0 <= n < |words| && words[n] != [] ensures words[n][|words[n]| - 1] < BYTES {
      WordBytes(words, lits, n);
    }
  }

  lemma RootQueue(a: Automaton, words: seq<Word>, kids: seq<nat>)
    requires Shaped(a, words) && RowTrie(a.next[0], words, 0) && Kids(a.next[0], words, 0, BYTES, kids)
    ensures ByDepth(words, kids, 0)
    ensures forall t, p :: ChildOf(words, t, p) ==> (t in kids <==> IsDone(kids, 0, p))
  {
    forall t: nat ensures ChildOf(words, t, 0) <==> t in kids {
      AllKids(a, words, 0, kids, t);
    }
    forall i | 0 <= i < |kids| ensures kids[i] < |words| && |words[kids[i]]| == 1 {
      assert kids[i] in kids;
    }
    forall t: nat, p: nat | ChildOf(words, t, p) ensures t in kids <==> IsDone(kids, 0, p) {
      if t in kids {
        assert Twins(words, p, 0);
      }
    }
  }

  lemma RootFound(a0: Automaton, a: Automaton, words: seq<Word>, lits: seq<Word>, kids: seq<nat>)
    requires Shaped(a0, words) && a.failure == a0.failure && a.output == a0.output && AllFound(a0, words, lits, kids)
    ensures forall t :: t in kids ==> 0 < t < |words| && Found(a, words, lits, t)
  {
    forall t | t in kids ensures 0 < t < |words| && Found(a, words, lits, t) {
      FoundSame(a0, a, words, lits, t);
    }
  }

  lemma SearchBegins(a0: Automaton, row: seq<int>, words: seq<Word>, lits: seq<Word>, kids: seq<nat>)
    requires Trie(a0, words, lits, |lits|, |lits|) && AllBytes(lits) && RowDone(row, words, 0)
    requires Kids(a0.next[0], words, 0, BYTES, kids) && AllFound(a0, words, lits, kids)
    ensures Searching(a0.(next := a0.next[0 := row]), words, lits, kids, 0)
  {
    RootShaped(a0, words, lits);
    RootQueue(a0, words, kids);
    RootFound(a0, a0.(next := a0.next[0 := row]), words, lits, kids);
  }

  // ---- buildAC ----

  // Every row is complete, every output exact.
  ghost predicate Complete(a: Automaton, words: seq<Word>, lits: seq<Word>) {
    && Shaped(a, words) && Words(words, lits, |lits|, |lits|)
    && forall n :: 0 <= n < |words| ==> RowDone(a.next[n], words, n) && Exact(a.output[n], lits, words[n])
  }

  method CompleteRow(a0: Automaton, s: nat, ghost words: seq<Word>, ghost lits: seq<Word>)
    returns (a: Automaton, kids: seq<nat>)
    requires Shaped(a0, words) && s < |words| && RowReady(a0, words, lits, s, a0.failure[s])
    ensures InRow(a0, a, words, lits, s, BYTES, kids)
  {
    a, kids := a0, [];
    for b := 0 to BYTES
      invariant InRow(a0, a, words, lits, s, b, kids)
    {
      a, kids := RowByte(a0, a, words, lits, s, a0.failure[s], b, kids);
    }
  }

  ghost function Pending(words: seq<Word>, order: seq<nat>, head: nat): set<nat>
    requires head <= |order|
  {
    set n: nat | n < |words| && n !in order[..head]
  }

  lemma OneFewer(words: seq<Word>, order: seq<nat>, kids: seq<nat>, head: nat)
    requires head < |order| && Distinct(order) && order[head] < |words|
    ensures Pending(words, order + kids, head + 1) < Pending(words, order, head)
  {
    LaterNot(order, head);
    assert (order + kids)[..head + 1] == order[..head] + [order[head]];
    assert order[head] in Pending(words, order, head) && order[head] !in Pending(words, order + kids, head + 1);
  }

  lemma {:induction false} AllReached(a: Automaton, words: seq<Word>, lits: seq<Word>, order: seq<nat>, n: nat)
    requires Searching(a, words, lits, order, |order|) && n < |words|
    ensures IsDone(order, |order|, n) && (n == 0 || n in order)
    decreases |words[n]|
  {
    assert order[..|order|] == order;
    if words[n] == [] {
      assert Twins(words, n, 0);
    } else {
      var p := Parent(words, n);
      AllReached(a, words, lits, order, p);
    }
  }

  method BuildAC(lits: seq<Word>) returns (a: Automaton, ghost words: seq<Word>)
    requires AllBytes(lits) && NoneEmpty(lits)
    ensures Complete(a, words, lits)
  {
    a, words := BuildTrie(lits);
    TrieRoot(a, words, lits);
    var row := CloseRoot(a.next[0], words);
    var failure, queue := RootKids(a, row, words, lits);
    SearchBegins(a, row, words, lits, queue);
    a := a.(next := a.next[0 := row]);
    ghost var order, head := queue, 0;
    while queue != []
      invariant Words(words, lits, |lits|, |lits|) && Searching(a, words, lits, order, head) && queue == order[head..]
      decreases Pending(words, order, head)
    {
      ghost var kids;
      a, queue, kids := Advance(a, queue, words, lits, order, head);
      order, head := order + kids, head + 1;
    }
    SearchEnds(a, words, lits, order);
  }

  // The next node off the queue: its row is completed and its children join.
  method Advance(a0: Automaton, queue0: seq<nat>, ghost words: seq<Word>, ghost lits: seq<Word>,
                 ghost order: seq<nat>, ghost head: nat)
    returns (a: Automaton, queue: seq<nat>, ghost kids: seq<nat>)
    requires Words(words, lits, |lits|, |lits|) && NoneEmpty(lits) && Searching(a0, words, lits, order, head)
    requires queue0 == order[head..] && queue0 != []
    ensures Searching(a, words, lits, order + kids, head + 1) && queue == (order + kids)[head + 1..]
    ensures Pending(words, order + kids, head + 1) < Pending(words, order, head)
  {
    QueueHead(order, head, queue0);
    InOrder(a0, words, lits, order, head);
    NextReady(a0, words, lits, order, head);
    a, kids, queue := Dequeue(a0, queue0, words, lits, order, head);
    OneFewer(words, order, kids, head);
  }

  method Dequeue(a0: Automaton, queue0: seq<nat>, ghost words: seq<Word>, ghost lits: seq<Word>,
                 ghost order: seq<nat>, ghost head: nat)
    returns (a: Automaton, ghost kids: seq<nat>, queue: seq<nat>)
    requires head < |order| && queue0 == order[head..] && queue0[0] == order[head] < |words|
    requires Searching(a0, words, lits, order, head)
    requires RowReady(a0, words, lits, order[head], a0.failure[order[head]])
    ensures Searching(a, words, lits, order + kids, head + 1) && queue == (order + kids)[head + 1..]
  {
    var found;
    a, found := CompleteRow(a0, queue0[0], words, lits);
    kids, queue := found, queue0[1..] + found;
    RowEnds(a0, a, words, lits, order, head, found);
    QueueTail(order, head, queue0, found);
  }

  lemma QueueHead(order: seq<nat>, head: nat, queue: seq<nat>)
    requires head <= |order| && queue == order[head..] && queue != []
    ensures head < |order| && queue[0] == order[head]
  {
  }

  lemma QueueTail(order: seq<nat>, head: nat, queue: seq<nat>, found: seq<nat>)
    requires head < |order| && queue == order[head..]
    ensures queue[1..] + found == (order + found)[head + 1..]
  {
  }

  lemma InOrder(a: Automaton, words: seq<Word>, lits: seq<Word>, order: seq<nat>, head: nat)
    requires Searching(a, words, lits, order, head) && head < |order|
    ensures Distinct(order) && order[head] < |words| == |a.failure|
  {
    assert order[head] in order;
  }

  lemma SearchEnds(a: Automaton, words: seq<Word>, lits: seq<Word>, order: seq<nat>)
    requires Words(words, lits, |lits|, |lits|) && Searching(a, words, lits, order, |order|) && NoneEmpty(lits)
    ensures Complete(a, words, lits)
  {
    forall n | 0 <= n < |words| ensures RowDone(a.next[n], words, n) && Exact(a.output[n], lits, words[n]) {
      AllReached(a, words, lits, order, n);
      if n == 0 {
        RootOutput(a, words, lits, order, |order|);
      } else {
        assert Found(a, words, lits, n);
      }
    }
  }

  // ---- What a walk over it knows ----

  function Walk(a: Automaton, w: Word): int {
    if w == [] then 0
    else
      var n := Walk(a, w[..|w| - 1]);
      var b := w[|w| - 1];
      if 0 <= n < |a.next| && b < |a.next[n]| then a.next[n][b] else 0
  }

  lemma RowStep(row: seq<int>, words: seq<Word>, n: nat, w: Word, b: nat)
    requires PrefixClosed(words) && n < |words| && RowDone(row, words, n) && words[n] == Longest(w, words) && b < BYTES
    ensures 0 <= row[b] < |words| && words[row[b]] == Longest(w + [b], words)
  {
    LongestStep(w, b, words);
    assert StepOk(row[b], words, n, b);
  }

  lemma WalkOn(a: Automaton, w: Word, b: nat)
    requires 0 <= Walk(a, w) < |a.next| && b < |a.next[Walk(a, w)]|
    ensures Walk(a, w + [b]) == a.next[Walk(a, w)][b]
  {
    assert (w + [b])[..|w|] == w;
  }

  lemma WalkStep(a: Automaton, words: seq<Word>, lits: seq<Word>, w: Word, b: nat)
    requires Complete(a, words, lits) && 0 <= Walk(a, w) < |words| && words[Walk(a, w)] == Longest(w, words)
    requires b < BYTES
    ensures 0 <= Walk(a, w + [b]) < |words| && words[Walk(a, w + [b])] == Longest(w + [b], words)
  {
    RowStep(a.next[Walk(a, w)], words, Walk(a, w), w, b);
    WalkOn(a, w, b);
  }

  // After any text the state is the longest suffix that begins some literal.
  lemma {:induction false} WalkExact(a: Automaton, words: seq<Word>, lits: seq<Word>, w: Word)
    requires Complete(a, words, lits) && forall i :: 0 <= i < |w| ==> w[i] < BYTES
    ensures 0 <= Walk(a, w) < |words| && words[Walk(a, w)] == Longest(w, words)
  {
    if w != [] {
      var init, b := w[..|w| - 1], w[|w| - 1];
      assert w == init + [b];
      WalkExact(a, words, lits, init);
      WalkStep(a, words, lits, init, b);
    }
  }

  // Its output is the literals ending there, each once.
  lemma EndsAtWalk(a: Automaton, words: seq<Word>, lits: seq<Word>, w: Word)
    requires Complete(a, words, lits) && 0 <= Walk(a, w) < |words| && words[Walk(a, w)] == Longest(w, words)
    ensures Exact(a.output[Walk(a, w)], lits, w)
  {
    var n := Walk(a, w);
    assert Exact(a.output[n], lits, words[n]);
    forall i: nat | i < |lits| ensures IsSuffix(lits[i], words[n]) <==> IsSuffix(lits[i], w) {
      SuffixOfSuffix(lits[i], words[n], w);
      if IsSuffix(lits[i], w) {
        LongestIsLongest(w, words, lits[i]);
      }
    }
  }

  // The words a walk can stand for are the prefixes of the literals, and the one it stands for is the longest.
  lemma LongestPrefix(words: seq<Word>, lits: seq<Word>, w: Word, u: Word, i: nat)
    requires Words(words, lits, |lits|, |lits|) && i < |lits| && IsPrefix(u, lits[i]) && IsSuffix(u, w)
    ensures |u| <= |Longest(w, words)|
  {
    PrefixKnown(words, lits[i], |u|);
    LongestIsLongest(w, words, u);
  }

  lemma LongestKnown(words: seq<Word>, lits: seq<Word>, w: Word)
    requires Words(words, lits, |lits|, |lits|)
    ensures IsSuffix(Longest(w, words), w)
    ensures Longest(w, words) == [] || IsPrefixOfSome(Longest(w, words), lits, |lits|)
  {
    var v := Longest(w, words);
    var n :| 0 <= n < |words| && words[n] == v;
  }

  lemma {:induction false} PrefixKnown(words: seq<Word>, lit: Word, k: nat)
    requires PrefixClosed(words) && lit in words && k <= |lit|
    ensures lit[..k] in words
    decreases |lit| - k
  {
    if k < |lit| {
      PrefixKnown(words, lit, k + 1);
      assert ParentKnown(words, lit[..k + 1]) && lit[..k + 1][..k] == lit[..k];
    } else {
      assert lit[..k] == lit;
    }
  }

  // v is the longest suffix of w that begins some literal.
  ghost predicate LongestBeginning(v: Word, w: Word, lits: seq<Word>) {
    && IsSuffix(v, w) && (v == [] || IsPrefixOfSome(v, lits, |lits|))
    && forall u, i :: 0 <= i < |lits| && IsPrefix(u, lits[i]) && IsSuffix(u, w) ==> |u| <= |v|
  }

  // A walk over any text stands at the longest suffix that begins some literal, and lists exactly the literals that end
  // there.
  lemma WalkReports(a: Automaton, words: seq<Word>, lits: seq<Word>, w: Word)
    requires Complete(a, words, lits) && forall i :: 0 <= i < |w| ==> w[i] < BYTES
    ensures 0 <= Walk(a, w) < |words| && LongestBeginning(words[Walk(a, w)], w, lits)
    ensures Exact(a.output[Walk(a, w)], lits, w)
  {
    WalkExact(a, words, lits, w);
    EndsAtWalk(a, words, lits, w);
    forall u, i | 0 <= i < |lits| && IsPrefix(u, lits[i]) && IsSuffix(u, w) ensures |u| <= |Longest(w, words)| {
      LongestPrefix(words, lits, w, u, i);
    }
    LongestKnown(words, lits, w);
  }
}
