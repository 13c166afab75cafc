/** buildACLayoutMode: the automaton renumbered and written as flat tables of 16-bit entries, which decode to it and do
    not overlap. */
module AcLayout {
  import opened AhoCorasick
  import opened FiniteSets
  import opened Wasm32

  const MAX_NODES := 65536
  const MAX_OUTPUTS := 65535

  // A 16-bit table entry.
  function U16(x: int): (u: nat)
    ensures u < 65536 && (0 <= x < 65536 ==> u == x)
  {
    x % 65536
  }

  // ---- Renumbering ----

  // The nodes done have the first ids, and the two maps undo each other on them.
  ghost predicate Linked(oldToNew: seq<nat>, newToOld: seq<nat>, next: nat, done: set<nat>) {
    && |oldToNew| == |newToOld| && next == |done|
    && (forall i :: i in done ==> i < |oldToNew| && oldToNew[i] < next <= |newToOld| && newToOld[oldToNew[i]] == i)
    && (forall k :: 0 <= k < next && k < |newToOld| ==> newToOld[k] in done && oldToNew[newToOld[k]] == k)
  }

  lemma LinkOne(oldToNew: seq<nat>, newToOld: seq<nat>, next: nat, done: set<nat>, i: nat)
    requires Linked(oldToNew, newToOld, next, done) && i < |oldToNew| && i !in done
    requires forall j :: j in done ==> j < |oldToNew|
    ensures next < |newToOld| && Linked(oldToNew[i := next], newToOld[next := i], next + 1, done + {i})
  {
    ProperSubsetSize(done, Below(|oldToNew|));
  }

  // The root keeps id 0, nodes with output take [1, outLimit], the rest follow.
  ghost predicate Renumbered(output: seq<seq<nat>>, oldToNew: seq<nat>, newToOld: seq<nat>, outLimit: nat) {
    && |oldToNew| == |newToOld| == |output| > 0 && oldToNew[0] == 0 && outLimit < |output|
    && (forall i :: 0 <= i < |output| ==> oldToNew[i] < |output| && newToOld[oldToNew[i]] == i)
    && (forall k :: 0 <= k < |output| ==> newToOld[k] < |output| && oldToNew[newToOld[k]] == k)
    && (forall i :: 0 <= i < |output| ==> (output[i] != [] <==> 1 <= oldToNew[i] <= outLimit))
  }

  // acTotalOutputs, over the first n nodes.
  function Total(output: seq<seq<nat>>, n: nat): nat
    requires n <= |output|
  {
    if n == 0 then 0 else Total(output, n - 1) + |output[n - 1]|
  }

  // The outputs of the first n new ids.
  function Outputs(output: seq<seq<nat>>, newToOld: seq<nat>, n: nat): nat
    requires n <= |newToOld|
  {
    if n == 0 then 0
    else Outputs(output, newToOld, n - 1) + if newToOld[n - 1] < |output| then |output[newToOld[n - 1]]| else 0
  }

  lemma {:induction false} OutputsStay(output: seq<seq<nat>>, newToOld: seq<nat>, newToOld': seq<nat>, n: nat)
    requires n <= |newToOld| && n <= |newToOld'| && newToOld[..n] == newToOld'[..n]
    ensures Outputs(output, newToOld, n) == Outputs(output, newToOld', n)
  {
    if n > 0 {
      assert newToOld[..n - 1] == newToOld[..n][..n - 1] == newToOld'[..n - 1];
      assert newToOld[n - 1] == newToOld[..n][n - 1] == newToOld'[n - 1];
      OutputsStay(output, newToOld, newToOld', n - 1);
    }
  }

  lemma OutputsNext(output: seq<seq<nat>>, newToOld: seq<nat>, next: nat, i: nat)
    requires next < |newToOld| && i < |output|
    ensures Outputs(output, newToOld[next := i], next + 1) == Outputs(output, newToOld, next) + |output[i]|
  {
    OutputsStay(output, newToOld, newToOld[next := i], next);
  }

  lemma NumberOne(output: seq<seq<nat>>, oldToNew: seq<nat>, newToOld: seq<nat>, next: nat, done: set<nat>, i: nat)
    requires Linked(oldToNew, newToOld, next, done) && i < |oldToNew| == |output| && i !in done
    ensures next < |newToOld| && Linked(oldToNew[i := next], newToOld[next := i], next + 1, done + {i})
    ensures Outputs(output, newToOld[next := i], next + 1) == Outputs(output, newToOld, next) + |output[i]|
  {
    LinkOne(oldToNew, newToOld, next, done, i);
    OutputsNext(output, newToOld, next, i);
  }

  // The root and the nodes with output among the first i are numbered.
  ghost predicate Reported(output: seq<seq<nat>>, oldToNew: seq<nat>, newToOld: seq<nat>, next: nat, done: set<nat>,
                           i: nat) {
    && 1 <= i <= |output| == |oldToNew| && 1 <= next <= |output|
    && Linked(oldToNew, newToOld, next, done) && oldToNew[0] == 0
    && (forall j: nat :: j in done <==> j == 0 || (j < i && output[j] != []))
    && Outputs(output, newToOld, next) == Total(output, i)
  }

  lemma ReportOne(output: seq<seq<nat>>, oldToNew: seq<nat>, newToOld: seq<nat>, next: nat, done: set<nat>, i: nat)
    requires Reported(output, oldToNew, newToOld, next, done, i) && i < |output|
    ensures output[i] == [] ==> Reported(output, oldToNew, newToOld, next, done, i + 1)
    ensures output[i] != [] ==>
              next < |newToOld| &&
              Reported(output, oldToNew[i := next], newToOld[next := i], next + 1, done + {i}, i + 1)
  {
    if output[i] != [] {
      NumberOne(output, oldToNew, newToOld, next, done, i);
    }
  }

  // The nodes with output, in order, after the root.
  method NumberReporting(output: seq<seq<nat>>)
    returns (oldToNew: seq<nat>, newToOld: seq<nat>, next: nat, ghost done: set<nat>)
    requires |output| > 0 && output[0] == []
    ensures |oldToNew| == |output| && 1 <= next <= |output| && Linked(oldToNew, newToOld, next, done)
    ensures oldToNew[0] == 0
    ensures forall j: nat :: j in done <==> j == 0 || (j < |output| && output[j] != [])
    ensures Outputs(output, newToOld, next) == Total(output, |output|)
  {
    var n := |output|;
    oldToNew, newToOld := seq(n, _ => 0), seq(n, _ => 0);
    next, done := 1, {0};
    assert Outputs(output, newToOld, 1) == Outputs(output, newToOld, 0) + 0;
    assert Total(output, 1) == Total(output, 0) + 0;
    for i := 1 to n
      invariant Reported(output, oldToNew, newToOld, next, done, i)
    {
      ReportOne(output, oldToNew, newToOld, next, done, i);
      if output[i] != [] {
        oldToNew, newToOld, next, done := oldToNew[i := next], newToOld[next := i], next + 1, done + {i};
      }
    }
  }

  // And the nodes without, among the first i.
  ghost predicate Rested(output: seq<seq<nat>>, oldToNew0: seq<nat>, next0: nat, reporting: set<nat>,
                         oldToNew: seq<nat>, newToOld: seq<nat>, next: nat, done: set<nat>, i: nat) {
    && 1 <= i <= |output| == |oldToNew| == |oldToNew0| && next0 <= next <= |output|
    && Linked(oldToNew, newToOld, next, done)
    && (forall j: nat :: j in done <==> j in reporting || (0 < j < i && output[j] == []))
    && (forall j :: j in reporting ==> j < |output| && oldToNew[j] == oldToNew0[j])
    && (forall j :: j in done && j !in reporting ==> next0 <= oldToNew[j])
  }

  lemma RestOne(output: seq<seq<nat>>, oldToNew0: seq<nat>, next0: nat, reporting: set<nat>, oldToNew: seq<nat>,
                newToOld: seq<nat>, next: nat, done: set<nat>, i: nat)
    requires Rested(output, oldToNew0, next0, reporting, oldToNew, newToOld, next, done, i) && i < |output|
    requires i in reporting <==> output[i] != []
    ensures output[i] != [] ==> Rested(output, oldToNew0, next0, reporting, oldToNew, newToOld, next, done, i + 1)
    ensures output[i] == [] ==>
              && next < |newToOld|
              && Rested(output, oldToNew0, next0, reporting, oldToNew[i := next], newToOld[next := i], next + 1,
                        done + {i}, i + 1)
              && Outputs(output, newToOld[next := i], next + 1) == Outputs(output, newToOld, next)
  {
    if output[i] == [] {
      NumberOne(output, oldToNew, newToOld, next, done, i);
    }
  }

  // The nodes without, after them.
  method NumberRest(output: seq<seq<nat>>, oldToNew0: seq<nat>, newToOld0: seq<nat>, next0: nat,
                    ghost reporting: set<nat>)
    returns (oldToNew: seq<nat>, newToOld: seq<nat>)
    requires |oldToNew0| == |output| > 0 && 1 <= next0 <= |output| && Linked(oldToNew0, newToOld0, next0, reporting)
    requires oldToNew0[0] == 0 && forall j: nat :: j in reporting <==> j == 0 || (j < |output| && output[j] != [])
    ensures |oldToNew| == |output| && Linked(oldToNew, newToOld, |output|, Below(|output|))
    ensures forall j :: j in reporting ==> oldToNew[j] == oldToNew0[j]
    ensures forall j :: 0 <= j < |output| && j !in reporting ==> next0 <= oldToNew[j]
    ensures Outputs(output, newToOld, |output|) == Outputs(output, newToOld0, next0)
  {
    var n := |output|;
    var next := next0;
    oldToNew, newToOld := oldToNew0, newToOld0;
    ghost var done: set<nat> := reporting;
    for i := 1 to n
      invariant Rested(output, oldToNew0, next0, reporting, oldToNew, newToOld, next, done, i)
      invariant Outputs(output, newToOld, next) == Outputs(output, newToOld0, next0)
    {
      RestOne(output, oldToNew0, next0, reporting, oldToNew, newToOld, next, done, i);
      if output[i] == [] {
        oldToNew, newToOld, next, done := oldToNew[i := next], newToOld[next := i], next + 1, done + {i};
      }
    }
    assert done == Below(n);
  }

  method Renumber(output: seq<seq<nat>>) returns (oldToNew: seq<nat>, newToOld: seq<nat>, outLimit: nat)
    requires |output| > 0 && output[0] == []
    ensures Renumbered(output, oldToNew, newToOld, outLimit)
    ensures Outputs(output, newToOld, |output|) == Total(output, |output|)
  {
    var next;
    ghost var reporting;
    oldToNew, newToOld, next, reporting := NumberReporting(output);
    ghost var first := oldToNew;
    outLimit := next - 1;
    oldToNew, newToOld := NumberRest(output, oldToNew, newToOld, next, reporting);
    forall i | 0 <= i < |output| ensures output[i] != [] <==> 1 <= oldToNew[i] <= outLimit {
      assert i in Below(|output|);
      if i in reporting {
        assert oldToNew[i] == first[i] < next;
        assert oldToNew[0] == first[0] == 0 && newToOld[oldToNew[0]] == 0;
      }
    }
  }

  // ---- Byte classes ----

  ghost predicate Square(next: seq<seq<int>>) {
    forall i :: 0 <= i < |next| ==> |next[i]| == BYTES
  }

  // Every node's edge for one byte, as the signature stores it.
  function Column(next: seq<seq<int>>, b: nat): (sig: seq<nat>)
    requires b < BYTES && Square(next)
    ensures |sig| == |next| && forall i :: 0 <= i < |next| ==> sig[i] == U16(next[i][b])
  {
    seq(|next|, i requires 0 <= i < |next| => U16(next[i][b]))
  }

  // The different columns of the first n bytes.
  ghost function Columns(next: seq<seq<int>>, n: nat): set<seq<nat>>
    requires n <= BYTES && Square(next)
  {
    set b: nat | b < n :: Column(next, b)
  }

  lemma OneMoreColumn(next: seq<seq<int>>, n: nat)
    requires n < BYTES && Square(next)
    ensures Columns(next, n + 1) == Columns(next, n) + {Column(next, n)}
  {
  }

  // computeACByteClasses: bytes share a class exactly when no node tells them apart.
  method ByteClasses(next: seq<seq<int>>) returns (classMap: seq<nat>, numClasses: nat)
    requires Square(next)
    ensures |classMap| == BYTES && numClasses <= BYTES && forall b :: 0 <= b < BYTES ==> classMap[b] < numClasses
    ensures forall b, c :: 0 <= b < BYTES && 0 <= c < BYTES ==>
              (classMap[b] == classMap[c] <==> Column(next, b) == Column(next, c))
    ensures numClasses == |Columns(next, BYTES)|
  {
    var seen: map<seq<nat>, nat> := map[];
    classMap := [];
    for b := 0 to BYTES
      invariant Classes(next, b, seen, classMap)
    {
      var key := Column(next, b);
      ClassesNext(next, b, seen, classMap);
      if key !in seen {
        seen := seen[key := |seen|];
      }
      classMap := classMap + [seen[key]];
    }
    numClasses := |seen|;
    ClassesTell(next, seen, classMap);
  }

  // The bytes so far have their columns' numbers.
  ghost predicate Classes(next: seq<seq<int>>, n: nat, seen: map<seq<nat>, nat>, classMap: seq<nat>)
    requires n <= BYTES && Square(next)
  {
    && |classMap| == n && Numbered(seen) && seen.Keys == Columns(next, n)
    && forall c :: 0 <= c < n ==> Column(next, c) in seen && classMap[c] == seen[Column(next, c)]
  }

  lemma ClassesNext(next: seq<seq<int>>, n: nat, seen: map<seq<nat>, nat>, classMap: seq<nat>)
    requires n < BYTES && Square(next) && Classes(next, n, seen, classMap)
    ensures var key := Column(next, n);
            var seen' := if key in seen then seen else seen[key := |seen|];
            Classes(next, n + 1, seen', classMap + [seen'[key]])
  {
    var key := Column(next, n);
    var seen' := if key in seen then seen else seen[key := |seen|];
    OneMoreColumn(next, n);
    assert Numbered(seen') && seen'.Keys == seen.Keys + {key} by {
      if key !in seen {
        OneMoreNumber(seen, key);
      }
    }
    forall c | 0 <= c < n + 1
      ensures Column(next, c) in seen' && (classMap + [seen'[key]])[c] == seen'[Column(next, c)]
    {
      if c < n {
        assert Column(next, c) in seen;
      }
    }
  }

  lemma ClassesTell(next: seq<seq<int>>, seen: map<seq<nat>, nat>, classMap: seq<nat>)
    requires Square(next) && Classes(next, BYTES, seen, classMap)
    ensures |seen| == |Columns(next, BYTES)| <= BYTES && forall b :: 0 <= b < BYTES ==> classMap[b] < |seen|
    ensures forall b, c :: 0 <= b < BYTES && 0 <= c < BYTES ==>
              (classMap[b] == classMap[c] <==> Column(next, b) == Column(next, c))
  {
    FewColumns(next, BYTES);
    assert |seen| == |seen.Keys|;
  }

  // Different keys have different numbers, none past their count.
  ghost predicate Numbered(seen: map<seq<nat>, nat>) {
    && (forall k :: k in seen ==> seen[k] < |seen|)
    && forall k, l :: k in seen && l in seen && seen[k] == seen[l] ==> k == l
  }

  lemma OneMoreNumber(seen: map<seq<nat>, nat>, key: seq<nat>)
    requires Numbered(seen) && key !in seen
    ensures Numbered(seen[key := |seen|]) && seen[key := |seen|].Keys == seen.Keys + {key}
  {
    assert |seen[key := |seen|]| == |seen| + 1;
  }

  lemma {:induction false} FewColumns(next: seq<seq<int>>, n: nat)
    requires n <= BYTES && Square(next)
    ensures |Columns(next, n)| <= n
  {
    if n > 0 {
      FewColumns(next, n - 1);
      OneMoreColumn(next, n - 1);
    }
  }

  // A power of two, rounded up, so that a row index is a shift.
  method NextPow2(n: nat) returns (p: nat, ghost k: nat)
    requires n > 0
    ensures n <= p < 2 * n && p == Pow2(k)
  {
    p, k := 1, 0;
    while p < n
      invariant 0 < p < 2 * n && p == Pow2(k)
      decreases n - p
    {
      p, k := 2 * p, k + 1;
    }
  }

  lemma {:induction false} Pow2Apart(a: nat, b: nat)
    requires a < b
    ensures Pow2(a) < Pow2(b)
    decreases b
  {
    if a < b - 1 {
      Pow2Apart(a, b - 1);
    }
  }

  method Log2Exact(n: nat, ghost exact: nat) returns (k: nat)
    requires n == Pow2(exact)
    ensures Pow2(k) == n
  {
    k := 0;
    var p := 1;
    while p < n
      invariant p == Pow2(k) && k <= exact
      decreases exact - k
    {
      if k == exact {
        assert false;
      }
      p, k := 2 * p, k + 1;
    }
    if k < exact {
      Pow2Apart(k, exact);
      assert false;
    }
  }

  // ---- Rows ----

  // Where a row's entry is.
  function Entry(id: nat, column: nat, stride: nat): nat {
    id * stride + column
  }

  lemma EntryFits(id: nat, column: nat, stride: nat, n: nat)
    requires id < n && column < stride
    ensures Entry(id, column, stride) < n * stride
  {
    assert (id + 1) * stride == id * stride + stride;
    Product(id + 1, n, stride);
  }

  lemma Product(a: nat, b: nat, w: nat)
    requires a <= b
    ensures a * w <= b * w
  {
  }

  lemma EntriesApart(a: nat, c: nat, b: nat, d: nat, stride: nat)
    requires c < stride && d < stride && a < b
    ensures Entry(a, c, stride) < Entry(b, d, stride)
  {
    EntryFits(a, c, stride, b);
  }

  // The column of a byte: its class, or itself.
  function ColumnOf(compressed: bool, classMap: seq<nat>, b: nat): nat {
    if compressed && b < |classMap| then classMap[b] else b
  }

  // Bytes that share a column lead every node alike.
  ghost predicate Classed(next: seq<seq<int>>, compressed: bool, classMap: seq<nat>, stride: nat)
    requires Square(next)
  {
    && (forall b :: 0 <= b < BYTES ==> ColumnOf(compressed, classMap, b) < stride)
    && forall i, b, c :: 0 <= i < |next| && 0 <= b < BYTES && 0 <= c < BYTES
                         && ColumnOf(compressed, classMap, b) == ColumnOf(compressed, classMap, c) ==>
         next[i][b] == next[i][c]
  }

  ghost predicate InRange(next: seq<seq<int>>) {
    Square(next) && forall i, b :: 0 <= i < |next| && 0 <= b < BYTES ==> 0 <= next[i][b] < |next|
  }

  // Row id holds, for its first n bytes, where they lead.
  ghost predicate RowHolds(goto: seq<nat>, id: nat, row: seq<int>, oldToNew: seq<nat>, compressed: bool,
                           classMap: seq<nat>,
                           stride: nat, n: nat)
  {
    forall b :: 0 <= b < n ==>
      b < |row| && 0 <= row[b] < |oldToNew| && Entry(id, ColumnOf(compressed, classMap, b), stride) < |goto|
      && goto[Entry(id, ColumnOf(compressed, classMap, b), stride)] == oldToNew[row[b]]
  }

  // Some byte reads this entry in the row.
  ghost predicate ReadIn(k: nat, id: nat, compressed: bool, classMap: seq<nat>, stride: nat) {
    exists b :: 0 <= b < BYTES && k == Entry(id, ColumnOf(compressed, classMap, b), stride)
  }

  // What no byte reads stays zero.
  ghost predicate RestZero(goto: seq<nat>, n: nat, compressed: bool, classMap: seq<nat>, stride: nat) {
    forall k :: 0 <= k < |goto| && (forall id :: 0 <= id < n ==> !ReadIn(k, id, compressed, classMap, stride)) ==>
      goto[k] == 0
  }

  // One row, byte by byte; a byte of a class seen before writes the same target again.
  method WriteRow(goto0: seq<nat>, id: nat, next: seq<seq<int>>, node: nat, oldToNew: seq<nat>, compressed: bool,
                  classMap: seq<nat>, stride: nat)
    returns (goto: seq<nat>)
    requires InRange(next) && node < |next| == |oldToNew| <= MAX_NODES && id < |next| && |goto0| == |next| * stride
    requires Classed(next, compressed, classMap, stride) && forall i :: 0 <= i < |oldToNew| ==> oldToNew[i] < |next|
    ensures |goto| == |goto0| && RowHolds(goto, id, next[node], oldToNew, compressed, classMap, stride, BYTES)
    ensures forall k, c :: 0 <= k < |next| && k != id && 0 <= c < stride && Entry(k, c, stride) < |goto| ==>
              goto[Entry(k, c, stride)] == goto0[Entry(k, c, stride)]
    ensures forall k :: 0 <= k < |goto| && !ReadIn(k, id, compressed, classMap, stride) ==> goto[k] == goto0[k]
  {
    goto := goto0;
    for b := 0 to BYTES
      invariant |goto| == |goto0|
      invariant forall k :: 0 <= k < |goto| && !ReadIn(k, id, compressed, classMap, stride) ==> goto[k] == goto0[k]
      invariant |goto| == |goto0| && RowHolds(goto, id, next[node], oldToNew, compressed, classMap, stride, b)
      invariant forall k, c :: 0 <= k < |next| && k != id && 0 <= c < stride && Entry(k, c, stride) < |goto| ==>
                  goto[Entry(k, c, stride)] == goto0[Entry(k, c, stride)]
    {
      var c := ColumnOf(compressed, classMap, b);
      EntryFits(id, c, stride, |next|);
      var written := goto[Entry(id, c, stride) := U16(oldToNew[next[node][b]])];
      RowStays(goto, written, id, next, node, oldToNew, compressed, classMap, stride, b);
      OthersStay(goto0, goto, written, id, c, |next|, stride);
      assert ReadIn(Entry(id, c, stride), id, compressed, classMap, stride);
      goto := written;
    }
  }

  lemma RowStays(goto: seq<nat>, written: seq<nat>, id: nat, next: seq<seq<int>>, node: nat, oldToNew: seq<nat>,
                 compressed: bool, classMap: seq<nat>, stride: nat, b: nat)
    requires InRange(next) && node < |next| == |oldToNew| <= MAX_NODES && b < BYTES
    requires Classed(next, compressed, classMap, stride) && forall i :: 0 <= i < |oldToNew| ==> oldToNew[i] < |next|
    requires RowHolds(goto, id, next[node], oldToNew, compressed, classMap, stride, b)
    requires Entry(id, ColumnOf(compressed, classMap, b), stride) < |goto|
    requires written == goto[Entry(id, ColumnOf(compressed, classMap, b), stride) := U16(oldToNew[next[node][b]])]
    ensures RowHolds(written, id, next[node], oldToNew, compressed, classMap, stride, b + 1)
  {
    var row := next[node];
    forall d | 0 <= d < b + 1
      ensures 0 <= row[d] < |oldToNew| && Entry(id, ColumnOf(compressed, classMap, d), stride) < |written|
      ensures written[Entry(id, ColumnOf(compressed, classMap, d), stride)] == oldToNew[row[d]]
    {
      if ColumnOf(compressed, classMap, d) == ColumnOf(compressed, classMap, b) {
        assert row[d] == row[b];
      }
    }
  }

  lemma OthersStay(goto0: seq<nat>, goto: seq<nat>, written: seq<nat>, id: nat, column: nat, n: nat, stride: nat)
    requires |goto0| == |goto| == |written| && id < n && column < stride && Entry(id, column, stride) < |goto|
    requires written == goto[Entry(id, column, stride) := written[Entry(id, column, stride)]]
    requires forall k, c :: 0 <= k < n && k != id && 0 <= c < stride && Entry(k, c, stride) < |goto| ==>
               goto[Entry(k, c, stride)] == goto0[Entry(k, c, stride)]
    ensures forall k, c :: 0 <= k < n && k != id && 0 <= c < stride && Entry(k, c, stride) < |goto| ==>
              written[Entry(k, c, stride)] == goto0[Entry(k, c, stride)]
  {
    forall k, c | 0 <= k < n && k != id && 0 <= c < stride && Entry(k, c, stride) < |goto|
      ensures written[Entry(k, c, stride)] == goto0[Entry(k, c, stride)]
    {
      if k < id {
        EntriesApart(k, c, id, column, stride);
      } else {
        EntriesApart(id, column, k, c, stride);
      }
    }
  }

  // Every row holds its node's edges, renumbered.
  ghost predicate GotoOk(goto: seq<nat>, next: seq<seq<int>>, oldToNew: seq<nat>, newToOld: seq<nat>, compressed: bool,
                         classMap: seq<nat>, stride: nat, rows: nat)
  {
    forall id :: 0 <= id < rows && id < |newToOld| && newToOld[id] < |next| ==>
      RowHolds(goto, id, next[newToOld[id]], oldToNew, compressed, classMap, stride, BYTES)
  }

  method WriteGoto(next: seq<seq<int>>, oldToNew: seq<nat>, newToOld: seq<nat>, compressed: bool, classMap: seq<nat>,
                   stride: nat)
    returns (goto: seq<nat>)
    requires InRange(next) && |next| == |oldToNew| == |newToOld| <= MAX_NODES
    requires Classed(next, compressed, classMap, stride)
    requires forall i :: 0 <= i < |next| ==> oldToNew[i] < |next| && newToOld[i] < |next|
    ensures |goto| == |next| * stride
    ensures GotoOk(goto, next, oldToNew, newToOld, compressed, classMap, stride, |next|)
    ensures RestZero(goto, |next|, compressed, classMap, stride)
  {
    goto := seq(|next| * stride, _ => 0);
    for id := 0 to |next|
      invariant |goto| == |next| * stride && RestZero(goto, |next|, compressed, classMap, stride)
      invariant |goto| == |next| * stride && GotoOk(goto, next, oldToNew, newToOld, compressed, classMap, stride, id)
    {
      var more := WriteRow(goto, id, next, newToOld[id], oldToNew, compressed, classMap, stride);
      EarlierRows(goto, more, id, next, oldToNew, newToOld, compressed, classMap, stride);
      goto := more;
    }
  }

  lemma EarlierRows(goto: seq<nat>, more: seq<nat>, id: nat, next: seq<seq<int>>, oldToNew: seq<nat>,
                    newToOld: seq<nat>,
                    compressed: bool, classMap: seq<nat>, stride: nat)
    requires InRange(next) && |next| == |oldToNew| == |newToOld| && id < |next| && |goto| == |more|
    requires Classed(next, compressed, classMap, stride)
    requires GotoOk(goto, next, oldToNew, newToOld, compressed, classMap, stride, id)
    requires newToOld[id] < |next| && RowHolds(more, id, next[newToOld[id]], oldToNew, compressed, classMap, stride,
             BYTES)
    requires forall k, c :: 0 <= k < |next| && k != id && 0 <= c < stride && Entry(k, c, stride) < |goto| ==>
               more[Entry(k, c, stride)] == goto[Entry(k, c, stride)]
    ensures GotoOk(more, next, oldToNew, newToOld, compressed, classMap, stride, id + 1)
  {
    forall k | 0 <= k < id && newToOld[k] < |next|
      ensures RowHolds(more, k, next[newToOld[k]], oldToNew, compressed, classMap, stride, BYTES)
    {
      assert RowHolds(goto, k, next[newToOld[k]], oldToNew, compressed, classMap, stride, BYTES);
    }
  }

  // ---- Outputs ----

  lemma {:induction false} OutputsRise(output: seq<seq<nat>>, newToOld: seq<nat>, m: nat, n: nat)
    requires m <= n <= |newToOld|
    ensures Outputs(output, newToOld, m) <= Outputs(output, newToOld, n)
    decreases n
  {
    if m < n {
      OutputsRise(output, newToOld, m, n - 1);
    }
  }

  // Each node's slice of the flat list is its output.
  ghost predicate SliceOk(output: seq<seq<nat>>, newToOld: seq<nat>, nodeOut: seq<nat>, flat: seq<nat>, id: nat)
    requires id + 1 < |nodeOut| && id < |newToOld| && newToOld[id] < |output|
  {
    nodeOut[id] <= nodeOut[id + 1] <= |flat| && flat[nodeOut[id]..nodeOut[id + 1]] == output[newToOld[id]]
  }

  ghost predicate SlicesOk(output: seq<seq<nat>>, newToOld: seq<nat>, nodeOut: seq<nat>, flat: seq<nat>) {
    && |nodeOut| == |newToOld| + 1 && nodeOut[|newToOld|] == |flat|
    && forall id :: 0 <= id < |newToOld| ==> newToOld[id] < |output| && SliceOk(output, newToOld, nodeOut, flat, id)
  }

  ghost predicate SmallIds(output: seq<seq<nat>>) {
    forall i, j :: 0 <= i < |output| && 0 <= j < |output[i]| ==> output[i][j] < 65536
  }

  method StartOffsets(output: seq<seq<nat>>, newToOld: seq<nat>) returns (starts: seq<nat>, total: nat)
    requires |output| == |newToOld| && forall k :: 0 <= k < |newToOld| ==> newToOld[k] < |output|
    ensures |starts| == |newToOld| + 1 && total == Outputs(output, newToOld, |newToOld|)
    ensures forall id :: 0 <= id <= |newToOld| ==> starts[id] == Outputs(output, newToOld, id)
  {
    starts, total := [], 0;
    for id := 0 to |newToOld|
      invariant |starts| == id && total == Outputs(output, newToOld, id)
      invariant forall k :: 0 <= k < id ==> starts[k] == Outputs(output, newToOld, k)
    {
      starts, total := starts + [total], total + |output[newToOld[id]]|;
    }
    starts := starts + [total];
  }

  // One node's literal ids, at their place in the flat list.
  method WriteSlice(flat0: seq<nat>, start: nat, ids: seq<nat>) returns (flat: seq<nat>)
    requires start + |ids| <= |flat0| && forall j :: 0 <= j < |ids| ==> ids[j] < 65536
    ensures |flat| == |flat0| && flat[start..start + |ids|] == ids
    ensures forall k :: 0 <= k < |flat| && !(start <= k < start + |ids|) ==> flat[k] == flat0[k]
  {
    flat := flat0;
    for j := 0 to |ids|
      invariant |flat| == |flat0| && forall k :: 0 <= k < j ==> flat[start + k] == ids[k]
      invariant forall k :: 0 <= k < |flat| && !(start <= k < start + j) ==> flat[k] == flat0[k]
    {
      flat := flat[start + j := U16(ids[j])];
    }
  }

  method WriteOutputs(output: seq<seq<nat>>, newToOld: seq<nat>) returns (nodeOut: seq<nat>, flat: seq<nat>)
    requires |output| == |newToOld| && (forall k :: 0 <= k < |newToOld| ==> newToOld[k] < |output|)
    requires SmallIds(output) && Outputs(output, newToOld, |newToOld|) <= MAX_OUTPUTS
    ensures SlicesOk(output, newToOld, nodeOut, flat)
  {
    var starts, total := StartOffsets(output, newToOld);
    var n := |newToOld|;
    nodeOut := seq(n + 1, i requires 0 <= i < |starts| => U16(starts[i]));
    forall id | 0 <= id <= n ensures nodeOut[id] == starts[id] <= total {
      OutputsRise(output, newToOld, id, n);
    }
    flat := seq(total, _ => 0);
    for id := 0 to n
      invariant |flat| == total
      invariant forall k :: 0 <= k < id ==> SliceOk(output, newToOld, nodeOut, flat, k)
    {
      assert starts[id + 1] == starts[id] + |output[newToOld[id]]|;
      var more := WriteSlice(flat, starts[id], output[newToOld[id]]);
      forall k | 0 <= k < id ensures SliceOk(output, newToOld, nodeOut, more, k) {
        assert SliceOk(output, newToOld, nodeOut, flat, k);
        OutputsRise(output, newToOld, k + 1, id);
        assert more[nodeOut[k]..nodeOut[k + 1]] == flat[nodeOut[k]..nodeOut[k + 1]];
      }
      flat := more;
    }
  }

  // ---- The layout ----

  datatype Layout = Layout(
    goto: seq<nat>, nodeOut: seq<nat>, output: seq<nat>, compressed: bool, classMap: seq<nat>,
    stride: nat, shift: nat, outLimit: nat, oldToNew: seq<nat>,
    gotoOff: nat, nodeOutOff: nat, outputOff: nat, classMapOff: nat, tableEnd: nat)

  // The tables follow one another without overlapping, entries two bytes wide, the class map last.
  ghost predicate Apart(l: Layout, base: nat) {
    && l.gotoOff == base && l.nodeOutOff == l.gotoOff + 2 * |l.goto| && l.outputOff == l.nodeOutOff + 2 * |l.nodeOut|
    && l.tableEnd == l.outputOff + 2 * |l.output| + (if l.compressed then |l.classMap| else 0)
    && (l.compressed ==> l.classMapOff == l.outputOff + 2 * |l.output|)
  }

  // The tables are the automaton under its new numbers.
  ghost predicate Refines(l: Layout, a: Automaton, newToOld: seq<nat>) {
    && Renumbered(a.output, l.oldToNew, newToOld, l.outLimit) && |a.next| == |a.output|
    && l.stride <= BYTES && 2 * l.stride == Pow2(l.shift) && |l.goto| == |a.next| * l.stride && |l.classMap| == BYTES
    && (forall b :: 0 <= b < BYTES ==> ColumnOf(l.compressed, l.classMap, b) < l.stride)
    && GotoOk(l.goto, a.next, l.oldToNew, newToOld, l.compressed, l.classMap, l.stride, |a.next|)
    && SlicesOk(a.output, newToOld, l.nodeOut, l.output)
  }

  lemma Large()
    ensures Pow2(8) == 256 && Pow2(9) == 512
  {
    assert Pow2(4) == 16 by {
      assert Pow2(2) == 4 && Pow2(3) == 8;
    }
    assert Pow2(6) == 64 && Pow2(7) == 128;
  }

  // ---- Literal ids fit an entry ----

  function Flat(output: seq<seq<nat>>, n: nat): (ids: seq<nat>)
    requires n <= |output|
    ensures |ids| == Total(output, n)
  {
    if n == 0 then [] else Flat(output, n - 1) + output[n - 1]
  }

  lemma {:induction false} FlatHas(output: seq<seq<nat>>, n: nat, i: nat)
    requires i < n <= |output|
    ensures forall id :: id in output[i] ==> id in Flat(output, n)
  {
    if i < n - 1 {
      FlatHas(output, n - 1, i);
    }
  }

  lemma {:induction false} ElementsFit(ids: seq<nat>)
    ensures |Elements(ids)| <= |ids|
  {
    if ids == [] {
      assert Elements(ids) == {};
    } else {
      var init, last := ids[..|ids| - 1], ids[|ids| - 1];
      assert ids == init + [last];
      ElementsFit(init);
      assert Elements(ids) == Elements(init) + {last};
    }
  }

  // Every literal is some node's output, so there are no more literals than outputs.
  lemma LiteralsAreOutputs(a: Automaton, words: seq<Word>, lits: seq<Word>)
    requires Complete(a, words, lits)
    ensures |lits| <= Total(a.output, |a.output|)
  {
    var ids := Flat(a.output, |a.output|);
    forall i: nat | i < |lits| ensures i in Elements(ids) {
      var n := LiteralNode(a, words, lits, i);
      FlatHas(a.output, |a.output|, n);
    }
    SubsetSize(Below(|lits|), Elements(ids));
    ElementsFit(ids);
  }

  lemma LiteralNode(a: Automaton, words: seq<Word>, lits: seq<Word>, i: nat) returns (n: nat)
    requires Complete(a, words, lits) && i < |lits|
    ensures n < |a.output| && i in a.output[n]
  {
    assert lits[i] in words;
    n :| 0 <= n < |words| && words[n] == lits[i];
    assert Exact(a.output[n], lits, words[n]) && IsSuffix(lits[i], words[n]);
  }

  lemma CompleteShape(a: Automaton, words: seq<Word>, lits: seq<Word>)
    requires Complete(a, words, lits) && NoneEmpty(lits)
    ensures InRange(a.next) && |a.next| == |a.output| > 0 && a.output[0] == []
    ensures forall i, j :: 0 <= i < |a.output| && 0 <= j < |a.output[i]| ==> a.output[i][j] < |lits|
  {
    forall i, b | 0 <= i < |a.next| && 0 <= b < BYTES ensures 0 <= a.next[i][b] < |a.next| {
      assert RowDone(a.next[i], words, i);
      assert StepOk(a.next[i][b], words, i, b);
    }
    forall i, j | 0 <= i < |a.output| && 0 <= j < |a.output[i]| ensures a.output[i][j] < |lits| {
      assert Exact(a.output[i], lits, words[i]) && a.output[i][j] in a.output[i];
    }
    RootSilent(a.output[0], lits);
  }

  lemma RootSilent(ids: seq<nat>, lits: seq<Word>)
    requires Exact(ids, lits, []) && NoneEmpty(lits)
    ensures ids == []
  {
    if ids != [] {
      NeverEmpty(ids, lits, ids[0]);
    }
  }

  lemma NeverEmpty(ids: seq<nat>, lits: seq<Word>, i: nat)
    requires Exact(ids, lits, []) && NoneEmpty(lits)
    ensures i !in ids
  {
    assert i < |lits| ==> lits[i] != [] && !IsSuffix(lits[i], []);
  }

  lemma ClassesAgree(next: seq<seq<int>>, classMap: seq<nat>, numClasses: nat, stride: nat)
    requires InRange(next) && |next| <= MAX_NODES && |classMap| == BYTES && numClasses <= stride
    requires forall b :: 0 <= b < BYTES ==> classMap[b] < numClasses
    requires forall b, c :: 0 <= b < BYTES && 0 <= c < BYTES ==>
               (classMap[b] == classMap[c] <==> Column(next, b) == Column(next, c))
    ensures Classed(next, true, classMap, stride)
  {
    forall i, b, c | 0 <= i < |next| && 0 <= b < BYTES && 0 <= c < BYTES && classMap[b] == classMap[c]
      ensures next[i][b] == next[i][c]
    {
      assert Column(next, b)[i] == Column(next, c)[i];
    }
  }

  // By class exactly when that was asked for and half a row holds the classes; then as narrow as a power of two can be.
  ghost predicate RightWidth(next: seq<seq<int>>, compress: bool, compressed: bool, stride: nat)
    requires Square(next)
  {
    var classes := |Columns(next, BYTES)|;
    && (compressed <==> compress && classes <= 128)
    && if compressed then classes <= stride < 2 * classes else stride == BYTES
  }

  lemma PastHalf(p: nat, k: nat)
    requires p == Pow2(k) && p > 128
    ensures p >= BYTES
  {
    Large();
    if k < 8 {
      SevenAtMost(k);
    } else if k > 8 {
      Pow2Apart(8, k);
    }
  }

  lemma SevenAtMost(k: nat)
    requires k < 8
    ensures Pow2(k) <= 128
  {
    Large();
    assert Pow2(8) == 2 * Pow2(7);
    if k < 7 {
      Pow2Apart(k, 7);
    }
  }

  // The width of a row: by class when that is narrower than a byte's, else by byte.
  method Widths(next: seq<seq<int>>, compress: bool)
    returns (compressed: bool, classMap: seq<nat>, stride: nat, ghost k: nat)
    requires InRange(next) && |next| <= MAX_NODES
    ensures |classMap| == BYTES && stride <= BYTES && stride == Pow2(k)
    ensures Classed(next, compressed, classMap, stride) && RightWidth(next, compress, compressed, stride)
  {
    compressed, stride, k := false, BYTES, 8;
    Large();
    classMap := seq(BYTES, i => i);
    if compress {
      var numClasses;
      classMap, numClasses := ByteClasses(next);
      assert Column(next, 0) in Columns(next, BYTES);
      var p, j := NextPow2(numClasses);
      if p > 128 {
        PastHalf(p, j);
      }
      if p < BYTES {
        compressed, stride, k := true, p, j;
        ClassesAgree(next, classMap, numClasses, stride);
      }
    }
  }

  // buildACLayoutMode, within the limits the caller demotes a set past.
  method BuildLayout(a: Automaton, base: nat, compress: bool, ghost words: seq<Word>, ghost lits: seq<Word>)
    returns (l: Layout, newToOld: seq<nat>)
    requires Complete(a, words, lits) && NoneEmpty(lits)
    requires |a.next| <= MAX_NODES && Total(a.output, |a.output|) <= MAX_OUTPUTS
    ensures Refines(l, a, newToOld) && Apart(l, base) && RightWidth(a.next, compress, l.compressed, l.stride)
  {
    CompleteShape(a, words, lits);
    LiteralsAreOutputs(a, words, lits);
    l, newToOld := Tables(a, base, compress);
  }

  method Tables(a: Automaton, base: nat, compress: bool) returns (l: Layout, newToOld: seq<nat>)
    requires InRange(a.next) && 0 < |a.next| == |a.output| <= MAX_NODES && a.output[0] == [] && SmallIds(a.output)
    requires Total(a.output, |a.output|) <= MAX_OUTPUTS
    ensures Refines(l, a, newToOld) && Apart(l, base) && RightWidth(a.next, compress, l.compressed, l.stride)
  {
    var oldToNew, outLimit;
    oldToNew, newToOld, outLimit := Renumber(a.output);
    var compressed, classMap, stride, k := Widths(a.next, compress);
    var shift := Log2Exact(stride * 2, k + 1);
    var goto := WriteGoto(a.next, oldToNew, newToOld, compressed, classMap, stride);
    var nodeOut, output := WriteOutputs(a.output, newToOld);
    var nodeOutOff := base + 2 * |goto|;
    var outputOff := nodeOutOff + 2 * |nodeOut|;
    var tableEnd := outputOff + 2 * |output|;
    l := Layout(goto, nodeOut, output, compressed, classMap, stride, shift, outLimit, oldToNew,
                base, nodeOutOff, outputOff, if compressed then tableEnd else 0,
                if compressed then tableEnd + |classMap| else tableEnd);
  }

  // ---- Walking the tables ----

  // i32.shl, where nothing is shifted out.
  function Shl(x: nat, k: nat): nat {
    if k == 0 then x else 2 * Shl(x, k - 1)
  }

  lemma {:induction false} ShlIs(x: nat, k: nat)
    ensures Shl(x, k) == x * Pow2(k)
  {
    if k > 0 {
      ShlIs(x, k - 1);
      assert x * (2 * Pow2(k - 1)) == 2 * (x * Pow2(k - 1));
    }
  }

  // The entry a lookup reads: the row at the state shifted, two bytes an entry.
  function Looked(l: Layout, state: nat, b: nat): nat {
    (Shl(state, l.shift) + 2 * ColumnOf(l.compressed, l.classMap, b)) / 2
  }

  // The state after a text, one shifted lookup per byte.
  function TableWalk(l: Layout, w: Word): nat {
    if w == [] then 0
    else
      var at := Looked(l, TableWalk(l, w[..|w| - 1]), w[|w| - 1]);
      if at < |l.goto| then l.goto[at] else 0
  }

  // What a state reports: nothing unless it passes the one unsigned compare, else its slice.
  function Reports(l: Layout, state: nat): seq<nat>
    requires Wrap(state - 1) < l.outLimit ==>
               state + 1 < |l.nodeOut| && l.nodeOut[state] <= l.nodeOut[state + 1] <= |l.output|
  {
    if Wrap(state - 1) < l.outLimit then l.output[l.nodeOut[state]..l.nodeOut[state + 1]] else []
  }

  lemma Doubled(x: nat, stride: nat, p: nat)
    requires p == 2 * stride
    ensures x * p == 2 * (x * stride)
  {
  }

  // The byte offset of a row is its id shifted.
  lemma RowShift(l: Layout, a: Automaton, newToOld: seq<nat>, id: nat, b: nat)
    requires Refines(l, a, newToOld)
    ensures Looked(l, id, b) == Entry(id, ColumnOf(l.compressed, l.classMap, b), l.stride)
  {
    ShlIs(id, l.shift);
    Doubled(id, l.stride, Pow2(l.shift));
  }

  lemma {:induction false} WalkInRange(a: Automaton, w: Word)
    requires InRange(a.next) && |a.next| > 0
    ensures 0 <= Walk(a, w) < |a.next|
  {
    if w != [] {
      WalkInRange(a, w[..|w| - 1]);
    }
  }

  // The tables walk as the automaton does, under its new numbers.
  lemma {:induction false} TableWalkIsWalk(l: Layout, a: Automaton, newToOld: seq<nat>, w: Word)
    requires InRange(a.next) && Refines(l, a, newToOld) && forall i :: 0 <= i < |w| ==> w[i] < BYTES
    ensures 0 <= Walk(a, w) < |a.next| && TableWalk(l, w) == l.oldToNew[Walk(a, w)]
  {
    WalkInRange(a, w);
    if w != [] {
      var init, b := w[..|w| - 1], w[|w| - 1];
      TableWalkIsWalk(l, a, newToOld, init);
      RowShift(l, a, newToOld, TableWalk(l, init), b);
      TableStep(l, a, newToOld, Walk(a, init), b);
    }
  }

  lemma TableStep(l: Layout, a: Automaton, newToOld: seq<nat>, n: nat, b: nat)
    requires Refines(l, a, newToOld) && n < |a.next| && b < BYTES && b < |a.next[n]|
    ensures var at := Entry(l.oldToNew[n], ColumnOf(l.compressed, l.classMap, b), l.stride);
            at < |l.goto| && 0 <= a.next[n][b] < |l.oldToNew| && l.goto[at] == l.oldToNew[a.next[n][b]]
  {
    var id := l.oldToNew[n];
    assert newToOld[id] == n;
    assert RowHolds(l.goto, id, a.next[newToOld[id]], l.oldToNew, l.compressed, l.classMap, l.stride, BYTES);
  }

  // A state reports exactly its node's output.
  lemma StateReports(l: Layout, a: Automaton, newToOld: seq<nat>, n: nat)
    requires Refines(l, a, newToOld) && n < |a.output| <= MAX_NODES
    ensures var state := l.oldToNew[n];
            && (Wrap(state - 1) < l.outLimit <==> a.output[n] != [])
            && state + 1 < |l.nodeOut| && l.nodeOut[state] <= l.nodeOut[state + 1] <= |l.output|
            && Reports(l, state) == a.output[n]
  {
    var state := l.oldToNew[n];
    assert newToOld[state] == n && Wrap(-1) == WORD - 1;
    assert SliceOk(a.output, newToOld, l.nodeOut, l.output, state);
  }

  // The tables report after any text what the automaton's node holds.
  lemma TablesReport(l: Layout, a: Automaton, newToOld: seq<nat>, w: Word)
    requires InRange(a.next) && Refines(l, a, newToOld) && |a.next| <= MAX_NODES
    requires forall i :: 0 <= i < |w| ==> w[i] < BYTES
    ensures var state := TableWalk(l, w);
            && 0 <= Walk(a, w) < |a.output| && state + 1 < |l.nodeOut|
            && l.nodeOut[state] <= l.nodeOut[state + 1] <= |l.output| && Reports(l, state) == a.output[Walk(a, w)]
  {
    TableWalkIsWalk(l, a, newToOld, w);
    StateReports(l, a, newToOld, Walk(a, w));
  }

  lemma WalkOutput(a: Automaton, words: seq<Word>, lits: seq<Word>, w: Word)
    requires Complete(a, words, lits) && forall i :: 0 <= i < |w| ==> w[i] < BYTES
    ensures 0 <= Walk(a, w) < |a.output| && Exact(a.output[Walk(a, w)], lits, w)
  {
    WalkExact(a, words, lits, w);
    EndsAtWalk(a, words, lits, w);
  }

  // After any text the tables report the literals that end there, each once.
  lemma TablesAreExact(l: Layout, a: Automaton, newToOld: seq<nat>, words: seq<Word>, lits: seq<Word>, w: Word)
    requires Complete(a, words, lits) && NoneEmpty(lits) && Refines(l, a, newToOld) && |a.next| <= MAX_NODES
    requires forall i :: 0 <= i < |w| ==> w[i] < BYTES
    ensures var state := TableWalk(l, w);
            && state + 1 < |l.nodeOut| && l.nodeOut[state] <= l.nodeOut[state + 1] <= |l.output|
            && Exact(Reports(l, state), lits, w)
  {
    CompleteShape(a, words, lits);
    TablesReport(l, a, newToOld, w);
    WalkOutput(a, words, lits, w);
  }
}
