/** Laws of the plain records: every state a program reaches is a forest, so an assignment through a
handle shows in that record and its ancestors and nowhere else. */
module RecordLaws {
  import opened Options
  import opened PlainRecords

  /** Every reference in `nodes`, placed at `at`, points further on and stays inside. */
  ghost predicate Forward(nodes: seq<Node>, at: nat) {
    forall k, i {:trigger nodes[k].cells[i]} | 0 <= k < |nodes| && nodes[k].RowNode?
      && 0 <= i < |nodes[k].cells| && nodes[k].cells[i].Sub? ::
      at + k < nodes[k].cells[i].node < at + |nodes|
  }

  /** No record is a column of two records, nor of one record twice. */
  ghost predicate OneParent(nodes: seq<Node>) {
    forall k, i, l, j {:trigger nodes[k].cells[i], nodes[l].cells[j]}
      | 0 <= k < |nodes| && nodes[k].RowNode? && 0 <= i < |nodes[k].cells|
        && 0 <= l < |nodes| && nodes[l].RowNode? && 0 <= j < |nodes[l].cells| && (k != l || i != j) ::
      nodes[k].cells[i].Sub? && nodes[l].cells[j].Sub? ==> nodes[k].cells[i].node != nodes[l].cells[j].node
  }

  ghost predicate Forest(h: Heap) {
    Forward(h, 0) && OneParent(h)
  }

  lemma AppendForest(a: seq<Node>, b: seq<Node>, at: nat)
    requires Forward(a, at) && OneParent(a) && Forward(b, at + |a|) && OneParent(b)
    ensures Forward(a + b, at) && OneParent(a + b)
  {
    var c := a + b;
    forall k | 0 <= k < |c| ensures c[k] == if k < |a| then a[k] else b[k - |a|] {}
  }

  lemma {:induction false} LayoutForest(v: Val, at: nat)
    ensures Forward(Layout(v, at), at) && OneParent(Layout(v, at))
    decreases v, 0
  {
    match v
    case Row(cols) =>
      LayoutColsForest(cols, |cols|, at + 1);
      RowForest(cols, LayoutCols(cols, |cols|, at + 1), at);
    case _ =>
  }

  lemma RowForest(cols: seq<Val>, rest: seq<Node>, at: nat)
    requires ColsForest(rest, cols, |cols|, at + 1)
    ensures Forward([RowNode(HeadCells(cols, at + 1))] + rest, at)
    ensures OneParent([RowNode(HeadCells(cols, at + 1))] + rest)
  {
    HeadForest(cols, rest, at);
    ConsForest(HeadCells(cols, at + 1), rest, at);
  }

  /** The columns of a record refer to distinct records of `rest`, which nothing in `rest` refers to. */
  ghost predicate HeadOf(cells: seq<Cell>, rest: seq<Node>, at: nat) {
    && (forall i | 0 <= i < |cells| && cells[i].Sub? ::
         at < cells[i].node < at + 1 + |rest| && NotReferred(rest, cells[i].node))
    && (forall i, j | 0 <= i < j < |cells| && cells[i].Sub? && cells[j].Sub? :: cells[i].node != cells[j].node)
  }

  lemma HeadForest(cols: seq<Val>, rest: seq<Node>, at: nat)
    requires |rest| == Offset(cols, |cols|)
    requires forall c {:trigger Offset(cols, c)} | 0 <= c < |cols| :: NotReferred(rest, at + 1 + Offset(cols, c))
    ensures HeadOf(HeadCells(cols, at + 1), rest, at)
  {
    var cells := HeadCells(cols, at + 1);
    forall i | 0 <= i < |cells| && cells[i].Sub?
      ensures at < cells[i].node < at + 1 + |rest| && NotReferred(rest, cells[i].node)
    {
      OffsetMono(cols, i, |cols|);
    }
    forall i, j | 0 <= i < j < |cells| && cells[i].Sub? && cells[j].Sub? ensures cells[i].node != cells[j].node {
      OffsetMono(cols, i, j);
    }
  }

  /** A record put before the forest of its columns. */
  lemma ConsForest(cells: seq<Cell>, rest: seq<Node>, at: nat)
    requires Forward(rest, at + 1) && OneParent(rest) && HeadOf(cells, rest, at)
    ensures Forward([RowNode(cells)] + rest, at) && OneParent([RowNode(cells)] + rest)
  {
    var all := [RowNode(cells)] + rest;
    forall k | 0 < k < |all| ensures all[k] == rest[k - 1] {}
  }

  /** Laid-out columns form a forest in which no column's own record is referred to. */
  ghost predicate ColsForest(nodes: seq<Node>, cols: seq<Val>, n: nat, at: nat)
    requires n <= |cols|
  {
    && Forward(nodes, at) && OneParent(nodes) && |nodes| == Offset(cols, n)
    && forall c {:trigger Offset(cols, c)} | 0 <= c < n :: NotReferred(nodes, at + Offset(cols, c))
  }

  lemma {:induction false} LayoutColsForest(cols: seq<Val>, n: nat, at: nat)
    requires n <= |cols|
    ensures ColsForest(LayoutCols(cols, n, at), cols, n, at)
    decreases cols, n
  {
    if n > 0 {
      LayoutColsForest(cols, n - 1, at);
      LayoutForest(cols[n - 1], at + Offset(cols, n - 1));
      ColsForestStep(LayoutCols(cols, n - 1, at), Layout(cols[n - 1], at + Offset(cols, n - 1)), cols, n, at);
    }
  }

  lemma ColsForestStep(a: seq<Node>, b: seq<Node>, cols: seq<Val>, n: nat, at: nat)
    requires 0 < n <= |cols| && ColsForest(a, cols, n - 1, at)
    requires Forward(b, at + |a|) && OneParent(b) && |b| == Size(cols[n - 1])
    ensures ColsForest(a + b, cols, n, at)
  {
    AppendForest(a, b, at);
    ColumnsNotReferred(cols, n, a, b, at);
  }

  lemma ColumnsNotReferred(cols: seq<Val>, n: nat, a: seq<Node>, b: seq<Node>, at: nat)
    requires 0 < n <= |cols| && |a| == Offset(cols, n - 1) && Forward(a, at) && Forward(b, at + |a|)
    requires forall c {:trigger Offset(cols, c)} | 0 <= c < n - 1 :: NotReferred(a, at + Offset(cols, c))
    ensures forall c {:trigger Offset(cols, c)} | 0 <= c < n :: NotReferred(a + b, at + Offset(cols, c))
  {
    forall c | 0 <= c < n ensures NotReferred(a + b, at + Offset(cols, c)) {
      if c < n - 1 { OffsetMono(cols, c, n - 1); }
      AppendNotReferred(a, b, at, at + Offset(cols, c), c == n - 1);
    }
  }

  lemma AppendNotReferred(a: seq<Node>, b: seq<Node>, at: nat, m: nat, own: bool)
    requires Forward(a, at) && Forward(b, at + |a|) && m <= at + |a|
    requires if own then m == at + |a| else NotReferred(a, m)
    ensures NotReferred(a + b, m)
  {
    var c := a + b;
    forall k | 0 <= k < |c| ensures c[k] == if k < |a| then a[k] else b[k - |a|] {}
  }

  ghost predicate NotReferred(nodes: seq<Node>, m: nat) {
    forall k, i {:trigger nodes[k].cells[i]} | 0 <= k < |nodes| && nodes[k].RowNode? && 0 <= i < |nodes[k].cells| ::
      nodes[k].cells[i] != Sub(m)
  }

  // ---- Reachable states ----

  lemma StoreForest(h: Heap, n: nat, i: nat, c: Cell, extra: seq<Node>)
    requires Forest(h) && n < |h| && h[n].RowNode? && i < |h[n].cells|
    requires Forward(extra, |h|) && OneParent(extra)
    requires c.Sub? ==> c.node == |h| < |h| + |extra|
    ensures Forest(StoreCell(h, n, i, c, extra))
  {
    var h' := h[n := RowNode(h[n].cells[i := c])];
    forall k | 0 <= k < |h + extra| ensures (h' + extra)[k] == if k < |h| then h'[k] else extra[k - |h|] {}
  }

  /** Every step keeps the records a forest. */
  lemma StepForest(m: Machine, op: Op)
    requires Forest(m.heap)
    ensures Forest(Step(m, op).0.heap)
  {
    match op
    case New(v) =>
      LayoutForest(v, |m.heap|);
      AppendForest(m.heap, Layout(v, |m.heap|), 0);
    case Copy(r) =>
      if r < |m.regs| {
        var v := ReadNode(m.heap, m.regs[r]);
        LayoutForest(v, |m.heap|);
        AppendForest(m.heap, Layout(v, |m.heap|), 0);
      }
    case Set(r, attno, src) =>
      if r < |m.regs| && ColumnOk(m.heap, m.regs[r], attno) && SourceOk(m.regs, src) {
        var n := m.regs[r];
        if src.SrcNil? {
          StoreForest(m.heap, n, attno - 1, Missing, []);
        } else {
          var v := if src.SrcPlain? then src.v else ReadNode(m.heap, m.regs[src.reg]);
          LayoutForest(v, |m.heap|);
          StoreForest(m.heap, n, attno - 1, CellOf(v, |m.heap|), Layout(v, |m.heap|));
        }
      }
    case _ =>
  }

  /** The state after a whole program. */
  function Final(m: Machine, prog: seq<Op>): Machine
    decreases |prog|
  {
    if prog == [] then m else Final(Step(m, prog[0]).0, prog[1..])
  }

  lemma {:induction false} ReachableForest(m: Machine, prog: seq<Op>)
    requires Forest(m.heap)
    ensures Forest(Final(m, prog).heap)
    decreases |prog|
  {
    if prog != [] {
      StepForest(m, prog[0]);
      ReachableForest(Step(m, prog[0]).0, prog[1..]);
    }
  }

  // ---- Where an assignment shows ----

  /** The record reached from `a` through the columns named by `path`. */
  function Follow(h: Heap, a: nat, path: seq<nat>): Option<nat>
    decreases |path|
  {
    if a >= |h| then None
    else if path == [] then Some(a)
    else match h[a]
      case RowNode(cells) =>
        if path[0] < |cells| && cells[path[0]].Sub? && a < cells[path[0]].node
        then Follow(h, cells[path[0]].node, path[1..])
        else None
      case _ => None
  }

  /** v with the part at `path` replaced. */
  function PutAt(v: Val, path: seq<nat>, part: Val): Val
    decreases |path|
  {
    if path == [] then part
    else if v.Row? && path[0] < |v.cols| then Row(v.cols[path[0] := PutAt(v.cols[path[0]], path[1..], part)])
    else v
  }

  ghost predicate OnlyNode(h: Heap, h': Heap, n: nat) {
    |h| <= |h'| && forall k | 0 <= k < |h| && k != n :: h'[k] == h[k]
  }

  lemma {:induction false} FollowStep(h: Heap, a: nat, path: seq<nat>)
    requires path != [] && Follow(h, a, path).Some?
    ensures var p := Follow(h, a, path[..|path| - 1]);
            && p.Some? && p.value < |h| && h[p.value].RowNode? && path[|path| - 1] < |h[p.value].cells|
            && h[p.value].cells[path[|path| - 1]] == Sub(Follow(h, a, path).value)
            && a <= p.value < Follow(h, a, path).value
    decreases |path|
  {
    if |path| > 1 {
      var k := h[a].cells[path[0]].node;
      FollowStep(h, k, path[1..]);
      assert path[..|path| - 1][1..] == path[1..][..|path| - 2];
    }
  }

  /** Two different columns of one record never lead to the same record. */
  lemma {:induction false} NoTwoWays(h: Heap, a: nat, i: nat, j: nat, p: seq<nat>, q: seq<nat>)
    requires Forest(h) && a < |h| && h[a].RowNode? && i < |h[a].cells| && j < |h[a].cells| && i != j
    requires h[a].cells[i].Sub? && h[a].cells[j].Sub?
    requires Follow(h, h[a].cells[i].node, p).Some?
    ensures Follow(h, h[a].cells[i].node, p) != Follow(h, h[a].cells[j].node, q)
    decreases |p| + |q|
  {
    var x, y := h[a].cells[i].node, h[a].cells[j].node;
    if Follow(h, x, p) == Follow(h, y, q) {
      if p != [] { FollowStep(h, x, p); }
      if q != [] { FollowStep(h, y, q); }
      if p != [] && q != [] { NoTwoWays(h, a, i, j, p[..|p| - 1], q[..|q| - 1]); }
    }
  }

  /** A record from which n cannot be reached reads as before when only n changes. */
  lemma {:induction false} NowhereElse(h: Heap, h': Heap, n: nat, a: nat)
    requires Forest(h) && OnlyNode(h, h', n) && a < |h|
    requires forall path :: Follow(h, a, path) != Some(n)
    ensures ReadNode(h', a) == ReadNode(h, a)
    decreases |h| - a
  {
    assert Follow(h, a, []) == Some(a);
    if h[a].RowNode? {
      var cells := h[a].cells;
      forall k | 0 <= k < |cells| ensures ReadCell(h', a, cells[k]) == ReadCell(h, a, cells[k]) {
        if cells[k].Sub? {
          forall path ensures Follow(h, cells[k].node, path) != Some(n) {
            assert Follow(h, a, [k] + path) != Some(n);
            assert ([k] + path)[1..] == path;
          }
          NowhereElse(h, h', n, cells[k].node);
        }
      }
    }
  }

  /** When only record n changes, every record that has n below it changes exactly there. */
  lemma {:induction false} ShowsInAncestors(h: Heap, h': Heap, n: nat, a: nat, path: seq<nat>)
    requires Forest(h) && OnlyNode(h, h', n) && Follow(h, a, path) == Some(n)
    ensures ReadNode(h', a) == PutAt(ReadNode(h, a), path, ReadNode(h', n))
    decreases |path|
  {
    if path != [] {
      FollowStep(h, a, path);
      var cells, c := h[a].cells, path[0];
      var below := cells[c].node;
      assert [c] + path[1..] == path;
      ShowsInAncestors(h, h', n, below, path[1..]);
      assert n > a by { FollowUp(h, below, path[1..]); }
      forall k | 0 <= k < |cells| && k != c ensures ReadCell(h', a, cells[k]) == ReadCell(h, a, cells[k]) {
        if cells[k].Sub? {
          forall q ensures Follow(h, cells[k].node, q) != Some(n) { NoTwoWays(h, a, c, k, path[1..], q); }
          NowhereElse(h, h', n, cells[k].node);
        }
      }
    }
  }

  lemma {:induction false} FollowUp(h: Heap, a: nat, path: seq<nat>)
    requires Follow(h, a, path).Some?
    ensures a <= Follow(h, a, path).value < |h|
    decreases |path|
  {
    if path != [] { FollowUp(h, h[a].cells[path[0]].node, path[1..]); }
  }

  /** Storing a value in a column changes that record alone, and there exactly that column. */
  lemma StoreShows(h: Heap, n: nat, i: nat, v: Val)
    requires Forest(h) && n < |h| && h[n].RowNode? && i < |h[n].cells|
    ensures OnlyNode(h, StoreVal(h, n, i, v), n)
    ensures ReadNode(StoreVal(h, n, i, v), n) == Row(ReadNode(h, n).cols[i := v])
  {
    var h', cells := StoreVal(h, n, i, v), h[n].cells;
    StoredReads(h, n, i, v);
    assert OnlyNode(h, h', n);
    forall k | 0 <= k < |cells| && k != i ensures ReadCell(h', n, cells[k]) == ReadCell(h, n, cells[k]) {
      ColumnKept(h, h', n, k);
    }
    assert h'[n] == RowNode(cells[i := CellOf(v, |h|)]);
    var before, after := ReadNode(h, n).cols, ReadNode(h', n).cols;
    assert |after| == |before|;
    assert after == before[i := v];
  }

  lemma ColumnKept(h: Heap, h': Heap, n: nat, k: nat)
    requires Forest(h) && OnlyNode(h, h', n) && n < |h| && h[n].RowNode? && k < |h[n].cells|
    ensures ReadCell(h', n, h[n].cells[k]) == ReadCell(h, n, h[n].cells[k])
  {
    var c := h[n].cells[k];
    if c.Sub? {
      forall path ensures Follow(h, c.node, path) != Some(n) {
        if Follow(h, c.node, path).Some? { FollowUp(h, c.node, path); }
      }
      NowhereElse(h, h', n, c.node);
    }
  }

  lemma StoredReads(h: Heap, n: nat, i: nat, v: Val)
    requires n < |h| && h[n].RowNode? && i < |h[n].cells|
    ensures ReadCell(StoreVal(h, n, i, v), n, CellOf(v, |h|)) == v
  {
    var mid := h[n := RowNode(h[n].cells[i := CellOf(v, |h|)])];
    LayoutPristine(mid, v, []);
    assert StoreVal(h, n, i, v) == mid + Layout(v, |mid|) + [];
    if v.Container() { PristineReads(StoreVal(h, n, i, v), |h|, v); }
  }
}
