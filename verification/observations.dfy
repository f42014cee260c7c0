/** What a program sees of plain records, told by what it sees before and after each step. These laws
speak of displays and reads only, not of how records are kept. */
module Observations {
  import opened Options
  import opened PlainRecords
  import opened RecordLaws

  /** What a step yields. */
  function See(m: Machine, op: Op): Obs { Step(m, op).1 }

  /** The state after a step. */
  function After(m: Machine, op: Op): Machine { Step(m, op).0 }

  /** What displaying a handle shows; nothing if there is no such handle. */
  function Shown(m: Machine, r: nat): Option<Val> {
    match See(m, Show(r)) case Whole(v) => Some(v) case _ => None
  }

  /** Records form a forest, and every handle is on one of them. */
  ghost predicate Proper(m: Machine) {
    Forest(m.heap) && forall k | 0 <= k < |m.regs| :: m.regs[k] < |m.heap|
  }

  lemma StepProper(m: Machine, op: Op)
    requires Proper(m)
    ensures Proper(After(m, op))
  {
    StepForest(m, op);
    if op.Get? && op.reg < |m.regs| && ColumnOk(m.heap, m.regs[op.reg], op.attno) {
      var c := m.heap[m.regs[op.reg]].cells[op.attno - 1];
    }
    if op.Copy? && op.reg < |m.regs| {
      var h := m.heap;
      assert h[m.regs[op.reg]].ArrNode? || h[m.regs[op.reg]].RowNode?;
      assert ReadNode(h, m.regs[op.reg]).Container();
    }
  }

  lemma {:induction false} FinalProper(m: Machine, prog: seq<Op>)
    requires Proper(m)
    ensures Proper(Final(m, prog))
    decreases |prog|
  {
    if prog != [] {
      StepProper(m, prog[0]);
      FinalProper(After(m, prog[0]), prog[1..]);
    }
  }

  /** Each thing seen in a run is what its step yields in the state that the steps before it lead to, and
      that state is a proper one. */
  lemma {:induction false} SeenAt(m: Machine, prog: seq<Op>, i: nat)
    requires Proper(m) && i < |prog|
    ensures Observe(m, prog)[i] == See(Final(m, prog[..i]), prog[i]) && Proper(Final(m, prog[..i]))
    decreases |prog|
  {
    if i > 0 {
      StepProper(m, prog[0]);
      SeenAt(After(m, prog[0]), prog[1..], i - 1);
      assert prog[..i][1..] == prog[1..][..i - 1];
    }
  }

  // ---- Displays and reads ----

  /** Every handle can be displayed, as a row or an array; displaying and reading elements change nothing. */
  lemma ShowAny(m: Machine, r: nat)
    requires Proper(m)
    ensures Shown(m, r).Some? <==> r < |m.regs|
    ensures r < |m.regs| ==> Shown(m, r).value.Container()
    ensures After(m, Show(r)) == m && forall key :: After(m, Elem(r, key)) == m
  {}

  /** Whether a column of a displayed value can be read and assigned; columns count from 1. */
  predicate Accessible(v: Val, c: int) {
    v.Row? && 1 <= c <= |v.cols| && v.cols[c - 1] != Dropped
  }

  /** The columns that can be accessed are those that are displayed and are not dropped. */
  lemma AccessibleOk(m: Machine, r: nat, c: int)
    requires Proper(m) && r < |m.regs|
    ensures ColumnOk(m.heap, m.regs[r], c) <==> Accessible(Shown(m, r).value, c)
    ensures ColumnOk(m.heap, m.regs[r], c) ==>
              ReadCell(m.heap, m.regs[r], m.heap[m.regs[r]].cells[c - 1]) == Shown(m, r).value.cols[c - 1]
  {
    var h, n := m.heap, m.regs[r];
    if h[n].RowNode? && 1 <= c <= |h[n].cells| {
      var cell := h[n].cells[c - 1];
      assert Shown(m, r).value.cols[c - 1] == ReadCell(h, n, cell);
      if cell.Sub? { assert ReadNode(h, cell.node).Container(); }
    }
  }

  /** Reading a column agrees with the display: the number of a scalar, nil for a null (or an error if nil
      was assigned to it), and for a row or an array a handle that displays it. Nothing else changes. */
  lemma GetShows(m: Machine, r: nat, c: int)
    requires Proper(m) && r < |m.regs|
    ensures var v, o, m' := Shown(m, r).value, See(m, Get(r, c)), After(m, Get(r, c));
            && (if !Accessible(v, c) then o == Error
                else match v.cols[c - 1]
                  case Scalar(_, d) => o == Number(d)
                  case Null => o == IsNil || o == Error
                  case _ => o == Handle)
            && |m'.regs| == |m.regs| + (if o == Handle then 1 else 0)
            && (o == Handle ==> Shown(m', |m.regs|) == Some(v.cols[c - 1]))
            && forall q | 0 <= q < |m.regs| :: Shown(m', q) == Shown(m, q)
  {
    AccessibleOk(m, r, c);
    if ColumnOk(m.heap, m.regs[r], c) {
      var cell := m.heap[m.regs[r]].cells[c - 1];
      if cell.Sub? { assert ReadNode(m.heap, cell.node).Container(); }
    }
  }

  /** Reading an element agrees with the display. */
  lemma ElemShows(m: Machine, r: nat, key: int)
    requires Proper(m) && r < |m.regs|
    ensures var v := Shown(m, r).value;
            See(m, Elem(r, key)) == if !v.Arr? then Error else if key in v.elems then Number(v.elems[key]) else IsNil
  {}

  /** What reading a column yields only changes when that very column is assigned to, through whatever
      handle. */
  lemma ReadsStay(m: Machine, op: Op, r: nat, c: int)
    requires Proper(m) && r < |m.regs|
    requires !(op.Set? && op.attno == c && op.reg < |m.regs| && m.regs[op.reg] == m.regs[r])
    ensures See(After(m, op), Get(r, c)) == See(m, Get(r, c))
  {}

  /** A null column of a new row reads as nil. */
  lemma NewNull(m: Machine, v: Val, c: int)
    requires Accessible(v, c) && v.cols[c - 1].Null?
    ensures See(After(m, New(v)), Get(|m.regs|, c)) == IsNil
  {
    HeadNull(v, |m.heap|, c);
    HeadReads(Layout(v, |m.heap|), m, c);
  }

  lemma HeadNull(v: Val, at: nat, c: int)
    requires Accessible(v, c) && v.cols[c - 1].Null?
    ensures Layout(v, at) != [] && var head := Layout(v, at)[0];
            head.RowNode? && |head.cells| == |v.cols| && head.cells[c - 1] == NullCell
  {}

  lemma HeadReads(more: seq<Node>, m: Machine, c: int)
    requires more != [] && more[0].RowNode? && 1 <= c <= |more[0].cells| && more[0].cells[c - 1] == NullCell
    ensures See(Machine(m.heap + more, m.regs + [|m.heap|]), Get(|m.regs|, c)) == IsNil
  {}

  /** A column that nil was assigned to is missing. */
  lemma NilIsMissing(m: Machine, r: nat, c: int)
    requires Proper(m) && r < |m.regs| && Accessible(Shown(m, r).value, c)
    ensures See(After(m, Set(r, c, SrcNil)), Get(r, c)) == Error
  {
    AccessibleOk(m, r, c);
  }

  // ---- New handles ----

  /** A heap with more records after it reads as before. */
  lemma {:induction false} LongerReads(h: Heap, more: seq<Node>, n: nat)
    requires Forest(h) && n < |h|
    ensures ReadNode(h + more, n) == ReadNode(h, n)
    decreases |h| - n
  {
    if h[n].RowNode? {
      forall k | 0 <= k < |h[n].cells| ensures ReadCell(h + more, n, h[n].cells[k]) == ReadCell(h, n, h[n].cells[k]) {
        if h[n].cells[k].Sub? { LongerReads(h, more, h[n].cells[k].node); }
      }
    }
  }

  lemma RootShows(m: Machine, v: Val)
    requires Proper(m) && v.Container()
    ensures var m' := AddRoot(m, v);
            && |m'.regs| == |m.regs| + 1 && Shown(m', |m.regs|) == Some(v)
            && forall q | 0 <= q < |m.regs| :: Shown(m', q) == Shown(m, q)
  {
    NewestReads(m.heap, v);
    MoreShows(m, Layout(v, |m.heap|), v);
  }

  lemma MoreShows(m: Machine, more: seq<Node>, v: Val)
    requires Proper(m) && ReadNode(m.heap + more, |m.heap|) == v
    ensures var m' := Machine(m.heap + more, m.regs + [|m.heap|]);
            && Shown(m', |m.regs|) == Some(v)
            && forall q | 0 <= q < |m.regs| :: Shown(m', q) == Shown(m, q)
  {
    forall q | 0 <= q < |m.regs| ensures ReadNode(m.heap + more, m.regs[q]) == ReadNode(m.heap, m.regs[q]) {
      LongerReads(m.heap, more, m.regs[q]);
    }
  }

  lemma NewestReads(h: Heap, v: Val)
    requires v.Container()
    ensures ReadNode(h + Layout(v, |h|), |h|) == v
  {
    var more := Layout(v, |h|);
    LayoutPristine(h, v, []);
    assert h + more + [] == h + more;
    PristineReads(h + more, |h|, v);
  }

  /** A handle on a new row or array shows that value, and a copy shows what its source shows; in neither
      case does any other handle show anything different. */
  lemma NewShows(m: Machine, v: Val)
    requires Proper(m)
    ensures var m' := After(m, New(v));
            if v.Container()
            then See(m, New(v)) == Handle && |m'.regs| == |m.regs| + 1 && Shown(m', |m.regs|) == Some(v)
                 && forall q | 0 <= q < |m.regs| :: Shown(m', q) == Shown(m, q)
            else See(m, New(v)) == Error && m' == m
  {
    if v.Container() { RootShows(m, v); }
  }

  lemma CopyShows(m: Machine, r: nat)
    requires Proper(m)
    ensures var m' := After(m, Copy(r));
            if r < |m.regs|
            then See(m, Copy(r)) == Handle && |m'.regs| == |m.regs| + 1 && Shown(m', |m.regs|) == Shown(m, r)
                 && forall q | 0 <= q < |m.regs| :: Shown(m', q) == Shown(m, q)
            else See(m, Copy(r)) == Error && m' == m
  {
    if r < |m.regs| {
      ShowAny(m, r);
      RootShows(m, Shown(m, r).value);
    }
  }

  // ---- Writes ----

  /** What a source shows before it is stored: nil as null, a plain value as itself, a handle as it is
      displayed; nothing if it cannot be stored. */
  function Given(m: Machine, src: Source): Option<Val> {
    match src
    case SrcNil => Some(Null)
    case SrcPlain(v) => if v.Scalar? || v.Container() then Some(v) else None
    case SrcHandle(q) => Shown(m, q)
  }

  lemma MissingShows(h: Heap, n: nat, i: nat)
    requires Forest(h) && n < |h| && h[n].RowNode? && i < |h[n].cells|
    ensures OnlyNode(h, StoreCell(h, n, i, Missing, []), n)
    ensures ReadNode(StoreCell(h, n, i, Missing, []), n) == Row(ReadNode(h, n).cols[i := Null])
  {
    var h', cells := StoreCell(h, n, i, Missing, []), h[n].cells;
    forall k | 0 <= k < |cells| && k != i ensures ReadCell(h', n, cells[k]) == ReadCell(h, n, cells[k]) {
      ColumnKept(h, h', n, k);
    }
    assert ReadNode(h', n).cols == ReadNode(h, n).cols[i := Null];
  }

  /** An assignment replaces one column of what the handle shows, by what the source showed before. It is
      refused, without any effect, if the column cannot be accessed or the source not be stored. */
  lemma SetShows(m: Machine, r: nat, c: int, src: Source)
    requires Proper(m) && r < |m.regs|
    ensures var v, given, m' := Shown(m, r).value, Given(m, src), After(m, Set(r, c, src));
            if Accessible(v, c) && given.Some?
            then See(m, Set(r, c, src)) == Done && m'.regs == m.regs && OnlyNode(m.heap, m'.heap, m.regs[r])
                 && Shown(m', r) == Some(Row(v.cols[c - 1 := given.value]))
            else See(m, Set(r, c, src)) == Error && m' == m
  {
    AccessibleOk(m, r, c);
    if ColumnOk(m.heap, m.regs[r], c) && SourceOk(m.regs, src) {
      if src.SrcNil? {
        MissingShows(m.heap, m.regs[r], c - 1);
      } else {
        StoreShows(m.heap, m.regs[r], c - 1, Given(m, src).value);
      }
    }
  }

  /** An element write changes exactly that element of what the handle shows; it is refused for a row. */
  lemma SetElemShows(m: Machine, r: nat, key: int, data: int)
    requires Proper(m) && r < |m.regs|
    ensures var v, m' := Shown(m, r).value, After(m, SetElem(r, key, data));
            if v.Arr?
            then See(m, SetElem(r, key, data)) == Done && m'.regs == m.regs && OnlyNode(m.heap, m'.heap, m.regs[r])
                 && Shown(m', r) == Some(Arr(v.elems[key := data]))
            else See(m, SetElem(r, key, data)) == Error && m' == m
  {}

  /** The steps that write through a handle. */
  predicate WritesTo(op: Op, r: nat) { (op.Set? || op.SetElem?) && op.reg == r }

  lemma WriteIsLocal(m: Machine, r: nat, op: Op)
    requires Proper(m) && r < |m.regs| && WritesTo(op, r)
    ensures After(m, op).regs == m.regs && OnlyNode(m.heap, After(m, op).heap, m.regs[r])
  {
    if op.Set? { SetShows(m, r, op.attno, op.src); }
  }

  /** A write through a handle on a record that q does not reach does not show in q. */
  lemma WriteIsApart(m: Machine, r: nat, op: Op, q: nat)
    requires Proper(m) && r < |m.regs| && WritesTo(op, r) && q < |m.regs|
    requires forall path :: Follow(m.heap, m.regs[q], path) != Some(m.regs[r])
    ensures Shown(After(m, op), q) == Shown(m, q)
  {
    WriteIsLocal(m, r, op);
    NowhereElse(m.heap, After(m, op).heap, m.regs[r], m.regs[q]);
  }

  /** A handle got from a column is that column: what is written through it shows in the row. */
  lemma ColumnIsLive(m: Machine, r: nat, c: int, op: Op)
    requires Proper(m) && r < |m.regs| && See(m, Get(r, c)) == Handle && WritesTo(op, |m.regs|)
    ensures var m1 := After(m, Get(r, c));
            var m2 := After(m1, op);
            && Accessible(Shown(m, r).value, c) && Shown(m2, |m.regs|).Some?
            && Shown(m2, r) == Some(Row(Shown(m, r).value.cols[c - 1 := Shown(m2, |m.regs|).value]))
  {
    GetShows(m, r, c);
    StepProper(m, Get(r, c));
    var m1 := After(m, Get(r, c));
    WriteIsLocal(m1, |m.regs|, op);
    var h, h', n, k := m1.heap, After(m1, op).heap, m1.regs[r], m1.regs[|m.regs|];
    assert h[n].cells[c - 1] == Sub(k);
    var path: seq<nat> := [c - 1];
    assert path[1..] == [] && Follow(h, k, path[1..]) == Some(k);
    assert Follow(h, n, path) == Some(k);
    ShowsInAncestors(h, h', k, n, path);
    assert PutAt(ReadNode(h, n).cols[c - 1], path[1..], ReadNode(h', k)) == ReadNode(h', k);
  }

  /** Records made before a certain time do not reach records made later. */
  lemma {:induction false} OldReachesOld(h: Heap, more: seq<Node>, a: nat, path: seq<nat>)
    requires Forest(h) && a < |h|
    ensures var to := Follow(h + more, a, path); to.Some? ==> to.value < |h|
    decreases |path|
  {
    if path != [] && h[a].RowNode? && path[0] < |h[a].cells| && h[a].cells[path[0]].Sub? {
      OldReachesOld(h, more, h[a].cells[path[0]].node, path[1..]);
    }
  }

  /** A copy is apart from everything there was: what is written through it shows nowhere else. */
  lemma CopyIsApart(m: Machine, r: nat, op: Op, q: nat)
    requires Proper(m) && r < |m.regs| && WritesTo(op, |m.regs|) && q < |m.regs|
    ensures Shown(After(After(m, Copy(r)), op), q) == Shown(m, q)
  {
    CopyShows(m, r);
    StepProper(m, Copy(r));
    var m1 := After(m, Copy(r));
    forall path ensures Follow(m1.heap, m1.regs[q], path) != Some(m1.regs[|m.regs|]) {
      OldReachesOld(m.heap, Layout(Shown(m, r).value, |m.heap|), m.regs[q], path);
    }
    WriteIsApart(m1, |m.regs|, op, q);
  }

  /** Below a record other than the changed one, and not above it, paths lead where they led. */
  lemma {:induction false} FollowSame(h: Heap, h': Heap, n: nat, a: nat, path: seq<nat>)
    requires Forest(h) && OnlyNode(h, h', n) && n < a < |h|
    ensures Follow(h', a, path) == Follow(h, a, path)
    decreases |path|
  {
    if path != [] && h[a].RowNode? && path[0] < |h[a].cells| && h[a].cells[path[0]].Sub? {
      FollowSame(h, h', n, h[a].cells[path[0]].node, path[1..]);
    }
  }

  /** After a value is stored in a column of n, n reaches no old record that it did not reach before. */
  lemma StoredReaches(h: Heap, n: nat, i: nat, v: Val, k: nat, path: seq<nat>)
    requires Forest(h) && n < |h| && h[n].RowNode? && i < |h[n].cells| && k < |h|
    requires Forest(StoreVal(h, n, i, v)) && Follow(h, n, path) != Some(k)
    ensures Follow(StoreVal(h, n, i, v), n, path) != Some(k)
  {
    var h' := StoreVal(h, n, i, v);
    StoreShows(h, n, i, v);
    if path != [] && path[0] < |h[n].cells| && h'[n].cells[path[0]].Sub? {
      var a := h'[n].cells[path[0]].node;
      if path[0] == i {
        if Follow(h', a, path[1..]).Some? { FollowUp(h', a, path[1..]); }
      } else {
        FollowSame(h, h', n, a, path[1..]);
      }
    }
  }

  /** What was assigned is a copy: what is written through the source's handle afterwards does not show in
      the column, unless the source is the row itself or below it. */
  lemma AssignedIsApart(m: Machine, r: nat, c: int, q: nat, op: Op)
    requires Proper(m) && r < |m.regs| && q < |m.regs| && WritesTo(op, q)
    requires Accessible(Shown(m, r).value, c) && forall path :: Follow(m.heap, m.regs[r], path) != Some(m.regs[q])
    ensures var m1 := After(m, Set(r, c, SrcHandle(q)));
            Shown(After(m1, op), r) == Shown(m1, r) == Some(Row(Shown(m, r).value.cols[c - 1 := Shown(m, q).value]))
  {
    var assign := Set(r, c, SrcHandle(q));
    SetShows(m, r, c, SrcHandle(q));
    StepProper(m, assign);
    AccessibleOk(m, r, c);
    AssignedReaches(m, r, c, q);
    WriteIsApart(After(m, assign), q, op, r);
  }

  lemma AssignedReaches(m: Machine, r: nat, c: int, q: nat)
    requires Proper(m) && r < |m.regs| && q < |m.regs| && ColumnOk(m.heap, m.regs[r], c)
    requires forall path :: Follow(m.heap, m.regs[r], path) != Some(m.regs[q])
    ensures forall path :: Follow(After(m, Set(r, c, SrcHandle(q))).heap, m.regs[r], path) != Some(m.regs[q])
  {
    var h, n, k := m.heap, m.regs[r], m.regs[q];
    StepForest(m, Set(r, c, SrcHandle(q)));
    var h' := After(m, Set(r, c, SrcHandle(q))).heap;
    assert h' == StoreVal(h, n, c - 1, ReadNode(h, k));
    forall path ensures Follow(h', n, path) != Some(k) {
      StoredReaches(h, n, c - 1, ReadNode(h, k), k, path);
    }
  }

  // ---- Whole runs ----

  lemma {:induction false} FinalStep(m: Machine, prog: seq<Op>, i: nat)
    requires i < |prog|
    ensures Final(m, prog[..i + 1]) == After(Final(m, prog[..i]), prog[i])
    decreases i
  {
    if i > 0 {
      FinalStep(Step(m, prog[0]).0, prog[1..], i - 1);
      assert prog[..i + 1][1..] == prog[1..][..i] && prog[..i][1..] == prog[1..][..i - 1];
    } else {
      assert prog[..1][1..] == [];
    }
  }

  /** Somewhere in a program: a row and a handle are displayed, the handle is assigned to a column of the
      row, and the row is displayed again. */
  predicate AssignsAt(prog: seq<Op>, i: nat, r: nat, c: int, q: nat) {
    i + 4 <= |prog| && prog[i..i + 4] == [Show(r), Show(q), Set(r, c, SrcHandle(q)), Show(r)]
  }

  /** In every run of such a program the last display is the first with the column replaced by what the
      handle displayed. */
  lemma AssignmentSeen(prog: seq<Op>, i: nat, r: nat, c: int, q: nat)
    requires AssignsAt(prog, i, r, c, q)
    ensures var obs := Observe(Machine([], []), prog);
            obs[i + 2].Done? ==>
              && obs[i].Whole? && obs[i].v.Row? && 1 <= c <= |obs[i].v.cols| && obs[i + 1].Whole?
              && obs[i + 3] == Whole(Row(obs[i].v.cols[c - 1 := obs[i + 1].v]))
  {
    var m0 := Machine([], []);
    var m := Final(m0, prog[..i]);
    var ops := prog[i..i + 4];
    assert ops[0] == prog[i] && ops[1] == prog[i + 1] && ops[2] == prog[i + 2] && ops[3] == prog[i + 3];
    FinalStep(m0, prog, i);
    FinalStep(m0, prog, i + 1);
    FinalStep(m0, prog, i + 2);
    SeenAt(m0, prog, i);
    SeenAt(m0, prog, i + 1);
    SeenAt(m0, prog, i + 2);
    SeenAt(m0, prog, i + 3);
    if r < |m.regs| { SetShows(m, r, c, SrcHandle(q)); }
  }
}
