/** The plain reading of SQL rows in Lua: an eager nest of mutable records.

Every row or array value is a node of a heap, a row column that is itself a row or an array refers
to the node holding it, and storing a value in a column stores a fresh deep copy. Nothing here is
lazy and nothing borrows: this is what the lazily expanded rows of `RowStore` are proved to look like. */
module PlainRecords {

  /** A flat SQL value, as a tuple holds it. A scalar is kept by value or by reference. */
  datatype Val =
    | Null
    | Dropped
    | Scalar(byRef: bool, data: int)
    | Arr(elems: map<int, int>)
    | Row(cols: seq<Val>)
  {
    predicate Container() { Arr? || Row? }
  }

  /** One column of a record. `Missing` is a column to which nil was assigned. */
  datatype Cell = Missing | DroppedCell | NullCell | ScalarCell(byRef: bool, data: int) | Sub(node: nat)

  datatype Node = ArrNode(elems: map<int, int>) | RowNode(cells: seq<Cell>)

  type Heap = seq<Node>

  /** Number of nodes a value occupies. */
  function Size(v: Val): nat {
    match v
    case Row(cols) => 1 + Offset(cols, |cols|)
    case Arr(_) => 1
    case _ => 0
  }

  /** Number of nodes the first i columns occupy. */
  function Offset(cols: seq<Val>, i: nat): nat
    requires i <= |cols|
    decreases cols, i
  {
    if i == 0 then 0 else Offset(cols, i - 1) + Size(cols[i - 1])
  }

  /** Where column i of a record at n starts. */
  function ColAt(cols: seq<Val>, n: nat, i: nat): nat
    requires i <= |cols|
  {
    n + 1 + Offset(cols, i)
  }

  function CellOf(v: Val, at: nat): Cell {
    match v
    case Null => NullCell
    case Dropped => DroppedCell
    case Scalar(byRef, data) => ScalarCell(byRef, data)
    case _ => Sub(at)
  }

  /** The cells of a record whose own columns are laid out from `at` on. */
  function HeadCells(cols: seq<Val>, at: nat): (cells: seq<Cell>)
    ensures |cells| == |cols|
    ensures forall i {:trigger cells[i]} | 0 <= i < |cols| :: cells[i] == CellOf(cols[i], at + Offset(cols, i))
  {
    seq(|cols|, i requires 0 <= i < |cols| => CellOf(cols[i], at + Offset(cols, i)))
  }

  /** The nodes of a fresh copy of `v` placed at `at`: the record itself, then its columns in order. */
  function Layout(v: Val, at: nat): (nodes: seq<Node>)
    ensures |nodes| == Size(v)
    decreases v, 0
  {
    match v
    case Row(cols) =>
      [RowNode(HeadCells(cols, at + 1))] + LayoutCols(cols, |cols|, at + 1)
    case Arr(elems) => [ArrNode(elems)]
    case _ => []
  }

  function LayoutCols(cols: seq<Val>, n: nat, at: nat): (nodes: seq<Node>)
    requires n <= |cols|
    ensures |nodes| == Offset(cols, n)
    decreases cols, n
  {
    if n == 0 then [] else LayoutCols(cols, n - 1, at) + Layout(cols[n - 1], at + Offset(cols, n - 1))
  }

  /** The whole value of a record, columns included; a missing column reads as null. */
  function ReadNode(h: Heap, n: nat): Val
    decreases |h| - n, 1
  {
    if n >= |h| then Null
    else match h[n]
      case ArrNode(elems) => Arr(elems)
      case RowNode(cells) => Row(seq(|cells|, i requires 0 <= i < |cells| => ReadCell(h, n, cells[i])))
  }

  function ReadCell(h: Heap, n: nat, c: Cell): Val
    requires n < |h|
    decreases |h| - n, 0
  {
    match c
    case Missing => Null
    case DroppedCell => Dropped
    case NullCell => Null
    case ScalarCell(byRef, data) => Scalar(byRef, data)
    case Sub(m) => if n < m < |h| then ReadNode(h, m) else Null
  }

  /** What a program stores in a column: nil, a scalar, a plain container, or a copy of a handle. `SrcNil`
      is what the constructor of a scalar type makes of nil; see `NilFor` for the other types. */
  datatype Source = SrcNil | SrcPlain(v: Val) | SrcHandle(reg: nat)

  /** The type of a column; a row type has some columns that are dropped. */
  datatype ColumnType = ScalarType | ArrayType | RowType(dropped: seq<bool>)

  /** What is stored when nil is assigned to a column, which calls its type's constructor with nil: an
      array type then builds an array whose one element is null, a row type a row of nulls. An array's
      null elements are those it has no entry for. */
  function NilFor(t: ColumnType): Source {
    match t
    case ScalarType => SrcNil
    case ArrayType => SrcPlain(Arr(map[]))
    case RowType(dropped) =>
      SrcPlain(Row(seq(|dropped|, i requires 0 <= i < |dropped| => if dropped[i] then Dropped else Null)))
  }

  /** One step of a Lua program over row and array handles. Handles are numbered as they are obtained;
      column numbers are the Lua ones, counted from 1. */
  datatype Op =
    | New(v: Val)
    | Get(reg: nat, attno: int)
    | Set(reg: nat, attno: int, src: Source)
    | Elem(reg: nat, key: int)
    | SetElem(reg: nat, key: int, data: int)
    | Copy(reg: nat)
    | Show(reg: nat)

  datatype Obs = Done | Error | IsNil | Number(data: int) | Handle | Whole(v: Val)

  datatype Machine = Machine(heap: Heap, regs: seq<nat>)

  predicate ColumnOk(h: Heap, n: nat, attno: int) {
    n < |h| && h[n].RowNode? && 1 <= attno <= |h[n].cells| && h[n].cells[attno - 1] != DroppedCell
  }

  /** Storing `c`, together with the nodes it needs, in column i of record n. */
  function StoreCell(h: Heap, n: nat, i: nat, c: Cell, extra: seq<Node>): Heap
    requires n < |h| && h[n].RowNode? && i < |h[n].cells|
  {
    h[n := RowNode(h[n].cells[i := c])] + extra
  }

  function StoreVal(h: Heap, n: nat, i: nat, v: Val): Heap
    requires n < |h| && h[n].RowNode? && i < |h[n].cells|
  {
    StoreCell(h, n, i, CellOf(v, |h|), Layout(v, |h|))
  }

  function StoreElem(h: Heap, n: nat, key: int, data: int): Heap
    requires n < |h| && h[n].ArrNode?
  {
    h[n := ArrNode(h[n].elems[key := data])]
  }

  predicate SourceOk(regs: seq<nat>, src: Source) {
    match src
    case SrcNil => true
    case SrcPlain(v) => v.Scalar? || v.Container()
    case SrcHandle(r) => r < |regs|
  }

  /** The heap after record column `attno` of handle node n has been given `src`. */
  function Assigned(m: Machine, n: nat, attno: int, src: Source): Heap
    requires ColumnOk(m.heap, n, attno) && SourceOk(m.regs, src)
  {
    match src
    case SrcNil => StoreCell(m.heap, n, attno - 1, Missing, [])
    case SrcPlain(v) => StoreVal(m.heap, n, attno - 1, v)
    case SrcHandle(r) => StoreVal(m.heap, n, attno - 1, ReadNode(m.heap, m.regs[r]))
  }

  function AddRoot(m: Machine, v: Val): Machine {
    Machine(m.heap + Layout(v, |m.heap|), m.regs + [|m.heap|])
  }

  /** One step on plain records: the new state and what the program sees. */
  function Step(m: Machine, op: Op): (Machine, Obs) {
    match op
    case New(v) => if v.Container() then (AddRoot(m, v), Handle) else (m, Error)
    case Get(r, attno) =>
      if r >= |m.regs| || !ColumnOk(m.heap, m.regs[r], attno) then (m, Error)
      else (match m.heap[m.regs[r]].cells[attno - 1]
            case Missing => (m, Error)
            case DroppedCell => (m, Error)
            case NullCell => (m, IsNil)
            case ScalarCell(_, data) => (m, Number(data))
            case Sub(k) => (m.(regs := m.regs + [k]), Handle))
    case Set(r, attno, src) =>
      if r >= |m.regs| || !ColumnOk(m.heap, m.regs[r], attno) || !SourceOk(m.regs, src) then (m, Error)
      else (m.(heap := Assigned(m, m.regs[r], attno, src)), Done)
    case Elem(r, key) =>
      if r >= |m.regs| || m.regs[r] >= |m.heap| || !m.heap[m.regs[r]].ArrNode? then (m, Error)
      else var elems := m.heap[m.regs[r]].elems;
           (m, if key in elems then Number(elems[key]) else IsNil)
    case SetElem(r, key, data) =>
      if r >= |m.regs| || m.regs[r] >= |m.heap| || !m.heap[m.regs[r]].ArrNode? then (m, Error)
      else (m.(heap := StoreElem(m.heap, m.regs[r], key, data)), Done)
    case Copy(r) =>
      if r >= |m.regs| || m.regs[r] >= |m.heap| then (m, Error)
      else (AddRoot(m, ReadNode(m.heap, m.regs[r])), Handle)
    case Show(r) =>
      if r >= |m.regs| then (m, Error) else (m, Whole(ReadNode(m.heap, m.regs[r])))
  }

  /** All that a program sees when it runs on plain records. */
  function Observe(m: Machine, prog: seq<Op>): (obs: seq<Obs>)
    ensures |obs| == |prog|
    decreases |prog|
  {
    if prog == [] then []
    else var (m', o) := Step(m, prog[0]); [o] + Observe(m', prog[1..])
  }

  /** `v` sits untouched at n, laid out as a fresh copy is. */
  ghost predicate Pristine(h: Heap, n: nat, v: Val)
    decreases v
  {
    match v
    case Row(cols) =>
      && n + Size(v) <= |h|
      && h[n] == RowNode(HeadCells(cols, n + 1))
      && forall i {:trigger ColAt(cols, n, i)} | 0 <= i < |cols| :: Pristine(h, ColAt(cols, n, i), cols[i])
    case Arr(elems) => n < |h| && h[n] == ArrNode(elems)
    case _ => true
  }

  lemma {:induction false} OffsetMono(cols: seq<Val>, i: nat, j: nat)
    requires i < j <= |cols|
    ensures Offset(cols, i) + Size(cols[i]) <= Offset(cols, j)
    decreases j
  {
    if i + 1 < j { OffsetMono(cols, i, j - 1); }
  }

  /** A freshly laid out copy is pristine. */
  lemma {:induction false} LayoutPristine(h: Heap, v: Val, tail: Heap)
    ensures Pristine(h + Layout(v, |h|) + tail, |h|, v)
    decreases v, 0
  {
    match v
    case Row(cols) =>
      var head, rest := [RowNode(HeadCells(cols, |h| + 1))], LayoutCols(cols, |cols|, |h| + 1);
      LayoutColsPristine(h + head, cols, |cols|, tail);
      assert h + Layout(v, |h|) + tail == (h + head) + rest + tail;
    case _ =>
  }

  /** The first n columns sit untouched where they belong after a record at `at`. */
  ghost predicate PristineCols(h: Heap, at: nat, cols: seq<Val>, n: nat)
    requires n <= |cols|
  {
    forall i {:trigger ColAt(cols, at, i)} | 0 <= i < n :: Pristine(h, ColAt(cols, at, i), cols[i])
  }

  lemma {:induction false} LayoutColsPristine(h: Heap, cols: seq<Val>, n: nat, tail: Heap)
    requires n <= |cols| && |h| > 0
    ensures PristineCols(h + LayoutCols(cols, n, |h|) + tail, |h| - 1, cols, n)
    decreases cols, n
  {
    if n > 0 {
      var front, last := LayoutCols(cols, n - 1, |h|), Layout(cols[n - 1], |h| + Offset(cols, n - 1));
      LayoutColsPristine(h, cols, n - 1, last + tail);
      LayoutPristine(h + front, cols[n - 1], tail);
      Regroup(h, front, last, tail);
      OneMorePristine(h + (front + last) + tail, |h| - 1, cols, n);
    }
  }

  lemma OneMorePristine(h: Heap, at: nat, cols: seq<Val>, n: nat)
    requires 0 < n <= |cols| && PristineCols(h, at, cols, n - 1) && Pristine(h, ColAt(cols, at, n - 1), cols[n - 1])
    ensures PristineCols(h, at, cols, n)
  {}

  lemma Regroup<T>(a: seq<T>, b: seq<T>, c: seq<T>, d: seq<T>)
    ensures a + (b + c) + d == a + b + (c + d) == (a + b) + c + d
  {}

  ghost predicate Same(h: Heap, h': Heap, lo: nat, hi: nat) {
    |h| <= |h'| && forall k | lo <= k < hi && k < |h| :: h[k] == h'[k]
  }

  /** Changes outside its interval leave a pristine value pristine. */
  lemma {:induction false} PristineFrame(h: Heap, h': Heap, n: nat, v: Val)
    requires Pristine(h, n, v)
    requires Same(h, h', n, n + Size(v))
    ensures Pristine(h', n, v)
    decreases v
  {
    if v.Row? {
      forall i | 0 <= i < |v.cols|
        ensures Pristine(h', ColAt(v.cols, n, i), v.cols[i])
      {
        OffsetMono(v.cols, i, |v.cols|);
        var at, col := ColAt(v.cols, n, i), v.cols[i];
        assert at + Size(col) <= n + Size(v);
        assert Same(h, h', at, at + Size(col));
        PristineFrame(h, h', at, col);
      }
    }
  }

  /** A pristine value reads as itself. */
  lemma {:induction false} PristineReads(h: Heap, n: nat, v: Val)
    requires Pristine(h, n, v) && v.Container()
    ensures n < |h| && ReadNode(h, n) == v
    decreases v
  {
    if v.Row? {
      forall i | 0 <= i < |v.cols|
        ensures ReadCell(h, n, h[n].cells[i]) == v.cols[i]
      {
        var at := ColAt(v.cols, n, i);
        if v.cols[i].Container() { PristineReads(h, at, v.cols[i]); }
      }
    }
  }

  /** A column to which nil was assigned is missing if it is a scalar; otherwise it is a handle on a new
      record, every column or element of which reads as nil. */
  lemma NilReads(m: Machine, r: nat, attno: int, t: ColumnType)
    requires r < |m.regs| && ColumnOk(m.heap, m.regs[r], attno)
    ensures var m1 := Step(m, Set(r, attno, NilFor(t))).0;
            var (m2, o) := Step(m1, Get(r, attno));
            if t.ScalarType? then o == Error
            else
              && o == Handle && |m2.regs| == |m.regs| + 1 && m2.regs[|m.regs|] == |m.heap|
              && (t.ArrayType? ==> forall key :: Step(m2, Elem(|m.regs|, key)).1 == IsNil)
              && (t.RowType? ==> forall i | 0 <= i < |t.dropped| ::
                    Step(m2, Get(|m.regs|, i + 1)).1 == if t.dropped[i] then Error else IsNil)
  {
    if !t.ScalarType? {
      var v, h := NilFor(t).v, Step(m, Set(r, attno, NilFor(t))).0.heap;
      assert h[|m.heap|..] == Layout(v, |m.heap|);
      assert h[|m.heap|] == h[|m.heap|..][0];
    }
  }
}
