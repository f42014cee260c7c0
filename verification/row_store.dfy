/** The operations on row and array datums, step by step, each tied to the plain records. */
module RowStore {
  import opened Options
  import opened PlainRecords
  import opened LazyRows

  /** What indexing a row yields. */
  datatype Column = ColNull | ColScalar(data: int) | ColHandle(id: nat)

  /** What is assigned to a column; nil only to a column of a scalar type, see `PlainRecords.NilFor`. */
  datatype Arg = ArgNil | ArgPlain(v: Val) | ArgHandle(id: nat)

  /** The number of columns of a row type, dropped ones included. */
  function Natts(d: Datum): nat
    requires d.IsRow()
  {
    if d.deformed.Some? then |d.deformed.value| else |d.value.v.cols|
  }

  predicate IsDroppedColumn(d: Datum, i: nat)
    requires d.IsRow() && i < Natts(d)
  {
    if d.deformed.Some? then d.deformed.value[i] == SlotDropped else d.value.v.cols[i] == Dropped
  }

  /** What no operation but an assignment through this very handle changes about a datum. */
  ghost predicate Kept(d: Datum, d': Datum) {
    && (d'.datumref == d.datumref || d'.datumref.None?)
    && (d.IsRow() ==> d'.IsRow() && (d'.value.Gone? || (d'.datumref == d.datumref && d'.value == d.value)))
    && (d.deformed.Some? ==> d'.deformed == d.deformed)
    && (d.value.Gone? ==> d'.value.Gone?)
    && (!d.IsRow() ==> !d'.IsRow() && (d'.value.Gone? <==> d.value.Gone?))
    && (!d.IsRow() && !d.value.Gone? ==> d'.value.v == d.value.v)
  }

  /** w' has all of w's datums, changed at most as Kept allows, and the very same plain records. */
  ghost predicate Grown(w: World, w': World) {
    && |w.datums| == |w.rep| <= |w'.datums| == |w'.rep| && w'.heap == w.heap
    && (forall z {:trigger w'.rep[z]} | 0 <= z < |w.datums| :: w'.rep[z] == w.rep[z])
    && (forall z {:trigger w'.datums[z]} | 0 <= z < |w.datums| :: Kept(w.datums[z], w'.datums[z]))
  }

  lemma GrownTrans(a: World, b: World, c: World)
    requires Grown(a, b) && Grown(b, c)
    ensures Grown(a, c)
  {
    forall z | 0 <= z < |a.datums| ensures Kept(a.datums[z], c.datums[z]) && c.rep[z] == a.rep[z] {
      assert Kept(a.datums[z], b.datums[z]) && Kept(b.datums[z], c.datums[z]);
      assert b.rep[z] == a.rep[z];
    }
  }

  lemma DetachGrown(w: World, x: nat)
    requires |w.rep| == |w.datums| && x < |w.datums| && w.datums[x].value.At? && w.datums[x].deformed.Some?
    requires w.datums[x].IsRow()
    requires forall z {:trigger w.datums[z]} | 0 <= z < |w.datums| && Child(z) in w.datums[x].deformed.value ::
               w.datums[z].IsRow() ==> w.datums[z].value.Gone?
    ensures Grown(w, Detached(w, x))
  {}

  /** Exploding x touches x and what is handed out below it, nothing else. */
  ghost predicate OnlyBelow(w: World, w': World, x: nat, touched: set<nat>)
    requires |w.datums| <= |w'.datums|
  {
    && x in touched
    && (forall z {:trigger z in touched} | z in touched :: x <= z
          && (z != x && z < |w.datums| ==> w.datums[z].datumref.Some? && w.datums[z].datumref.value in touched))
    && (forall z {:trigger w'.datums[z]} | 0 <= z < |w.datums| && z !in touched :: w'.datums[z] == w.datums[z])
  }

  /** The first i columns are served by `slots` and the datums `kids`; `from` says which column each serves. */
  ghost predicate Columns(vals: seq<Val>, i: nat, n: nat, x: nat, chunk: nat, slots: seq<Slot>,
          kids: seq<Datum>, from: seq<nat>)
  {
    && i <= |vals| && |slots| == i && |from| == |kids|
    && (forall k {:trigger from[k]} | 0 <= k < |from| ::
          && from[k] < i && slots[from[k]] == Child(n + k) && vals[from[k]] != Null && vals[from[k]] != Dropped
          && KidOf(kids[k], vals[from[k]], x, chunk))
    && (forall j {:trigger Served(vals[j], slots[j], n, from, j)} | 0 <= j < i :: Served(vals[j], slots[j], n, from, j))
  }

  /** Kids that own storage own distinct pieces of it, all handed out since `lo`. */
  ghost predicate Owning(kids: seq<Datum>, lo: nat, next: nat, live: set<nat>) {
    && (forall k | 0 <= k < |kids| :: kids[k].needGc && kids[k].value.At? ==>
          lo <= kids[k].value.chunk < next && kids[k].value.chunk in live)
    && (forall j, k | 0 <= j < k < |kids| :: OwnApart(kids[j], kids[k]))
  }

  lemma NoKid(vals: seq<Val>, i: nat, n: nat, x: nat, chunk: nat, slots: seq<Slot>, kids: seq<Datum>,
          from: seq<nat>, s: Slot)
    requires Columns(vals, i, n, x, chunk, slots, kids, from) && i < |vals|
    requires (vals[i].Null? && s == SlotNull) || (vals[i].Dropped? && s == SlotDropped)
    ensures Columns(vals, i + 1, n, x, chunk, slots + [s], kids, from)
  {
    var slots' := slots + [s];
    forall j | 0 <= j < i ensures slots'[j] == slots[j] {}
  }

  lemma OneKid(vals: seq<Val>, i: nat, n: nat, x: nat, chunk: nat, slots: seq<Slot>, kids: seq<Datum>,
          from: seq<nat>, kid: Datum)
    requires Columns(vals, i, n, x, chunk, slots, kids, from) && i < |vals|
    requires vals[i] != Null && vals[i] != Dropped && KidOf(kid, vals[i], x, chunk)
    ensures Columns(vals, i + 1, n, x, chunk, slots + [Child(n + |kids|)], kids + [kid], from + [i])
  {
    var slots', kids', from' := slots + [Child(n + |kids|)], kids + [kid], from + [i];
    forall k | 0 <= k < |from| ensures from'[k] == from[k] && kids'[k] == kids[k] {}
    forall j | 0 <= j < i + 1 ensures Served(vals[j], slots'[j], n, from', j) {
      if j < i { assert Served(vals[j], slots[j], n, from, j) && slots'[j] == slots[j]; }
    }
  }

  /** Columns built from an undeformed row's tuple deform it. */
  lemma BuiltDeforms(w: World, w': World, x: nat, slots: seq<Slot>, kids: seq<Datum>, from: seq<nat>)
    requires |w.rep| == |w.datums| && x < |w.datums| && w.datums[x].value.At? && w.datums[x].value.v.Row?
    requires var vals := w.datums[x].value.v.cols;
             && Columns(vals, |vals|, |w.datums|, x, w.datums[x].value.chunk, slots, kids, from)
             && w'.rep == w.rep + seq(|kids|, k requires 0 <= k < |kids| => ColAt(vals, w.rep[x], from[k]))
    requires Owning(kids, w.next, w'.next, w'.live)
    requires w'.datums == w.datums[x := w.datums[x].(deformed := Some(slots))] + kids
    requires w'.heap == w.heap && w.live <= w'.live && w.next <= w'.next
    ensures DeformedTo(w, w', x, slots, from)
  {
    var n := |w.datums|;
    assert w'.rep[..n] == w.rep;
    forall k | 0 <= k < |from|
      ensures w'.datums[n + k] == kids[k] && w'.rep[n + k] == ColAt(w.datums[x].value.v.cols, w.rep[x], from[k])
    {
      NewKid(w, w', x, slots, kids, from, k);
    }
  }

  lemma NewKid(w: World, w': World, x: nat, slots: seq<Slot>, kids: seq<Datum>, from: seq<nat>, k: nat)
    requires |w.rep| == |w.datums| && x < |w.datums| && w.datums[x].value.At? && w.datums[x].value.v.Row?
    requires k < |from| == |kids| && forall k | 0 <= k < |from| :: from[k] <= |w.datums[x].value.v.cols|
    requires w'.rep == w.rep + seq(|kids|, k requires 0 <= k < |kids| =>
               ColAt(w.datums[x].value.v.cols, w.rep[x], from[k]))
    requires w'.datums == w.datums[x := w.datums[x].(deformed := Some(slots))] + kids
    ensures w'.datums[|w.datums| + k] == kids[k]
    ensures w'.rep[|w.datums| + k] == ColAt(w.datums[x].value.v.cols, w.rep[x], from[k])
  {}

  lemma BelowStep(w: World, w1: World, w2: World, x: nat, c: nat, touched: set<nat>, t: set<nat>)
    requires |w.datums| <= |w1.datums| <= |w2.datums| && x < c < |w.datums|
    requires OnlyBelow(w, w1, x, touched) && OnlyBelow(w1, w2, c, t)
    requires w.datums[c].datumref == Some(x)
    ensures OnlyBelow(w, w2, x, touched + t)
  {
    forall z | z in touched + t
      ensures x <= z
      ensures z != x && z < |w.datums| ==> w.datums[z].datumref.Some? && w.datums[z].datumref.value in touched + t
    {
      if z < |w.datums| && z !in touched { assert w1.datums[z] == w.datums[z]; }
    }
  }

  /** The columns of x that are still to be exploded are not touched by exploding column i. */
  lemma SlotsStay(w: World, w': World, x: nat, c: nat, t: set<nat>, slots: seq<Slot>, cols: seq<Val>, i: nat)
    requires |w.datums| <= |w'.datums| && x < c < |w.datums| && OnlyBelow(w, w', c, t)
    requires i < |slots| == |cols| && slots[i] == Child(c) && OneColumnEach(slots)
    requires forall j {:trigger slots[j]} | i <= j < |slots| :: SlotVal(w, x, slots[j], cols[j])
    ensures forall j {:trigger slots[j]} | i < j < |slots| :: SlotVal(w', x, slots[j], cols[j])
  {
    forall j | i < j < |slots| ensures SlotVal(w', x, slots[j], cols[j]) {
      assert SlotVal(w, x, slots[j], cols[j]);
      if slots[j].Child? { assert slots[j].id !in t; }
    }
  }

  /** The column numbers a row accepts are those its record accepts. */
  lemma ColumnsMatch(w: World, x: nat, attno: int)
    requires Inv(w, {}) && x < |w.datums| && w.datums[x].Container()
    ensures ColumnOk(w.heap, w.rep[x], attno) <==>
              (w.datums[x].IsRow() && 1 <= attno <= Natts(w.datums[x]) && !IsDroppedColumn(w.datums[x], attno - 1))
  {
    assert Shape(w, x) && Linked(w, x) && Faithful(w, x, {});
    var d := w.datums[x];
    if d.IsRow() && 1 <= attno <= Natts(d) {
      if d.deformed.Some? {
        assert SlotCell(w, x, d.deformed.value[attno - 1], w.heap[w.rep[x]].cells[attno - 1]);
      } else {
        assert w.heap[w.rep[x]].cells[attno - 1]
          == CellOf(d.value.v.cols[attno - 1], ColAt(d.value.v.cols, w.rep[x], attno - 1));
      }
    }
  }

  /** Every handle taken so far stays a handle on the same record, and a row's flat value never changes:
      it is there, as it was, until the row is exploded. */
  ghost predicate SameHandles(w: World, w': World) {
    && |w.datums| == |w.rep| <= |w'.datums| == |w'.rep|
    && forall z {:trigger w'.rep[z]} {:trigger w'.datums[z]} | 0 <= z < |w.datums| ::
         && w'.rep[z] == w.rep[z] && (w.datums[z].Container() ==> w'.datums[z].Container())
         && (w.datums[z].IsRow() ==> w'.datums[z].IsRow())
         && (w.datums[z].IsRow() ==> w'.datums[z].value.Gone? || w'.datums[z].value == w.datums[z].value)
  }

  ghost predicate Holds(w: World, regs: seq<nat>) {
    |w.rep| == |w.datums| && forall k | 0 <= k < |regs| :: regs[k] < |w.datums| && w.datums[regs[k]].Container()
  }

  /** The plain-record state that a store and a program's handles stand for. */
  ghost function MachineOf(w: World, regs: seq<nat>): Machine
    requires Holds(w, regs)
  {
    Machine(w.heap, seq(|regs|, k requires 0 <= k < |regs| => w.rep[regs[k]]))
  }

  /** The plain records after column attno of record n has been given `arg`. */
  ghost function StoredArg(w: World, n: nat, attno: int, arg: Arg): Heap
    requires ColumnOk(w.heap, n, attno) && (arg.ArgHandle? ==> arg.id < |w.rep|)
  {
    match arg
    case ArgNil => StoreCell(w.heap, n, attno - 1, Missing, [])
    case ArgPlain(v) => StoreVal(w.heap, n, attno - 1, v)
    case ArgHandle(y) => StoreVal(w.heap, n, attno - 1, ReadNode(w.heap, w.rep[y]))
  }

  /** Operations that keep handles keep what the program's variables refer to. */
  lemma MachineKept(w: World, w': World, regs: seq<nat>)
    requires Holds(w, regs) && SameHandles(w, w')
    ensures Holds(w', regs) && MachineOf(w', regs) == MachineOf(w, regs).(heap := w'.heap)
  {
    forall k | 0 <= k < |regs| ensures w'.rep[regs[k]] == w.rep[regs[k]] && w'.datums[regs[k]].Container() {}
  }

  class Store {
    var datums: seq<Datum>
    var live: set<nat>
    var next: nat
    ghost var rep: seq<nat>
    ghost var heap: Heap

    constructor ()
      ensures Valid() && heap == [] && datums == []
    {
      datums, live, next, rep, heap := [], {}, 0, [], [];
    }

    ghost function W(): World
      reads this
    {
      World(datums, live, next, rep, heap)
    }

    ghost predicate Valid()
      reads this
    {
      Inv(W(), {})
    }

    /** Reads the flat value a datum points at; the storage must still be allocated. */
    method Fetch(x: nat, ghost opening: set<nat>) returns (v: Val)
      requires Inv(W(), opening) && x < |datums| && !datums[x].value.Gone?
      ensures datums[x].value.At? ==> datums[x].value.chunk in live
      ensures v == datums[x].value.v
    {
      if datums[x].value.At? { BorrowedLive(W(), opening, x); }
      v := datums[x].value.v;
    }

    /** Frees storage, which must be allocated. */
    method Pfree(chunk: nat)
      requires chunk in live
      modifies this`live
      ensures live == old(live) - {chunk}
    {
      live := live - {chunk};
    }

    /** Gives a datum its own copy of its value, unless it is passed by value. */
    method SaveDatum(x: nat, ghost opening: set<nat>)
      requires Inv(W(), opening) && x < |datums| && !datums[x].IsRow() && !datums[x].needGc
      modifies this
      ensures Inv(W(), opening)
      ensures old(datums[x].value.ByVal?) ==> W() == old(W())
      ensures old(datums[x].value.At?) ==> old(datums[x].value.chunk) in old(live) && W() == Saved(old(W()), x)
    {
      assert Shape(W(), x);
      if datums[x].value.ByVal? { return; }
      SaveKeeps(W(), x, opening);
      var v := Fetch(x, opening);
      datums := datums[x := datums[x].(value := At(next, v), needGc := true)];
      live, next := live + {next}, next + 1;
    }

    /** Breaks a row down into one datum for each column, once; later calls return the same table. */
    method Deform(x: nat, ghost opening: set<nat>) returns (slots: seq<Slot>)
      requires Inv(W(), opening) && x < |datums| && x !in opening && datums[x].IsRow()
      modifies this
      ensures Inv(W(), opening) && Grown(old(W()), W())
      ensures datums[x] == old(datums[x]).(deformed := Some(slots))
      ensures forall z | 0 <= z < |old(datums)| && z != x :: datums[z] == old(datums[z])
      ensures old(datums[x].deformed.Some?) ==> W() == old(W())
    {
      if datums[x].deformed.Some? {
        slots := datums[x].deformed.value;
        return;
      }
      ghost var w := W();
      assert Shape(w, x);
      var tuple := Fetch(x, opening);
      var kids: seq<Datum>;
      ghost var from: seq<nat>;
      slots, kids, from := BuildColumns(tuple.cols, |datums|, x, datums[x].value.chunk);
      datums := datums[x := datums[x].(deformed := Some(slots))] + kids;
      rep := rep + seq(|kids|, k requires 0 <= k < |kids| => ColAt(tuple.cols, w.rep[x], from[k]));
      BuiltDeforms(w, W(), x, slots, kids, from);
      DeformKeeps(w, W(), x, slots, from, opening);
    }

    /** One datum for each column that is neither null nor dropped, numbered from n on; each points into
        the row's own storage or, if its value had to be converted, owns a copy. */
    method BuildColumns(vals: seq<Val>, n: nat, x: nat, chunk: nat)
        returns (slots: seq<Slot>, kids: seq<Datum>, ghost from: seq<nat>)
      modifies this`live, this`next
      ensures old(live) <= live && old(next) <= next
      ensures Columns(vals, |vals|, n, x, chunk, slots, kids, from)
      ensures Owning(kids, old(next), next, live)
    {
      slots, kids, from := [], [], [];
      var i := 0;
      while i < |vals|
        invariant 0 <= i <= |vals| && old(live) <= live && old(next) <= next
        invariant Columns(vals, i, n, x, chunk, slots, kids, from)
        invariant Owning(kids, old(next), next, live)
      {
        var v := vals[i];
        if v.Null? || v.Dropped? {
          var s := if v.Null? then SlotNull else SlotDropped;
          NoKid(vals, i, n, x, chunk, slots, kids, from, s);
          slots := slots + [s];
        } else {
          var kid := Datum(if v.Scalar? && !v.byRef then ByVal(v) else At(chunk, v), false, false, None, Some(x));
          // Composite and range values stored in short or compressed form are converted, hence copied.
          var converted := *;
          if converted && kid.value.At? && !v.Arr? {
            kid := kid.(value := At(next, v), needGc := true);
            live, next := live + {next}, next + 1;
          }
          OneKid(vals, i, n, x, chunk, slots, kids, from, kid);
          slots := slots + [Child(n + |kids|)];
          kids, from := kids + [kid], from + [i];
        }
        i := i + 1;
      }
    }

    /** Detaches the columns of x from its tuple, after exploding every composite column, and frees the
        tuple if x owns it. The rows in `opening` are being exploded further out. */
    method ExplodeInner(x: nat, ghost opening: set<nat>) returns (ghost touched: set<nat>)
      requires Inv(W(), opening) && x < |datums| && x !in opening && datums[x].deformed.Some?
      requires forall o | o in opening :: o < x
      requires datums[x].datumref.Some? ==> datums[x].datumref.value in opening
      modifies this
      ensures Inv(W(), opening) && Grown(old(W()), W()) && OnlyBelow(old(W()), W(), x, touched)
      ensures datums[x].value.Gone?
      decreases if datums[x].value.Gone? then Null else datums[x].value.v, 1
    {
      touched := {x};
      if datums[x].value.Gone? { return; }
      ghost var w := W();
      assert Shape(w, x);
      touched := ExplodeColumns(x, opening);
      ghost var w1 := W();
      SaveColumns(x, opening);
      ghost var w2 := W();
      assert Shape(w2, x);
      DetachKeeps(w2, x, opening);
      Release(x);
      assert Grown(w, W()) by {
        GrownTrans(w, w1, w2);
        DetachGrown(w2, x);
        GrownTrans(w, w2, W());
      }
      touched := touched + set z | 0 <= z < |w.datums| && Child(z) in w.datums[x].deformed.value;
    }

    /** Explodes each composite column of x, deforming it first if need be. */
    method ExplodeColumns(x: nat, ghost opening: set<nat>) returns (ghost touched: set<nat>)
      requires Inv(W(), opening) && x < |datums| && x !in opening && datums[x].deformed.Some?
      requires datums[x].value.At? && datums[x].value.v.Row?
      requires forall o | o in opening :: o < x
      modifies this
      ensures Inv(W(), opening + {x}) && Grown(old(W()), W()) && datums[x] == old(datums[x])
      ensures OnlyBelow(old(W()), W(), x, touched)
      ensures forall s | s in datums[x].deformed.value && s.Child? ::
                x < s.id < |old(datums)| && old(datums[s.id].datumref) == Some(x)
                  && (datums[s.id].IsRow() ==> datums[s.id].value.Gone?)
      decreases datums[x].value.v, 0
    {
      ghost var w, op := W(), opening + {x};
      assert Faithful(w, x, opening) && Linked(w, x);
      OpenKeeps(w, x, opening);
      var slots := datums[x].deformed.value;
      ghost var cols := datums[x].value.v.cols;
      touched := {x};
      var i := 0;
      while i < |slots|
        invariant 0 <= i <= |slots|
        invariant Inv(W(), op) && Grown(w, W()) && datums[x] == w.datums[x]
        invariant OnlyBelow(w, W(), x, touched)
        invariant forall j {:trigger slots[j]} | i <= j < |slots| :: SlotVal(W(), x, slots[j], cols[j])
        invariant forall j {:trigger slots[j]} | 0 <= j < i :: slots[j].Child? ==>
                    slots[j].id < |w.datums| && (datums[slots[j].id].IsRow() ==> datums[slots[j].id].value.Gone?)
      {
        if slots[i].Child? {
          var c := slots[i].id;
          // A column that is still to be exploded cannot have been modified.
          assert Shape(W(), c);
          assert !datums[c].modified;
          if datums[c].IsRow() {
            ghost var before := W();
            ghost var t := ExplodeColumn(c, op);
            GrownTrans(w, before, W());
            BelowStep(w, before, W(), x, c, touched, t);
            SlotsStay(before, W(), x, c, t, slots, cols, i);
            touched := touched + t;
          }
        }
        i := i + 1;
      }
    }

    method ExplodeColumn(c: nat, ghost opening: set<nat>) returns (ghost touched: set<nat>)
      requires Inv(W(), opening) && c < |datums| && c !in opening && datums[c].IsRow()
      requires forall o | o in opening :: o < c
      requires datums[c].datumref.Some? ==> datums[c].datumref.value in opening
      modifies this
      ensures Inv(W(), opening) && Grown(old(W()), W()) && OnlyBelow(old(W()), W(), c, touched)
      ensures datums[c].value.Gone?
      decreases if datums[c].value.Gone? then Null else datums[c].value.v, 2
    {
      ghost var w := W();
      var _ := Deform(c, opening);
      ghost var w1 := W();
      touched := ExplodeInner(c, opening);
      GrownTrans(w, w1, W());
    }

    /** Copies every column value of x that still lies in x's tuple. */
    method SaveColumns(x: nat, ghost opening: set<nat>)
      requires Inv(W(), opening + {x}) && x < |datums| && x !in opening && datums[x].deformed.Some?
      requires datums[x].value.At? && datums[x].value.v.Row?
      requires forall s | s in datums[x].deformed.value && s.Child? ::
                x < s.id < |datums| && (datums[s.id].IsRow() ==> datums[s.id].value.Gone?)
      modifies this
      ensures Inv(W(), opening + {x}) && Grown(old(W()), W()) && |datums| == |old(datums)|
      ensures forall z | 0 <= z < |datums| && Child(z) in datums[x].deformed.value :: !datums[z].Borrows()
      ensures forall z | 0 <= z < |datums| :: datums[z].datumref == old(datums[z].datumref)
                        && (Child(z) !in datums[x].deformed.value ==> datums[z] == old(datums[z]))
    {
      ghost var w, op := W(), opening + {x};
      var slots := datums[x].deformed.value;
      var i := 0;
      while i < |slots|
        invariant 0 <= i <= |slots|
        invariant Inv(W(), op) && Grown(w, W()) && |datums| == |w.datums|
        invariant forall z | 0 <= z < |datums| :: datums[z].datumref == w.datums[z].datumref
                        && (Child(z) !in slots ==> datums[z] == w.datums[z])
        invariant forall j {:trigger slots[j]} | 0 <= j < i :: slots[j].Child? ==> !datums[slots[j].id].Borrows()
      {
        if slots[i].Child? {
          var c := slots[i].id;
          assert Shape(W(), c);
          if !datums[c].needGc && !datums[c].modified {
            SaveDatum(c, op);
          }
        }
        i := i + 1;
      }
    }

    /** Marks x exploded, frees its tuple if x owns it, and drops the references the columns hold on x. */
    method Release(x: nat)
      requires x < |datums| && datums[x].value.At? && datums[x].deformed.Some?
      requires datums[x].needGc ==> datums[x].value.chunk in live
      requires forall s | s in datums[x].deformed.value && s.Child? :: x < s.id < |datums|
      modifies this
      ensures W() == Detached(old(W()), x)
    {
      ghost var w := W();
      var slots := datums[x].deformed.value;
      if datums[x].needGc {
        var oldval := datums[x].value.chunk;
        datums := datums[x := datums[x].(modified := true, needGc := false, value := Gone)];
        Pfree(oldval);
      } else {
        datums := datums[x := datums[x].(modified := true, value := Gone)];
      }
      ghost var after := datums;
      var i := 0;
      while i < |slots|
        invariant 0 <= i <= |slots| && |datums| == |after|
        invariant forall z | 0 <= z < |datums| ::
                    datums[z] == if Child(z) in slots[..i] then after[z].(datumref := None) else after[z]
        invariant rep == w.rep && heap == w.heap && next == w.next && live == Detached(w, x).live
      {
        if slots[i].Child? {
          datums := datums[slots[i].id := datums[slots[i].id].(datumref := None)];
        }
        i := i + 1;
      }
      assert slots[..i] == slots;
      datums := datums[x := datums[x].(datumref := None)];
      assert datums == Detached(w, x).datums;
    }

    /** Explodes the row x, together with the whole row it is part of: the ultimate parent is found by
        following references, and exploding that explodes everything handed out below it. */
    method Explode(x: nat) returns (slots: seq<Slot>)
      requires Valid() && x < |datums| && datums[x].IsRow()
      modifies this
      ensures Valid() && Grown(old(W()), W())
      ensures datums[x].value.Gone? && datums[x].deformed == Some(slots)
    {
      ghost var w := W();
      slots := Deform(x, {});
      if datums[x].value.Gone? { return; }
      ghost var w1 := W();
      var top := x;
      while datums[top].datumref.Some?
        invariant 0 <= top <= x && W() == w1 && datums[top].deformed.Some? && Above(w1, x, top)
        decreases top
      {
        assert Shape(w1, top);
        AboveStep(w1, x, top);
        top := datums[top].datumref.value;
      }
      if top != x {
        assert Shape(w1, top);
        var _ := Deform(top, {});
      }
      ghost var w2 := W();
      GrownTrans(w, w1, w2);
      ghost var touched := ExplodeInner(top, {});
      GrownTrans(w, w2, W());
      ChainExploded(w2, W(), x, top);
    }

    /** self[attno] of a row: an error unless attno is a present column, else null, a scalar, or the
        datum handed out for a row or array column. */
    method RowIndex(x: nat, attno: int) returns (r: Result<Column, string>)
      requires Valid() && x < |datums| && datums[x].Container()
      modifies this
      ensures Valid() && Grown(old(W()), W())
      ensures !ColumnOk(heap, rep[x], attno) ==> r.Err?
      ensures ColumnOk(heap, rep[x], attno) ==>
                match heap[rep[x]].cells[attno - 1]
                case Missing => r.Err?
                case DroppedCell => r.Err?
                case NullCell => r == Ok(ColNull)
                case ScalarCell(_, data) => r == Ok(ColScalar(data))
                case Sub(k) => r.Ok? && r.value.ColHandle? && r.value.id < |datums|
                               && datums[r.value.id].Container() && rep[r.value.id] == k
    {
      ghost var w := W();
      assert Shape(w, x) && Linked(w, x) && Faithful(w, x, {});
      ColumnsMatch(w, x, attno);
      if !datums[x].IsRow() { return Err("datum is not a row type"); }
      if attno < 1 || attno > Natts(datums[x]) || IsDroppedColumn(datums[x], attno - 1) {
        return Err("datum has no column number");
      }
      var slots := Deform(x, {});
      assert Linked(W(), x) && SlotCell(W(), x, slots[attno - 1], heap[rep[x]].cells[attno - 1]);
      match slots[attno - 1] {
        case Child(k) =>
          var d := datums[k];
          assert Shape(W(), k);
          if !d.Container() {
            var v := Fetch(k, {});
            r := Ok(ColScalar(v.data));
          } else {
            r := Ok(ColHandle(k));
          }
        case SlotNull => r := Ok(ColNull);
        case SlotDropped => r := Ok(ColNull);
        case Unset => r := Err("missing attribute");
      }
    }

    /** The flat value of a row or array, built anew column by column; an exploded column is built the
        same way, and any other is taken as it stands. */
    method Implode(x: nat) returns (v: Val)
      requires Valid() && x < |datums| && datums[x].Container()
      modifies this
      ensures Valid() && Grown(old(W()), W())
      ensures v == ReadNode(heap, rep[x]) && v.Container()
      ensures old(datums[x].value.Gone?) ==> W() == old(W())
      decreases !datums[x].value.Gone?, if datums[x].value.Gone? then |datums| - x else 0, 1
    {
      ghost var w := W();
      assert Shape(w, x);
      if !datums[x].IsRow() {
        ViewIsValue(w, x);
        v := Fetch(x, {});
        return;
      }
      var slots := Deform(x, {});
      var vals: seq<Val> := [];
      ghost var start := W();
      assert Linked(start, x) && Faithful(start, x, {});
      ghost var cells := heap[rep[x]].cells;
      var i := 0;
      while i < |slots|
        invariant 0 <= i <= |slots| == |cells| && |vals| == i && W() == start
        invariant forall j | 0 <= j < i :: vals[j] == ReadCell(heap, rep[x], cells[j])
      {
        assert SlotCell(start, x, slots[i], cells[i]);
        var val := ImplodeColumn(x, slots[i], cells[i]);
        vals := vals + [val];
        i := i + 1;
      }
      v := Row(vals);
    }

    method ImplodeColumn(x: nat, s: Slot, ghost c: Cell) returns (v: Val)
      requires Valid() && x < |datums| && datums[x].deformed.Some? && s in datums[x].deformed.value
      requires SlotCell(W(), x, s, c) && rep[x] < |heap|
      modifies this
      ensures W() == old(W())
      ensures v == ReadCell(heap, rep[x], c)
      decreases !datums[x].value.Gone?, if datums[x].value.Gone? then |datums| - x else 0, 0
    {
      ghost var w := W();
      assert Shape(w, x) && Linked(w, x) && Faithful(w, x, {});
      match s {
        case Child(k) =>
          assert Shape(w, k) && Linked(w, k);
          if datums[k].modified {
            ghost var i :| 0 <= i < |datums[x].deformed.value| && datums[x].deformed.value[i] == s;
            v := Implode(k);
          } else {
            v := Fetch(k, {});
            if v.Container() { ViewIsValue(w, k); }
          }
        case SlotNull => v := Null;
        case SlotDropped => v := Dropped;
        case Unset => v := Null;
      }
    }

    /** A new row or array datum holding its own copy of v. */
    method NewContainer(v: Val) returns (x: nat)
      requires Valid() && v.Container()
      modifies this
      ensures Valid() && x == |old(datums)| && W() == WithRoot(old(W()), v)
    {
      RootKeeps(W(), v);
      x := |datums|;
      datums := datums + [Datum(At(next, v), true, false, None, None)];
      live, next := live + {next}, next + 1;
      rep, heap := rep + [|heap|], heap + Layout(v, |heap|);
    }

    method NewScalar(v: Val) returns (x: nat)
      requires Valid() && v.Scalar?
      modifies this
      ensures Valid() && x == |old(datums)| && W() == WithScalar(old(W()), v)
    {
      ScalarKeeps(W(), v);
      x := |datums|;
      datums := datums + [if v.Scalar? && !v.byRef then Datum(ByVal(v), false, false, None, None)
                          else Datum(At(next, v), true, false, None, None)];
      live, next, rep := live + {next}, next + 1, rep + [0];
    }

    /** self[attno] = arg for a row: an error unless attno is a present column; otherwise the row is
        exploded and the column gets a fresh copy of the argument. */
    method RowNewIndex(x: nat, attno: int, arg: Arg) returns (ok: bool)
      requires Valid() && x < |datums| && datums[x].Container()
      requires arg.ArgPlain? ==> arg.v.Scalar? || arg.v.Container()
      requires arg.ArgHandle? ==> arg.id < |datums| && datums[arg.id].Container()
      modifies this
      ensures Valid() && SameHandles(old(W()), W())
      ensures ok <==> ColumnOk(old(heap), old(rep)[x], attno)
      ensures !ok ==> W() == old(W())
      ensures ok ==> heap == StoredArg(old(W()), old(rep)[x], attno, arg)
      ensures ok ==> datums[x].modified
    {
      ghost var w := W();
      ColumnsMatch(w, x, attno);
      if !datums[x].IsRow() { return false; }
      if attno < 1 || attno > Natts(datums[x]) || IsDroppedColumn(datums[x], attno - 1) { return false; }
      ok := true;
      ghost var n := rep[x];
      var _ := Explode(x);
      match arg {
        case ArgNil =>
          assert Linked(W(), x);
          PutSlot(x, attno - 1, Unset, Missing);
        case ArgPlain(v) => PutValue(x, attno - 1, v);
        case ArgHandle(y) =>
          ghost var w1 := W();
          var v := Implode(y);
          assert w1.rep[x] == n && w1.rep[y] == w.rep[y];
          PutValue(x, attno - 1, v);
      }
      assert Shape(W(), x);
    }

    /** Column i of the exploded row x is filled with a fresh copy of v. */
    method PutValue(x: nat, i: nat, v: Val)
      requires Valid() && x < |datums| && datums[x].value.Gone? && datums[x].IsRow()
      requires v.Scalar? || v.Container()
      requires rep[x] < |heap| && heap[rep[x]].RowNode? && i < |heap[rep[x]].cells|
      modifies this
      ensures Valid() && SameHandles(old(W()), W())
      ensures heap == StoreVal(old(heap), old(rep)[x], i, v)
      ensures datums[x].value.Gone?
    {
      ghost var w, h := W(), heap;
      assert Shape(w, x) && Linked(w, x);
      ghost var slots := datums[x].deformed.value;
      assert Child(|datums|) !in slots by {
        forall j | 0 <= j < |slots|
          ensures slots[j] != Child(|datums|)
        {
          assert SlotCell(w, x, slots[j], h[rep[x]].cells[j]);
        }
      }
      var k;
      if v.Container() {
        k := NewContainer(v);
        InHeap(w, {}, x);
      } else {
        k := NewScalar(v);
        assert Layout(v, |h|) == [];
      }
      assert datums[k] == W().datums[k] && datums[x] == w.datums[x] && rep[x] == w.rep[x];
      PutSlot(x, i, Child(k), CellOf(v, |h|));
      assert heap == StoreVal(h, w.rep[x], i, v);
    }

    method PutSlot(x: nat, i: nat, s: Slot, ghost c: Cell)
      requires Valid() && x < |datums| && datums[x].value.Gone? && datums[x].IsRow()
      requires rep[x] < |heap| && heap[rep[x]].RowNode? && i < |heap[rep[x]].cells|
      requires SlotCell(W(), x, s, c) && (s.Child? ==> s !in datums[x].deformed.value)
      modifies this
      ensures Valid() && |datums| == |old(datums)| && SameHandles(old(W()), W())
      ensures heap == StoreCell(old(heap), old(rep)[x], i, c, [])
      ensures datums[x].value.Gone?
    {
      ghost var w := W();
      assert Linked(w, x);
      StoreKeeps(w, x, i, s, c);
      datums := datums[x := datums[x].(deformed := Some(datums[x].deformed.value[i := s]))];
      heap := StoreCell(heap, rep[x], i, c, []);
    }

    /** An array is brought into its expanded form, which it owns, before it is looked into. */
    method ArrayValue(x: nat)
      requires Valid() && x < |datums| && datums[x].IsArr()
      modifies this
      ensures Valid() && Grown(old(W()), W()) && datums[x].needGc && datums[x].IsArr()
      ensures datums[x].datumref == old(datums[x].datumref)
    {
      assert Shape(W(), x);
      if !datums[x].needGc { SaveDatum(x, {}); }
    }

    /** self[key] of an array: its element, null beyond its bounds. */
    method ArrayIndex(x: nat, key: int) returns (r: Result<Option<int>, string>)
      requires Valid() && x < |datums| && datums[x].Container()
      modifies this
      ensures Valid() && Grown(old(W()), W())
      ensures r.Ok? <==> rep[x] < |heap| && heap[rep[x]].ArrNode?
      ensures r.Ok? ==> r.value == var elems := heap[rep[x]].elems; if key in elems then Some(elems[key]) else None
    {
      assert Shape(W(), x) && Linked(W(), x) && Faithful(W(), x, {});
      if !datums[x].IsArr() { return Err("datum is not an array type"); }
      ArrayValue(x);
      assert Shape(W(), x) && Faithful(W(), x, {});
      var v := Fetch(x, {});
      r := Ok(if key in v.elems then Some(v.elems[key]) else None);
    }

    /** self[key] = data for an array: the row it was read from, if any, is exploded first, so that the
        change, made in place, is seen there too. */
    method ArrayNewIndex(x: nat, key: int, data: int) returns (ok: bool)
      requires Valid() && x < |datums| && datums[x].Container()
      modifies this
      ensures Valid() && SameHandles(old(W()), W())
      ensures ok <==> old(rep)[x] < |old(heap)| && old(heap)[old(rep)[x]].ArrNode?
      ensures heap == if ok then StoreElem(old(heap), old(rep)[x], key, data) else old(heap)
    {
      ghost var w := W();
      assert Shape(w, x) && Linked(w, x) && Faithful(w, x, {});
      if !datums[x].IsArr() { return false; }
      ok := true;
      if datums[x].datumref.Some? {
        var _ := Explode(datums[x].datumref.value);
        assert Shape(W(), x);
      }
      ghost var w1 := W();
      ArrayValue(x);
      GrownTrans(w, w1, W());
      assert Faithful(W(), x, {}) && Shape(W(), x);
      ElemKeeps(W(), x, key, data);
      datums := datums[x := datums[x].(value := At(datums[x].value.chunk, Arr(datums[x].value.v.elems[key := data])))];
      heap := StoreElem(heap, rep[x], key, data);
    }

    /** One step of a Lua program whose variables hold the datums `regs`. */
    method Exec(op: Op, regs: seq<nat>) returns (regs': seq<nat>, o: Obs)
      requires Valid() && Holds(W(), regs)
      modifies this
      ensures Valid() && Holds(W(), regs') && SameHandles(old(W()), W())
      ensures Step(MachineOf(old(W()), regs), op) == (MachineOf(W(), regs'), o)
    {
      match op {
        case New(_) => regs', o := ExecNew(op, regs);
        case Copy(_) => regs', o := ExecNew(op, regs);
        case Get(r, attno) => regs', o := ExecGet(r, attno, regs);
        case Elem(_, _) => o := ExecRead(op, regs); regs' := regs;
        case Show(_) => o := ExecRead(op, regs); regs' := regs;
        case Set(_, _, _) => o := ExecWrite(op, regs); regs' := regs;
        case SetElem(_, _, _) => o := ExecWrite(op, regs); regs' := regs;
      }
    }

    method ExecNew(op: Op, regs: seq<nat>) returns (regs': seq<nat>, o: Obs)
      requires Valid() && Holds(W(), regs) && (op.New? || op.Copy?)
      modifies this
      ensures Valid() && Holds(W(), regs') && SameHandles(old(W()), W())
      ensures Step(MachineOf(old(W()), regs), op) == (MachineOf(W(), regs'), o)
    {
      ghost var w := W();
      regs', o := regs, Error;
      var v := Null;
      if op.New? {
        v := op.v;
      } else if op.reg < |regs| {
        InHeap(w, {}, regs[op.reg]);
        v := Implode(regs[op.reg]);
      }
      if v.Container() {
        var x := NewContainer(v);
        MachineKept(w, W(), regs);
        regs', o := regs + [x], Handle;
        assert MachineOf(W(), regs') == AddRoot(MachineOf(w, regs), v);
      }
    }

    method ExecGet(r: nat, attno: int, regs: seq<nat>) returns (regs': seq<nat>, o: Obs)
      requires Valid() && Holds(W(), regs)
      modifies this
      ensures Valid() && Holds(W(), regs') && SameHandles(old(W()), W())
      ensures Step(MachineOf(old(W()), regs), Get(r, attno)) == (MachineOf(W(), regs'), o)
    {
      ghost var w := W();
      regs', o := regs, Error;
      if r < |regs| {
        var c := RowIndex(regs[r], attno);
        MachineKept(w, W(), regs);
        match c {
          case Ok(ColNull) => o := IsNil;
          case Ok(ColScalar(data)) => o := Number(data);
          case Ok(ColHandle(id)) =>
            regs', o := regs + [id], Handle;
            assert MachineOf(W(), regs').regs == MachineOf(w, regs).regs + [rep[id]];
          case Err(_) =>
        }
      }
    }

    method ExecRead(op: Op, regs: seq<nat>) returns (o: Obs)
      requires Valid() && Holds(W(), regs) && (op.Elem? || op.Show?)
      modifies this
      ensures Valid() && Holds(W(), regs) && SameHandles(old(W()), W())
      ensures Step(MachineOf(old(W()), regs), op) == (MachineOf(W(), regs), o)
    {
      ghost var w := W();
      o := Error;
      if op.reg < |regs| {
        if op.Elem? {
          var e := ArrayIndex(regs[op.reg], op.key);
          if e.Ok? { o := if e.value.Some? then Number(e.value.value) else IsNil; }
        } else {
          var v := Implode(regs[op.reg]);
          o := Whole(v);
        }
        MachineKept(w, W(), regs);
      }
    }

    method ExecWrite(op: Op, regs: seq<nat>) returns (o: Obs)
      requires Valid() && Holds(W(), regs) && (op.Set? || op.SetElem?)
      modifies this
      ensures Valid() && Holds(W(), regs) && SameHandles(old(W()), W())
      ensures Step(MachineOf(old(W()), regs), op) == (MachineOf(W(), regs), o)
    {
      ghost var w := W();
      o := Error;
      if op.reg < |regs| && (op.Set? ==> SourceOk(regs, op.src)) {
        var ok;
        if op.Set? {
          var arg := match op.src
            case SrcNil => ArgNil
            case SrcPlain(v) => ArgPlain(v)
            case SrcHandle(q) => ArgHandle(regs[q]);
          ok := RowNewIndex(regs[op.reg], op.attno, arg);
        } else {
          ok := ArrayNewIndex(regs[op.reg], op.key, op.data);
        }
        if ok { o := Done; }
        MachineKept(w, W(), regs);
      }
    }
  }

  /** Lazily expanded rows are indistinguishable from plain records: whatever a program does through
      its handles, it sees exactly what it would see if rows were an eager nest of mutable records. */
  method Run(prog: seq<Op>) returns (obs: seq<Obs>)
    ensures obs == Observe(Machine([], []), prog)
  {
    var store := new Store();
    var regs: seq<nat> := [];
    obs := [];
    var i := 0;
    while i < |prog|
      invariant 0 <= i <= |prog| && store.Valid() && Holds(store.W(), regs)
      invariant obs + Observe(MachineOf(store.W(), regs), prog[i..]) == Observe(Machine([], []), prog)
    {
      var o;
      assert prog[i..][1..] == prog[i + 1..];
      ghost var m := MachineOf(store.W(), regs);
      regs, o := store.Exec(prog[i], regs);
      obs := obs + [o];
      i := i + 1;
    }
  }
}
