/** Lazily expanded rows: the state of every row, array and scalar datum, the invariant that keeps
borrowed storage alive, and the relation to the plain records they stand for. */
module LazyRows {
  import opened Options
  import opened PlainRecords

  /** What a datum's value word holds: nothing once the row is exploded, a value passed by value, or a
      pointer into a piece of allocated storage together with the flat value found there. */
  datatype Stored = Gone | ByVal(v: Val) | At(chunk: nat, v: Val)

  /** One entry of the table a row is deformed into. */
  datatype Slot = Unset | SlotDropped | SlotNull | Child(id: nat)

  datatype Datum = Datum(value: Stored, needGc: bool, modified: bool,
                         deformed: Option<seq<Slot>>, datumref: Option<nat>)
  {
    predicate IsRow() { deformed.Some? || (!value.Gone? && value.v.Row?) }
    predicate IsArr() { deformed.None? && !value.Gone? && value.v.Arr? }
    predicate Container() { IsRow() || IsArr() }
    predicate Borrows() { value.At? && !needGc }
  }

  /** All datums, the storage still allocated, the next piece of storage to hand out; and, for the proof
      only, the plain record heap and the node each row or array datum stands for. */
  datatype World = World(datums: seq<Datum>, live: set<nat>, next: nat, rep: seq<nat>, heap: Heap)

  /** Ownership: who holds storage, who borrows it, and from whom. */
  ghost predicate Shape(w: World, x: nat)
    requires x < |w.datums|
  {
    var d := w.datums[x];
    && (d.value.ByVal? ==> d.value.v.Scalar? && !d.value.v.byRef && !d.needGc)
    && (d.value.At? ==> d.value.chunk < w.next && (d.value.v.Container() || (d.value.v.Scalar? && d.value.v.byRef)))
    && (d.deformed.Some? ==> d.value.Gone? || d.value.v.Row?)
    && (d.value.Gone? ==> d.deformed.Some?)
    && (d.modified <==> d.value.Gone?)
    && (d.needGc ==> d.value.At? && d.value.chunk in w.live)
    && (d.Borrows() ==> d.datumref.Some?)
    && (d.datumref.Some? ==> ParentOf(w, x, d.datumref.value))
  }

  /** p is an unexploded row that counts x among its columns and lends it storage if x borrows. */
  ghost predicate ParentOf(w: World, x: nat, p: nat)
    requires x < |w.datums|
  {
    && p < x
    && w.datums[p].value.At? && w.datums[p].deformed.Some?
    && Child(x) in w.datums[p].deformed.value
    && (w.datums[x].Borrows() ==> w.datums[x].value.chunk == w.datums[p].value.chunk)
  }

  ghost predicate SlotCell(w: World, x: nat, s: Slot, c: Cell)
    requires |w.rep| == |w.datums| && x < |w.datums|
  {
    match s
    case Unset => c == Missing
    case SlotDropped => c == DroppedCell
    case SlotNull => c == NullCell
    case Child(k) =>
      && x < k < |w.datums|
      && if w.datums[k].Container() then c == Sub(w.rep[k]) && w.rep[x] < w.rep[k]
         else !w.datums[k].value.Gone? && w.datums[k].value.v.Scalar? && c == CellOf(w.datums[k].value.v, 0)
  }

  ghost predicate OneColumnEach(slots: seq<Slot>) {
    forall i, j | 0 <= i < j < |slots| :: slots[i].Child? ==> slots[i] != slots[j]
  }

  /** A deformed row agrees, column by column, with the record it stands for. */
  ghost predicate Linked(w: World, x: nat)
    requires |w.rep| == |w.datums| && x < |w.datums|
  {
    w.datums[x].deformed.Some? ==>
      var slots := w.datums[x].deformed.value;
      && w.rep[x] < |w.heap| && w.heap[w.rep[x]].RowNode?
      && |w.heap[w.rep[x]].cells| == |slots| && OneColumnEach(slots)
      && forall i {:trigger slots[i]} | 0 <= i < |slots| :: SlotCell(w, x, slots[i], w.heap[w.rep[x]].cells[i])
  }

  ghost predicate SlotVal(w: World, x: nat, s: Slot, v: Val) {
    match v
    case Null => s == SlotNull
    case Dropped => s == SlotDropped
    case _ =>
      && s.Child? && s.id < |w.datums|
      && !w.datums[s.id].value.Gone? && w.datums[s.id].value.v == v
      && w.datums[s.id].datumref == Some(x)
  }

  /** Within a row being exploded a column is already exploded or still refers to the row. */
  ghost predicate Halfway(w: World, x: nat, s: Slot) {
    s.Child? ==> s.id < |w.datums| && (w.datums[s.id].value.Gone? || w.datums[s.id].datumref == Some(x))
  }

  /** The flat value of an unexploded row or array is what its record holds; its columns, if they have
      been handed out, still hold their part of it. Rows in `opening` are in the middle of an explosion. */
  ghost predicate Faithful(w: World, x: nat, opening: set<nat>)
    requires |w.rep| == |w.datums| && x < |w.datums|
  {
    var d := w.datums[x];
    d.value.At? ==>
      match d.value.v
      case Row(cols) =>
        if d.deformed.None? then Pristine(w.heap, w.rep[x], d.value.v)
        else if x in opening then
          forall i {:trigger d.deformed.value[i]} | 0 <= i < |d.deformed.value| :: Halfway(w, x, d.deformed.value[i])
        else |d.deformed.value| == |cols| &&
             forall i {:trigger d.deformed.value[i]} | 0 <= i < |cols| :: SlotVal(w, x, d.deformed.value[i], cols[i])
      case Arr(elems) => w.rep[x] < |w.heap| && w.heap[w.rep[x]] == ArrNode(elems)
      case _ => true
  }

  /** How many record nodes a datum stands for: a whole subtree until it is deformed. */
  function Extent(d: Datum): nat {
    if d.deformed.None? && !d.value.Gone? && d.value.v.Row? then Size(d.value.v) else 1
  }

  ghost predicate OwnApart(d: Datum, e: Datum) {
    d.needGc && e.needGc && d.value.At? && e.value.At? ==> d.value.chunk != e.value.chunk
  }

  /** Two datums stand for different records, and two owners own different storage. */
  ghost predicate Apart(w: World, x: nat, y: nat)
    requires |w.rep| == |w.datums| && x < |w.datums| && y < |w.datums|
  {
    && (w.datums[x].Container() && w.datums[y].Container() ==>
          || w.rep[x] + Extent(w.datums[x]) <= w.rep[y]
          || w.rep[y] + Extent(w.datums[y]) <= w.rep[x])
    && OwnApart(w.datums[x], w.datums[y])
  }

  ghost predicate Inv(w: World, opening: set<nat>) {
    && |w.rep| == |w.datums|
    && (forall x | 0 <= x < |w.datums| :: Shape(w, x))
    && (forall x | 0 <= x < |w.datums| :: Linked(w, x))
    && (forall x | 0 <= x < |w.datums| :: Faithful(w, x, opening))
    && (forall x, y | 0 <= x < y < |w.datums| :: Apart(w, x, y))
  }

  lemma ApartAny(w: World, opening: set<nat>, x: nat, y: nat)
    requires Inv(w, opening) && x < |w.datums| && y < |w.datums| && x != y
    ensures Apart(w, x, y)
  {
    if x < y { assert Apart(w, x, y); } else { assert Apart(w, y, x); }
  }

  // ---- Deforming ----

  /** The datum made for a column: a pointer into the row's own storage, unless the column had to be
      converted and so was copied to storage of its own. */
  ghost predicate KidOf(k: Datum, v: Val, x: nat, chunk: nat) {
    && !k.modified && k.deformed.None? && k.datumref == Some(x)
    && if v.Scalar? && !v.byRef then k.value == ByVal(v) && !k.needGc
       else k.value.At? && k.value.v == v && (!k.needGc ==> k.value.chunk == chunk)
  }

  /** w' is w with row x deformed into `slots`; the new datums serve the columns listed in `cols`. */
  ghost predicate DeformedTo(w: World, w': World, x: nat, slots: seq<Slot>, cols: seq<nat>)
    requires |w.rep| == |w.datums| && x < |w.datums| && w.datums[x].value.At? && w.datums[x].value.v.Row?
  {
    var n, d, vals := |w.datums|, w.datums[x], w.datums[x].value.v.cols;
    && |w'.datums| == n + |cols| == |w'.rep| && |slots| == |vals|
    && w'.heap == w.heap && w.live <= w'.live && w.next <= w'.next
    && w'.datums[x] == d.(deformed := Some(slots)) && w'.rep[..n] == w.rep
    && (forall y | 0 <= y < n && y != x :: w'.datums[y] == w.datums[y])
    && (forall k | 0 <= k < |cols| :: NewDatum(w, w', x, slots, cols, k))
    && (forall j, k | 0 <= j < k < |cols| :: NewApart(w', n, j, k))
    && (forall i {:trigger Served(vals[i], slots[i], n, cols, i)} | 0 <= i < |vals| ::
         Served(vals[i], slots[i], n, cols, i))
  }

  ghost predicate NewApart(w: World, n: nat, j: nat, k: nat)
    requires n + j < |w.datums| && n + k < |w.datums|
  {
    OwnApart(w.datums[n + j], w.datums[n + k])
  }

  /** The k-th new datum serves column cols[k]. */
  ghost predicate NewDatum(w: World, w': World, x: nat, slots: seq<Slot>, cols: seq<nat>, k: nat)
    requires |w.rep| == |w.datums| && x < |w.datums| && w.datums[x].value.At? && w.datums[x].value.v.Row?
    requires |w'.datums| == |w.datums| + |cols| == |w'.rep| && |slots| == |w.datums[x].value.v.cols| && k < |cols|
  {
    var n, d, vals := |w.datums|, w.datums[x], w.datums[x].value.v.cols;
    && cols[k] < |vals| && slots[cols[k]] == Child(n + k)
    && vals[cols[k]] != Null && vals[cols[k]] != Dropped
    && KidOf(w'.datums[n + k], vals[cols[k]], x, d.value.chunk)
    && w'.rep[n + k] == ColAt(vals, w.rep[x], cols[k])
    && (w'.datums[n + k].needGc ==> w.next <= w'.datums[n + k].value.chunk < w'.next
                                    && w'.datums[n + k].value.chunk in w'.live)
  }

  /** Slot s serves the i-th column, of value v; the datums from n on serve the columns `cols`. */
  ghost predicate Served(v: Val, s: Slot, n: nat, cols: seq<nat>, i: nat) {
    match v
    case Null => s == SlotNull
    case Dropped => s == SlotDropped
    case _ => s.Child? && n <= s.id < n + |cols| && cols[s.id - n] == i
  }

  ghost predicate Deforming(w: World, w': World, x: nat, slots: seq<Slot>, cols: seq<nat>, opening: set<nat>) {
    && Inv(w, opening) && x < |w.datums| && x !in opening
    && w.datums[x].value.At? && w.datums[x].value.v.Row? && w.datums[x].deformed.None?
    && DeformedTo(w, w', x, slots, cols)
  }

  lemma DeformKeeps(w: World, w': World, x: nat, slots: seq<Slot>, cols: seq<nat>, opening: set<nat>)
    requires Deforming(w, w', x, slots, cols, opening)
    ensures Inv(w', opening)
  {
    var n := |w.datums|;
    forall y | 0 <= y < |w'.datums| ensures Shape(w', y) && Linked(w', y) && Faithful(w', y, opening) {
      if y == x { DeformRow(w, w', x, slots, cols, opening); }
      else if y < n { DeformOther(w, w', x, slots, cols, opening, y); }
      else { DeformKid(w, w', x, slots, cols, opening, y - n); }
    }
    forall y, z | 0 <= y < z < |w'.datums|
      ensures Apart(w', y, z)
    {
      DeformApart(w, w', x, slots, cols, opening, y, z);
    }
  }

  lemma DeformRow(w: World, w': World, x: nat, slots: seq<Slot>, cols: seq<nat>, opening: set<nat>)
    requires Deforming(w, w', x, slots, cols, opening)
    ensures Shape(w', x) && Linked(w', x) && Faithful(w', x, opening)
  {
    assert Shape(w, x) && Faithful(w, x, opening);
    var vals, cells := w.datums[x].value.v.cols, w.heap[w.rep[x]].cells;
    forall i | 0 <= i < |slots| ensures SlotCell(w', x, slots[i], cells[i]) && SlotVal(w', x, slots[i], vals[i]) {
      var at := ColAt(vals, w.rep[x], i);
      assert cells[i] == CellOf(vals[i], at);
      DeformSlot(w, w', x, slots, cols, i, vals[i], at);
    }
    DeformDistinct(w, w', x, slots, cols, opening);
  }

  lemma DeformDistinct(w: World, w': World, x: nat, slots: seq<Slot>, cols: seq<nat>, opening: set<nat>)
    requires Deforming(w, w', x, slots, cols, opening)
    ensures OneColumnEach(slots)
  {
    forall i, j | 0 <= i < j < |slots| ensures slots[i].Child? ==> slots[i] != slots[j] {
      if slots[i].Child? && slots[j].Child? {
        var n, vals := |w.datums|, w.datums[x].value.v.cols;
        assert Served(vals[i], slots[i], n, cols, i) && Served(vals[j], slots[j], n, cols, j);
        assert cols[slots[i].id - |w.datums|] == i && cols[slots[j].id - |w.datums|] == j;
      }
    }
  }

  lemma DeformSlot(w: World, w': World, x: nat, slots: seq<Slot>, cols: seq<nat>, i: nat, v: Val, at: nat)
    requires x < |w.datums| == |w.rep| && w.datums[x].value.At? && w.datums[x].value.v.Row?
    requires DeformedTo(w, w', x, slots, cols) && i < |slots|
    requires v == w.datums[x].value.v.cols[i] && at == ColAt(w.datums[x].value.v.cols, w.rep[x], i)
    ensures SlotCell(w', x, slots[i], CellOf(v, at)) && SlotVal(w', x, slots[i], v)
  {
    var n, s := |w.datums|, slots[i];
    assert Served(w.datums[x].value.v.cols[i], s, n, cols, i);
    assert w'.rep[x] == w.rep[x] by { assert w'.rep[x] == w'.rep[..n][x]; }
    if !v.Null? && !v.Dropped? {
      var k := s.id - n;
      assert NewDatum(w, w', x, slots, cols, k);
      SlotOf(w', x, s, v, at, w.datums[x].value.chunk);
    }
  }

  /** What a slot shows, in terms of the datum it refers to. */
  lemma SlotOf(w: World, x: nat, s: Slot, v: Val, at: nat, chunk: nat)
    requires x < |w.datums| == |w.rep| && w.rep[x] < at
    requires (v.Null? ==> s == SlotNull) && (v.Dropped? ==> s == SlotDropped)
    requires !v.Null? && !v.Dropped? ==>
               s.Child? && x < s.id < |w.datums| && KidOf(w.datums[s.id], v, x, chunk) && w.rep[s.id] == at
    ensures SlotCell(w, x, s, CellOf(v, at)) && SlotVal(w, x, s, v)
  {}

  lemma DeformOther(w: World, w': World, x: nat, slots: seq<Slot>, cols: seq<nat>, opening: set<nat>, y: nat)
    requires Deforming(w, w', x, slots, cols, opening)
    requires y < |w.datums| && y != x
    ensures Shape(w', y) && Linked(w', y) && Faithful(w', y, opening)
  {
    assert Shape(w, x) && Shape(w, y) && Linked(w, y) && Faithful(w, y, opening);
    var d := w.datums[y];
    if d.deformed.Some? {
      var ys := d.deformed.value;
      forall i | 0 <= i < |ys| ensures SlotCell(w', y, ys[i], w.heap[w.rep[y]].cells[i]) {
        assert SlotCell(w, y, ys[i], w.heap[w.rep[y]].cells[i]);
      }
    }
  }

  lemma DeformKid(w: World, w': World, x: nat, slots: seq<Slot>, cols: seq<nat>, opening: set<nat>, k: nat)
    requires Deforming(w, w', x, slots, cols, opening)
    requires k < |cols|
    ensures var y := |w.datums| + k; Shape(w', y) && Linked(w', y) && Faithful(w', y, opening)
  {
    assert NewDatum(w, w', x, slots, cols, k);
    var y, i, vals := |w.datums| + k, cols[k], w.datums[x].value.v.cols;
    assert slots[i] == Child(y) && slots[i] in slots;
    assert Shape(w, x) && Faithful(w, x, opening);
    assert Pristine(w.heap, ColAt(vals, w.rep[x], i), vals[i]);
    assert w'.datums[x].deformed == Some(slots) && KidOf(w'.datums[y], vals[i], x, w.datums[x].value.chunk);
  }

  lemma DeformApart(w: World, w': World, x: nat, slots: seq<Slot>, cols: seq<nat>, opening: set<nat>, y: nat, z: nat)
    requires Deforming(w, w', x, slots, cols, opening)
    requires y < z < |w'.datums|
    ensures Apart(w', y, z)
  {
    var n, vals := |w.datums|, w.datums[x].value.v.cols;
    assert Shape(w, x);
    if z < n {
      assert Apart(w, y, z);
    } else {
      assert NewDatum(w, w', x, slots, cols, z - n);
      var j := cols[z - n];
      OffsetMono(vals, j, |vals|);
      if y >= n {
        assert NewDatum(w, w', x, slots, cols, y - n) && NewApart(w', n, y - n, z - n);
        var i := cols[y - n];
        assert slots[i] == Child(y) && slots[j] == Child(z);
        if i < j { OffsetMono(vals, i, j); } else { OffsetMono(vals, j, i); }
      } else {
        assert Shape(w, y);
        if y != x { ApartAny(w, opening, x, y); }
      }
    }
  }

  // ---- Copying a value out, and exploding ----

  /** x is given its own copy of the value it points at. */
  function Saved(w: World, x: nat): World
    requires x < |w.datums| && w.datums[x].value.At?
  {
    w.(datums := w.datums[x := w.datums[x].(value := At(w.next, w.datums[x].value.v), needGc := true)],
       live := w.live + {w.next}, next := w.next + 1)
  }

  lemma SaveKeeps(w: World, x: nat, opening: set<nat>)
    requires Inv(w, opening) && x < |w.datums|
    requires w.datums[x].Borrows() && !w.datums[x].IsRow()
    ensures Inv(Saved(w, x), opening)
  {
    var w' := Saved(w, x);
    forall y | 0 <= y < |w.datums| ensures Shape(w', y) && Linked(w', y) && Faithful(w', y, opening) {
      assert Shape(w, y) && Linked(w, y) && Faithful(w, y, opening);
      if w.datums[y].deformed.Some? {
        var ys := w.datums[y].deformed.value;
        forall i | 0 <= i < |ys| ensures SlotCell(w', y, ys[i], w.heap[w.rep[y]].cells[i]) {
          assert SlotCell(w, y, ys[i], w.heap[w.rep[y]].cells[i]);
        }
      }
    }
    forall y, z | 0 <= y < z < |w.datums| ensures Apart(w', y, z) {
      assert Apart(w, y, z) && Shape(w, y) && Shape(w, z);
    }
  }

  /** Starting to explode a deformed row asks less of its columns. */
  lemma OpenKeeps(w: World, x: nat, opening: set<nat>)
    requires Inv(w, opening) && x < |w.datums|
    requires w.datums[x].value.At? && w.datums[x].deformed.Some?
    ensures Inv(w, opening + {x})
  {
    forall y | 0 <= y < |w.datums| ensures Faithful(w, y, opening + {x}) {
      assert Faithful(w, y, opening) && Shape(w, x);
      if y == x && x !in opening {
        var slots, cols := w.datums[x].deformed.value, w.datums[x].value.v.cols;
        forall i | 0 <= i < |slots| ensures Halfway(w, x, slots[i]) {
          assert SlotVal(w, x, slots[i], cols[i]);
        }
      }
    }
  }

  /** The end of an explosion: x gives up its tuple, freeing it if it owned it, and no column refers to
      x for its storage any more. */
  function Detached(w: World, x: nat): World
    requires x < |w.datums| && w.datums[x].value.At? && w.datums[x].deformed.Some?
  {
    var d := w.datums[x];
    w.(datums := seq(|w.datums|, z requires 0 <= z < |w.datums| =>
         if z == x then d.(value := Gone, modified := true, needGc := false, datumref := None)
         else if Child(z) in d.deformed.value then w.datums[z].(datumref := None)
         else w.datums[z]),
       live := if d.needGc then w.live - {d.value.chunk} else w.live)
  }

  ghost predicate Detaching(w: World, x: nat, opening: set<nat>) {
    && Inv(w, opening + {x}) && x < |w.datums| && x !in opening
    && w.datums[x].value.At? && w.datums[x].deformed.Some?
    && (w.datums[x].datumref.Some? ==> w.datums[x].datumref.value in opening)
    && forall z | 0 <= z < |w.datums| && Child(z) in w.datums[x].deformed.value :: !w.datums[z].Borrows()
  }

  lemma DetachKeeps(w: World, x: nat, opening: set<nat>)
    requires Detaching(w, x, opening)
    ensures Inv(Detached(w, x), opening)
  {
    var w' := Detached(w, x);
    forall y | 0 <= y < |w.datums| ensures Shape(w', y) && Linked(w', y) && Faithful(w', y, opening) {
      DetachShape(w, x, opening, y);
      DetachFaithful(w, x, opening, y);
    }
    forall y, z | 0 <= y < z < |w.datums| ensures Apart(w', y, z) {
      assert Apart(w, y, z) && Shape(w, x);
    }
  }

  lemma DetachShape(w: World, x: nat, opening: set<nat>, y: nat)
    requires Detaching(w, x, opening) && y < |w.datums|
    ensures Shape(Detached(w, x), y) && Linked(Detached(w, x), y)
  {
    var w' := Detached(w, x);
    assert Shape(w, y) && Shape(w, x) && Linked(w, y);
    if y != x { ApartAny(w, opening + {x}, x, y); }
    if w.datums[y].deformed.Some? {
      var ys := w.datums[y].deformed.value;
      forall i | 0 <= i < |ys| ensures SlotCell(w', y, ys[i], w.heap[w.rep[y]].cells[i]) {
        assert SlotCell(w, y, ys[i], w.heap[w.rep[y]].cells[i]);
      }
    }
  }

  lemma DetachFaithful(w: World, x: nat, opening: set<nat>, y: nat)
    requires Detaching(w, x, opening) && y < |w.datums|
    ensures Faithful(Detached(w, x), y, opening)
  {
    var w', mine, d := Detached(w, x), w.datums[x].deformed.value, w.datums[y];
    assert Shape(w, y) && Shape(w, x) && Faithful(w, y, opening + {x}) && Faithful(w, x, opening + {x});
    if y != x && d.value.At? && d.deformed.Some? {
      forall i | 0 <= i < |d.deformed.value|
        ensures y in opening ==> Halfway(w', y, d.deformed.value[i])
        ensures y !in opening ==> SlotVal(w', y, d.deformed.value[i], d.value.v.cols[i])
      {
        var s := d.deformed.value[i];
        if s.Child? && s in mine {
          var j :| 0 <= j < |mine| && mine[j] == s;
          assert Halfway(w, x, mine[j]);
        }
      }
    }
  }

  // ---- New values, assignments ----

  /** A new row or array datum that owns a copy of v. */
  function WithRoot(w: World, v: Val): World {
    w.(datums := w.datums + [Datum(At(w.next, v), true, false, None, None)], live := w.live + {w.next},
       next := w.next + 1, rep := w.rep + [|w.heap|], heap := w.heap + Layout(v, |w.heap|))
  }

  lemma RootKeeps(w: World, v: Val)
    requires Inv(w, {}) && v.Container()
    ensures Inv(WithRoot(w, v), {})
  {
    var w', n := WithRoot(w, v), |w.datums|;
    LayoutPristine(w.heap, v, []);
    assert w'.heap == w.heap + Layout(v, |w.heap|) + [];
    forall y | 0 <= y <= n ensures Shape(w', y) && Linked(w', y) && Faithful(w', y, {}) {
      if y < n {
        assert Shape(w, y) && Linked(w, y) && Faithful(w, y, {});
        OtherKeeps(w, w', y);
      }
    }
    forall y, z | 0 <= y < z <= n ensures Apart(w', y, z) {
      assert Shape(w, y);
      if z < n { assert Apart(w, y, z); } else if w.datums[y].Container() { InHeap(w, {}, y); }
    }
  }

  /** A datum's record nodes lie within the heap. */
  lemma InHeap(w: World, opening: set<nat>, x: nat)
    requires Inv(w, opening) && x < |w.datums| && w.datums[x].Container()
    ensures w.rep[x] + Extent(w.datums[x]) <= |w.heap|
  {
    assert Shape(w, x) && Linked(w, x) && Faithful(w, x, opening);
  }

  /** Nothing changes for y when every datum and y's own record nodes stay as they are. */
  lemma OtherKeeps(w: World, w': World, y: nat)
    requires Inv(w, {}) && y < |w.datums| <= |w'.datums| == |w'.rep|
    requires forall z | 0 <= z < |w.datums| :: w'.rep[z] == w.rep[z]
    requires w'.datums[y] == w.datums[y]
    requires forall z | 0 <= z < |w.datums| :: SameKind(w.datums[z], w'.datums[z])
    requires w.live <= w'.live && w.next <= w'.next && |w.heap| <= |w'.heap|
    requires w.datums[y].Container() ==>
               forall k | w.rep[y] <= k < w.rep[y] + Extent(w.datums[y]) && k < |w.heap| :: w'.heap[k] == w.heap[k]
    ensures Shape(w', y) && Linked(w', y) && Faithful(w', y, {})
  {
    assert Shape(w, y) && Linked(w, y) && Faithful(w, y, {});
    var d := w.datums[y];
    if d.deformed.Some? {
      var ys := d.deformed.value;
      forall i | 0 <= i < |ys| ensures SlotCell(w', y, ys[i], w'.heap[w'.rep[y]].cells[i]) {
        assert SlotCell(w, y, ys[i], w.heap[w.rep[y]].cells[i]);
      }
      if d.value.At? {
        forall i | 0 <= i < |ys| ensures SlotVal(w', y, ys[i], d.value.v.cols[i]) {
          assert SlotVal(w, y, ys[i], d.value.v.cols[i]);
        }
      }
    } else if d.value.At? && d.value.v.Row? {
      assert Same(w.heap, w'.heap, w.rep[y], w.rep[y] + Size(d.value.v));
      PristineFrame(w.heap, w'.heap, w.rep[y], d.value.v);
    }
  }

  /** Changes a datum can undergo without any other datum noticing: what an exploded row's columns are,
      and what an array that no row lends storage to holds. */
  ghost predicate SameKind(d: Datum, d': Datum) {
    || d == d'
    || (d.value.Gone? && d'.deformed.Some? && d.deformed.Some? && d' == d.(deformed := d'.deformed))
    || (d.IsArr() && d.datumref.None? && d.value.At? && d'.value.At? && d'.value.v.Arr?
        && d' == d.(value := At(d.value.chunk, d'.value.v)))
  }

  /** A new scalar datum, owning its value if it is passed by reference. */
  function WithScalar(w: World, v: Val): World {
    w.(datums := w.datums + [if v.Scalar? && !v.byRef then Datum(ByVal(v), false, false, None, None)
                             else Datum(At(w.next, v), true, false, None, None)],
       live := w.live + {w.next}, next := w.next + 1, rep := w.rep + [0])
  }

  lemma ScalarKeeps(w: World, v: Val)
    requires Inv(w, {}) && v.Scalar?
    ensures Inv(WithScalar(w, v), {})
  {
    var w', n := WithScalar(w, v), |w.datums|;
    forall y | 0 <= y <= n ensures Shape(w', y) && Linked(w', y) && Faithful(w', y, {}) {
      if y < n { OtherKeeps(w, w', y); }
    }
    forall y, z | 0 <= y < z <= n ensures Apart(w', y, z) {
      assert Shape(w, y);
      if z < n { assert Apart(w, y, z); }
    }
  }

  /** Column i of the exploded row x becomes slot s, and its record's cell becomes c. */
  function Stored1(w: World, x: nat, i: nat, s: Slot, c: Cell): World
    requires |w.rep| == |w.datums| && x < |w.datums| && w.datums[x].deformed.Some? && i < |w.datums[x].deformed.value|
    requires w.rep[x] < |w.heap| && w.heap[w.rep[x]].RowNode? && i < |w.heap[w.rep[x]].cells|
  {
    w.(datums := w.datums[x := w.datums[x].(deformed := Some(w.datums[x].deformed.value[i := s]))],
       heap := StoreCell(w.heap, w.rep[x], i, c, []))
  }

  lemma StoreKeeps(w: World, x: nat, i: nat, s: Slot, c: Cell)
    requires Inv(w, {}) && x < |w.datums| && w.datums[x].value.Gone? && w.datums[x].deformed.Some?
    requires i < |w.datums[x].deformed.value| && Linked(w, x) && SlotCell(w, x, s, c)
    requires s.Child? ==> s !in w.datums[x].deformed.value
    ensures Inv(Stored1(w, x, i, s, c), {})
  {
    var w' := Stored1(w, x, i, s, c);
    assert Shape(w, x);
    forall y | 0 <= y < |w.datums| ensures Shape(w', y) && Linked(w', y) && Faithful(w', y, {}) {
      if y == x {
        var ys, cells := w.datums[x].deformed.value, w.heap[w.rep[x]].cells;
        forall j | 0 <= j < |ys| ensures SlotCell(w', x, w'.datums[x].deformed.value[j], w'.heap[w.rep[x]].cells[j]) {
          assert SlotCell(w, x, ys[j], cells[j]);
        }
      } else {
        ApartAny(w, {}, x, y);
        OtherKeeps(w, w', y);
      }
    }
    forall y, z | 0 <= y < z < |w.datums| ensures Apart(w', y, z) { assert Apart(w, y, z); }
  }

  /** An array that no row lends storage to gets new elements. */
  function ElemStored(w: World, x: nat, key: int, data: int): World
    requires |w.rep| == |w.datums| && x < |w.datums| && w.datums[x].value.At? && w.datums[x].value.v.Arr?
    requires w.rep[x] < |w.heap| && w.heap[w.rep[x]].ArrNode?
  {
    w.(datums := w.datums[x := w.datums[x].(value :=
      At(w.datums[x].value.chunk, Arr(w.datums[x].value.v.elems[key := data])))],
       heap := StoreElem(w.heap, w.rep[x], key, data))
  }

  lemma ElemKeeps(w: World, x: nat, key: int, data: int)
    requires Inv(w, {}) && x < |w.datums| && w.datums[x].IsArr() && w.datums[x].value.At?
    requires w.datums[x].datumref.None? && Faithful(w, x, {})
    ensures Inv(ElemStored(w, x, key, data), {})
  {
    var w' := ElemStored(w, x, key, data);
    forall y | 0 <= y < |w.datums| ensures Shape(w', y) && Linked(w', y) && Faithful(w', y, {}) {
      assert Shape(w, y);
      if y != x {
        ApartAny(w, {}, x, y);
        OtherKeeps(w, w', y);
      }
    }
    forall y, z | 0 <= y < z < |w.datums| ensures Apart(w', y, z) { assert Apart(w, y, z); }
  }

  // ---- What the invariant says ----

  /** The datum at the end of x's chain of references. */
  function Owner(w: World, x: nat): nat
    requires x < |w.datums|
    decreases x
  {
    var d := w.datums[x];
    if d.datumref.Some? && d.datumref.value < x && d.Borrows() then Owner(w, d.datumref.value) else x
  }

  /** Borrowed storage stays live: whoever points into storage without owning it reaches, along its
      references, the unexploded row that does own it. */
  lemma {:induction false} BorrowedLive(w: World, opening: set<nat>, x: nat)
    requires Inv(w, opening) && x < |w.datums| && w.datums[x].value.At?
    ensures Owner(w, x) <= x && w.datums[Owner(w, x)].value.At? && w.datums[Owner(w, x)].needGc
    ensures w.datums[Owner(w, x)].value.chunk == w.datums[x].value.chunk
    ensures w.datums[x].value.chunk in w.live
    decreases x
  {
    assert Shape(w, x);
    if w.datums[x].Borrows() { BorrowedLive(w, opening, w.datums[x].datumref.value); }
  }

  /** z is x or one of the columns handed out below it. */
  ghost predicate Below(w: World, x: nat, z: nat)
    decreases |w.datums| - x
  {
    x == z ||
    (x < |w.datums| && w.datums[x].deformed.Some? &&
     exists k :: x < k < |w.datums| && Child(k) in w.datums[x].deformed.value && Below(w, k, z))
  }

  /** No unexploded row has an exploded or modified descendant, not even while rows further out are being
      exploded. */
  lemma {:induction false} NoneExplodedBelow(w: World, opening: set<nat>, x: nat, z: nat)
    requires Inv(w, opening) && forall o | o in opening :: o < x
    requires x < |w.datums| && !w.datums[x].value.Gone? && Below(w, x, z)
    ensures z < |w.datums| && !w.datums[z].value.Gone? && !w.datums[z].modified
    decreases |w.datums| - x
  {
    assert Shape(w, x) && Faithful(w, x, opening);
    if x != z {
      var slots := w.datums[x].deformed.value;
      var k :| x < k < |w.datums| && Child(k) in slots && Below(w, k, z);
      var i :| 0 <= i < |slots| && slots[i] == Child(k);
      NoneExplodedBelow(w, opening, k, z);
    }
  }

  /** The flat value of an unexploded row or array is the whole value of its record. */
  lemma {:induction false} ViewIsValue(w: World, x: nat)
    requires Inv(w, {}) && x < |w.datums| && w.datums[x].value.At? && w.datums[x].value.v.Container()
    ensures w.rep[x] < |w.heap| && ReadNode(w.heap, w.rep[x]) == w.datums[x].value.v
    decreases |w.datums| - x
  {
    assert Shape(w, x) && Faithful(w, x, {}) && Linked(w, x);
    var d := w.datums[x];
    if d.deformed.None? {
      PristineReads(w.heap, w.rep[x], d.value.v);
    } else {
      var slots, cols, cells := d.deformed.value, d.value.v.cols, w.heap[w.rep[x]].cells;
      forall i | 0 <= i < |cols| ensures ReadCell(w.heap, w.rep[x], cells[i]) == cols[i] {
        assert SlotVal(w, x, slots[i], cols[i]) && SlotCell(w, x, slots[i], cells[i]);
        if slots[i].Child? {
          assert Shape(w, slots[i].id);
          if cols[i].Container() { ViewIsValue(w, slots[i].id); }
        }
      }
    }
  }

  /** x reaches r by following references. */
  ghost predicate Above(w: World, x: nat, r: nat)
    decreases x
  {
    x == r || (x < |w.datums| && w.datums[x].datumref.Some? && w.datums[x].datumref.value < x
               && Above(w, w.datums[x].datumref.value, r))
  }

  lemma {:induction false} AboveStep(w: World, x: nat, r: nat)
    requires Above(w, x, r) && r < |w.datums| && w.datums[r].datumref.Some? && w.datums[r].datumref.value < r
    ensures Above(w, x, w.datums[r].datumref.value)
    decreases x
  {
    if x != r { AboveStep(w, w.datums[x].datumref.value, r); }
  }

  /** Once the ultimate parent is exploded so is every row that used to reach it. */
  lemma {:induction false} ChainExploded(w: World, w': World, x: nat, r: nat)
    requires Inv(w, {}) && Inv(w', {}) && x < |w.datums| <= |w'.datums| && r < |w'.datums|
    requires Above(w, x, r) && w'.datums[r].value.Gone? && w.datums[x].IsRow()
    requires forall z | 0 <= z < |w.datums| && w.datums[z].IsRow() ::
               w'.datums[z].value.Gone? || w'.datums[z].datumref == w.datums[z].datumref
    ensures w'.datums[x].value.Gone?
    decreases x
  {
    if x != r {
      assert Shape(w, x) && Shape(w', x);
      ChainExploded(w, w', w.datums[x].datumref.value, r);
    }
  }
}
