/** Multi-dimensional arrays as nested tables: the mapping loop with its stack of open tables, and the
round trip through the flattening loop. */
module ArrayRebuild {
  import opened Options
  import opened Odometer
  import opened ArrayFlatten

  datatype Call = Call(value: Value, indexes: seq<int>)

  /** An array value, and how it is to be mapped: what nulls become, and the function applied. */
  datatype Mapping = Mapping(elems: seq<Value>, dims: seq<int>, lbound: seq<int>,
                             nullValue: Option<Value>, f: Option<Call -> Value>)

  /** As the array code has it: an index for each element. */
  ghost predicate IsArray(a: Mapping) {
    && Positive(a.dims) && 1 <= |a.dims| <= MAXDIM
    && |a.lbound| == |a.dims| && |a.elems| == Product(a.dims)
  }

  // ---- The recursive definition ----

  function Shifted(pos: seq<int>, lbound: seq<int>): seq<int>
    requires |pos| == |lbound|
  {
    seq(|pos|, i requires 0 <= i < |pos| => pos[i] + lbound[i])
  }

  /** What the function is called with for the k-th element. */
  ghost function CallAt(a: Mapping, k: int): Call
    requires IsArray(a) && 0 <= k < |a.elems|
  {
    Call(if a.elems[k].Nil? && a.nullValue.Some? then a.nullValue.value else a.elems[k],
         Shifted(MultiIndex(k, a.dims), a.lbound))
  }

  /** A call for the k-th element, which has the given index. */
  ghost predicate CalledFor(a: Mapping, k: int, pos: seq<int>, call: Call)
    requires IsArray(a) && 0 <= k < |a.elems| && |pos| == |a.dims|
  {
    && |call.indexes| == |a.dims|
    && (forall d | 0 <= d < |a.dims| :: call.indexes[d] - a.lbound[d] == pos[d])
    && (!a.elems[k].Nil? || a.nullValue.None? ==> call.value == a.elems[k])
    && (a.elems[k].Nil? && a.nullValue.Some? ==> call.value == a.nullValue.value)
  }

  ghost function Item(a: Mapping, k: int): Value
    requires IsArray(a) && 0 <= k < |a.elems|
  {
    if a.f.Some? then a.f.value(CallAt(a, k)) else CallAt(a, k).value
  }

  /** The value under an index prefix: the element at a whole index, otherwise the table of the values
      under its extensions. */
  ghost function Nest(a: Mapping, pos: seq<int>): Value
    requires IsArray(a) && InRange(pos, a.dims)
    decreases |a.dims| - |pos|, 2
  {
    if |pos| == |a.dims| then
      MultiIndexOfRank(pos, a.dims);
      Item(a, Rank(pos, a.dims))
    else
      Part(a, pos, a.dims[|pos|])
  }

  /** The value at Lua index i under a prefix. */
  ghost function Under(a: Mapping, pos: seq<int>, i: int): Value
    requires IsArray(a) && InRange(pos, a.dims) && |pos| < |a.dims|
    requires 0 <= i - a.lbound[|pos|] < a.dims[|pos|]
    decreases |a.dims| - |pos|, 0
  {
    Nest(a, pos + [i - a.lbound[|pos|]])
  }

  /** The table of the values under the first n extensions of a prefix. */
  ghost function Part(a: Mapping, pos: seq<int>, n: int): (t: Value)
    requires IsArray(a) && InRange(pos, a.dims) && |pos| < |a.dims| && 0 <= n <= a.dims[|pos|]
    ensures t.Table?
    ensures var lb := a.lbound[|pos|]; forall i :: i in t.entries <==> lb <= i < lb + n && !Under(a, pos, i).Nil?
    ensures forall i | i in t.entries :: t.entries[i] == Under(a, pos, i)
    decreases |a.dims| - |pos|, 1
  {
    var lb := a.lbound[|pos|];
    Table(map i | lb <= i < lb + n && !Under(a, pos, i).Nil? :: Under(a, pos, i))
  }

  function SetEntry(t: Value, i: int, v: Value): Value
    requires t.Table?
  {
    Table(if v.Nil? then t.entries - {i} else t.entries[i := v])
  }

  lemma NextEntry(a: Mapping, pos: seq<int>, n: int)
    requires IsArray(a) && InRange(pos, a.dims) && |pos| < |a.dims| && 0 <= n < a.dims[|pos|]
    ensures SetEntry(Part(a, pos, n), n + a.lbound[|pos|], Nest(a, pos + [n])) == Part(a, pos, n + 1)
  {
    var m, m', at := Part(a, pos, n).entries, Part(a, pos, n + 1).entries, n + a.lbound[|pos|];
    assert Under(a, pos, at) == Nest(a, pos + [n]) by { assert at - a.lbound[|pos|] == n; }
    var want := SetEntry(Table(m), at, Under(a, pos, at)).entries;
    forall i ensures (i in m' <==> i in want) && (i in m' ==> m'[i] == want[i]) {}
    assert m' == want;
  }

  // ---- The stack of open tables ----

  /** Each open table holds what comes before the index at its dimension. */
  ghost predicate Opened(a: Mapping, stack: seq<Value>, pos: seq<int>)
    requires IsArray(a)
    decreases |pos|
  {
    && |stack| == |pos| && InRange(pos, a.dims)
    && (pos != [] ==>
          var t := |pos| - 1; stack[t] == Part(a, pos[..t], pos[t]) && Opened(a, stack[..t], pos[..t]))
  }

  /** As before, except that the innermost table already holds the value at its index. */
  ghost predicate Filled(a: Mapping, stack: seq<Value>, pos: seq<int>)
    requires IsArray(a)
  {
    && pos != [] && InRange(pos, a.dims) && |stack| == |pos|
    && var t := |pos| - 1; stack[t] == Part(a, pos[..t], pos[t] + 1) && Opened(a, stack[..t], pos[..t])
  }

  /** Storing the value at hand into the innermost table. */
  lemma Fill(a: Mapping, stack: seq<Value>, pos: seq<int>)
    requires IsArray(a) && Opened(a, stack, pos) && pos != []
    ensures var t := |pos| - 1;
            stack[t].Table? && Filled(a, stack[t := SetEntry(stack[t], pos[t] + a.lbound[t], Nest(a, pos))], pos)
  {
    var t := |pos| - 1;
    FullTable(a, pos);
    FilledWith(a, stack, pos, SetEntry(stack[t], pos[t] + a.lbound[t], Nest(a, pos)));
  }

  lemma FullTable(a: Mapping, pos: seq<int>)
    requires IsArray(a) && InRange(pos, a.dims) && pos != []
    ensures var t := |pos| - 1;
            SetEntry(Part(a, pos[..t], pos[t]), pos[t] + a.lbound[t], Nest(a, pos)) == Part(a, pos[..t], pos[t] + 1)
  {
    var t := |pos| - 1;
    assert pos[..t] + [pos[t]] == pos;
    NextEntry(a, pos[..t], pos[t]);
  }

  lemma FilledWith(a: Mapping, stack: seq<Value>, pos: seq<int>, full: Value)
    requires IsArray(a) && Opened(a, stack, pos) && pos != []
    requires full == Part(a, pos[..|pos| - 1], pos[|pos| - 1] + 1)
    ensures Filled(a, stack[|pos| - 1 := full], pos)
  {
    var t := |pos| - 1;
    assert stack[t := full][..t] == stack[..t];
  }

  /** New tables up to the full depth. */
  method OpenTables(a: Mapping, stack: seq<Value>, idx: array<int>, ghost pos: seq<int>)
      returns (stack': seq<Value>, ghost pos': seq<int>)
    requires IsArray(a) && |pos| <= |a.dims| <= idx.Length && Opened(a, stack, pos) && idx[..|pos|] == pos
    modifies idx
    ensures |pos'| == |a.dims| && Opened(a, stack', pos') && idx[..|pos'|] == pos'
    ensures pos' == First(pos, a.dims)
  {
    stack', pos' := stack, pos;
    var nstack := |stack|;
    while nstack < |a.dims|
      invariant nstack == |pos'| <= |a.dims| && Opened(a, stack', pos') && idx[..|pos'|] == pos'
      invariant First(pos', a.dims) == First(pos, a.dims)
    {
      OpenOne(a, stack', pos');
      stack' := stack' + [Table(map[])];
      idx[nstack] := 0;
      nstack := nstack + 1;
      pos' := pos' + [0];
    }
  }

  lemma OpenOne(a: Mapping, stack: seq<Value>, pos: seq<int>)
    requires IsArray(a) && |pos| < |a.dims| && Opened(a, stack, pos)
    ensures Opened(a, stack + [Table(map[])], pos + [0])
  {
    assert (pos + [0])[..|pos|] == pos && (stack + [Table(map[])])[..|pos|] == stack;
    assert Part(a, pos, 0).entries == map[];
  }

  /** One step within a dimension, back to 0 at its end. */
  method Increment(idx: array<int>, i: int, dims: seq<int>, ghost pos: seq<int>) returns (wrapped: bool)
    requires InRange(pos, dims) && 0 <= i == |pos| - 1 < idx.Length && idx[..|pos|] == pos
    modifies idx
    ensures wrapped <==> pos[i] + 1 == dims[i]
    ensures idx[..i] == pos[..i] && (!wrapped ==> idx[..|pos|] == pos[..i] + [pos[i] + 1])
  {
    assert idx[i] == pos[i];
    ghost var was := idx[..|pos|];
    idx[i] := (idx[i] + 1) % dims[i];
    wrapped := idx[i] == 0;
    assert idx[..|pos|] == was[..i] + [idx[i]];
  }

  /** Moves to the next index; complete tables go into the one below. The outermost stays. */
  method NextIndex(a: Mapping, stack: seq<Value>, idx: array<int>, ghost pos: seq<int>)
      returns (stack': seq<Value>, ghost pos': seq<int>)
    requires IsArray(a) && |a.dims| == |pos| <= idx.Length && Filled(a, stack, pos) && idx[..|pos|] == pos
    modifies idx
    ensures pos' == Next(pos, a.dims)
    ensures if pos' == [] then stack' == [Nest(a, [])] else Opened(a, stack', pos') && idx[..|pos'|] == pos'
  {
    stack', pos' := stack, pos;
    var i := |stack| - 1;
    while i >= 0
      invariant -1 <= i == |pos'| - 1 && idx[..|pos'|] == pos' && Next(pos', a.dims) == Next(pos, a.dims)
      invariant if i < 0 then stack' == [Nest(a, [])] else Filled(a, stack', pos')
    {
      var moved;
      moved, stack', pos' := StepIndex(a, stack', idx, pos');
      if moved { return; }
      i := i - 1;
    }
  }

  /** One step of the carry: on within the innermost open dimension, or its table is closed. */
  method StepIndex(a: Mapping, stack: seq<Value>, idx: array<int>, ghost pos: seq<int>)
      returns (moved: bool, stack': seq<Value>, ghost pos': seq<int>)
    requires IsArray(a) && |pos| <= |a.dims| <= idx.Length && Filled(a, stack, pos) && idx[..|pos|] == pos
    modifies idx
    ensures |pos'| <= idx.Length && idx[..|pos'|] == pos'
    ensures moved ==> pos' == Next(pos, a.dims) != [] && Opened(a, stack', pos')
    ensures !moved ==> pos' == pos[..|pos| - 1] && Next(pos', a.dims) == Next(pos, a.dims)
    ensures !moved ==> if pos' == [] then stack' == [Nest(a, [])] else Filled(a, stack', pos')
  {
    var i := |stack| - 1;
    var wrapped := Increment(idx, i, a.dims, pos);
    if wrapped {
      stack' := CloseTable(a, stack, idx, pos);
      moved, pos' := false, pos[..i];
    } else {
      Bumped(a, stack, pos);
      moved, stack', pos' := true, stack, pos[..i] + [pos[i] + 1];
    }
  }

  /** Within a dimension, what follows is under the next index. */
  lemma Bumped(a: Mapping, stack: seq<Value>, pos: seq<int>)
    requires IsArray(a) && Filled(a, stack, pos) && pos[|pos| - 1] + 1 < a.dims[|pos| - 1]
    ensures var pos' := pos[..|pos| - 1] + [pos[|pos| - 1] + 1];
            Opened(a, stack, pos')
  {
    var t := |pos| - 1;
    assert pos == pos[..t] + [pos[t]];
    assert (pos[..t] + [pos[t] + 1])[..t] == pos[..t];
  }

  /** At the end of a dimension, the innermost table is complete. */
  lemma Completed(a: Mapping, stack: seq<Value>, pos: seq<int>)
    requires IsArray(a) && Filled(a, stack, pos) && pos[|pos| - 1] + 1 == a.dims[|pos| - 1]
    ensures var t := |pos| - 1;
            stack[t] == Part(a, pos[..t], a.dims[t]) == Nest(a, pos[..t])
    ensures |pos| == 1 ==> stack == [Nest(a, [])]
  {
    var t := |pos| - 1;
    assert pos == pos[..t] + [pos[t]];
    assert t == 0 ==> pos[..t] == [];
  }

  /** Puts a complete table into the one below it; the outermost stays. */
  method CloseTable(a: Mapping, stack: seq<Value>, idx: array<int>, ghost pos: seq<int>) returns (stack': seq<Value>)
    requires IsArray(a) && Filled(a, stack, pos) && pos[|pos| - 1] + 1 == a.dims[|pos| - 1]
    requires |a.dims| <= idx.Length && idx[..|pos| - 1] == pos[..|pos| - 1]
    ensures if |pos| == 1 then stack' == [Nest(a, [])] else Filled(a, stack', pos[..|pos| - 1])
  {
    var i := |stack| - 1;
    Completed(a, stack, pos);
    if i == 0 { return stack; }
    ghost var most := pos[..i];
    Fill(a, stack[..i], most);
    assert idx[i - 1] == most[i - 1];
    stack' := stack[..i][i - 1 := SetEntry(stack[i - 1], idx[i - 1] + a.lbound[i - 1], stack[i])];
  }

  /** What is stored for the element at hand, and the call made for it. */
  method Apply(a: Mapping, index: int, indexes: seq<int>, ghost pos: seq<int>) returns (val: Value, args: Call)
    requires IsArray(a) && InRange(pos, a.dims) && |pos| == |a.dims| && indexes == pos
    requires 0 <= index < |a.elems| && Rank(pos, a.dims) == index
    ensures val == Nest(a, pos) && args == CallAt(a, index)
  {
    MultiIndexOfRank(pos, a.dims);
    val := a.elems[index];
    if a.nullValue.Some? && val.Nil? { val := a.nullValue.value; }
    args := Call(val, Shifted(indexes, a.lbound));
    if a.f.Some? { val := a.f.value(args); }
  }

  /** Maps an array: the function is called once for each element, in row-major order, with its indexes
      shifted by the lower bounds; and the results are nested as defined. */
  method Map(a: Mapping) returns (r: Value, calls: seq<Call>)
    requires a.elems == [] || IsArray(a)
    ensures a.elems == [] ==> r == Table(map[]) && calls == []
    ensures a.elems != [] ==> r == Nest(a, [])
    ensures a.elems != [] && a.f.None? ==> calls == []
    ensures a.elems != [] && a.f.Some? ==>
              |calls| == |a.elems| && forall k | 0 <= k < |calls| :: calls[k] == CallAt(a, k)
    // The indexes are those of the element, moved by the lower bounds; a null is passed as what it becomes.
    ensures a.elems != [] && a.f.Some? ==>
              forall k | 0 <= k < |calls| :: CalledFor(a, k, MultiIndex(k, a.dims), calls[k])
    // What the function returned, or without one the element itself, is found at those indexes.
    ensures a.elems != [] && a.f.Some? ==>
              forall k | 0 <= k < |calls| :: LeadsTo(r, calls[k].indexes, a.f.value(calls[k]))
    ensures a.elems != [] && a.f.None? ==>
              forall k | 0 <= k < |a.elems| :: LeadsTo(r, CallAt(a, k).indexes, CallAt(a, k).value)
  {
    calls := [];
    if |a.elems| < 1 { return Table(map[]), calls; }
    var idx := new int[MAXDIM];
    var stack: seq<Value> := [];
    ghost var pos: seq<int> := [];
    FirstRank(a.dims);
    for index := 0 to |a.elems|
      invariant Reached(a, stack, pos, idx[..], index)
      invariant |calls| == if a.f.Some? then index else 0
      invariant forall k | 0 <= k < |calls| :: calls[k] == CallAt(a, k)
    {
      var args;
      stack, args, pos := Turn(a, index, stack, idx, pos);
      if a.f.Some? { calls := calls + [args]; }
    }
    r := stack[0];
    forall k | 0 <= k < |a.elems| ensures LeadsTo(r, CallAt(a, k).indexes, Item(a, k)) { NestLeads(a, k); }
  }

  /** The value for an element is found in the nested tables at its indexes. */
  lemma NestLeads(a: Mapping, k: int)
    requires IsArray(a) && 0 <= k < |a.elems|
    ensures LeadsTo(Nest(a, []), CallAt(a, k).indexes, Item(a, k))
  {
    var pos := MultiIndex(k, a.dims);
    NestLeadsOn(a, [], pos);
    assert [] + pos == pos && a.lbound[0..] == a.lbound;
  }

  lemma {:induction false} NestLeadsOn(a: Mapping, pos: seq<int>, more: seq<int>)
    requires IsArray(a) && InRange(pos + more, a.dims) && |pos| + |more| == |a.dims|
    requires InRange(pos, a.dims)
    ensures LeadsTo(Nest(a, pos), Shifted(more, a.lbound[|pos|..]), Nest(a, pos + more))
    decreases |more|
  {
    if more == [] {
      assert pos + more == pos;
    } else {
      var next, key := pos + [more[0]], more[0] + a.lbound[|pos|];
      assert next + more[1..] == pos + more;
      assert 0 <= (pos + more)[|pos|] < a.dims[|pos|];
      NestLeadsOn(a, next, more[1..]);
      assert Shifted(more, a.lbound[|pos|..])[1..] == Shifted(more[1..], a.lbound[|next|..]);
      assert Under(a, pos, key) == Nest(a, next) by { assert key - a.lbound[|pos|] == more[0]; }
    }
  }

  /** Before the element with a given number: the tables are open on its index; after the last one, the
      whole result is left. */
  ghost predicate Reached(a: Mapping, stack: seq<Value>, pos: seq<int>, idx: seq<int>, index: int)
    requires IsArray(a)
  {
    if index == |a.elems| then stack == [Nest(a, [])]
    else
      && |pos| <= |a.dims| <= |idx| && Opened(a, stack, pos) && idx[..|pos|] == pos
      && Rank(First(pos, a.dims), a.dims) == index
  }

  method Turn(a: Mapping, index: int, stack: seq<Value>, idx: array<int>, ghost pos: seq<int>)
      returns (stack': seq<Value>, args: Call, ghost pos': seq<int>)
    requires IsArray(a) && 0 <= index < |a.elems| && |a.dims| <= idx.Length && Reached(a, stack, pos, idx[..], index)
    modifies idx
    ensures args == CallAt(a, index) && Reached(a, stack', pos', idx[..], index + 1)
  {
    stack', args, pos' := PutElement(a, index, stack, idx, pos);
    NextRank(pos', a.dims);
    stack', pos' := NextIndex(a, stack', idx, pos');
  }

  /** Puts the element at hand into the innermost table. */
  method PutElement(a: Mapping, index: int, stack: seq<Value>, idx: array<int>, ghost pos: seq<int>)
      returns (stack': seq<Value>, args: Call, ghost pos': seq<int>)
    requires IsArray(a) && 0 <= index < |a.elems| && |a.dims| <= idx.Length && Reached(a, stack, pos, idx[..], index)
    modifies idx
    ensures args == CallAt(a, index) && |pos'| == |a.dims| && Rank(pos', a.dims) == index
    ensures Filled(a, stack', pos') && idx[..|pos'|] == pos'
  {
    stack', pos' := OpenTables(a, stack, idx, pos);
    var nstack, val := |stack'|, Nil;
    val, args := Apply(a, index, idx[..nstack], pos');
    Fill(a, stack', pos');
    assert idx[nstack - 1] == pos'[nstack - 1];
    stack' := stack'[nstack - 1 := SetEntry(stack'[nstack - 1], idx[nstack - 1] + a.lbound[nstack - 1], val)];
  }

  // ---- Round trip ----

  lemma {:induction false} FetchNest(a: Mapping, pos: seq<int>)
    requires IsArray(a) && InRange(pos, a.dims) && forall d | 0 <= d < |pos| :: a.lbound[d] == 1
    ensures Fetch(Nest(a, []), pos) == Some(Nest(a, pos))
    decreases |pos|
  {
    if pos != [] {
      var n := |pos| - 1;
      FetchNest(a, pos[..n]);
      assert pos[..n] + [pos[n]] == pos;
    }
  }

  /** With lower bounds of 1, flattening the nested tables gives back the elements. */
  lemma FlattenNest(a: Mapping, et: Value -> Option<Value>, k: int)
    requires IsArray(a) && a.f.None? && a.nullValue.None? && 0 <= k < |a.elems|
    requires et(a.elems[k]) == Some(a.elems[k]) && forall d | 0 <= d < |a.dims| :: a.lbound[d] == 1
    ensures Element(Nest(a, []), a.dims, et, k) == Some(a.elems[k])
  {
    FetchNest(a, MultiIndex(k, a.dims));
  }

  /** A missing subtable leaves only nil under it. */
  lemma {:induction false} FetchMissing(v: Value, pos: seq<int>, more: seq<int>)
    requires Fetch(v, pos) == Some(Nil)
    ensures Fetch(v, pos + more) == Some(Nil)
    decreases |more|
  {
    if more == [] {
      assert pos + more == pos;
    } else {
      var n := |more| - 1;
      FetchMissing(v, pos, more[..n]);
      assert (pos + more)[..|pos| + n] == pos + more[..n];
    }
  }

  /** With another lower bound, some element is looked for where nothing was stored. */
  lemma ShiftedOut(a: Mapping, d: nat) returns (k: int)
    requires IsArray(a) && d < |a.dims| && a.lbound[d] != 1 && forall i | 0 <= i < d :: a.lbound[i] == 1
    ensures 0 <= k < |a.elems| && Fetch(Nest(a, []), MultiIndex(k, a.dims)) == Some(Nil)
  {
    var front := seq(d, i => 0);
    var at := if a.lbound[d] > 1 then 0 else a.dims[d] - 1;
    var rest := seq(|a.dims| - d - 1, i => 0);
    FetchNest(a, front);
    assert (front + [at])[..d] == front;
    FetchMissing(Nest(a, []), front + [at], rest);
    var pos := front + [at] + rest;
    MultiIndexOfRank(pos, a.dims);
    k := Rank(pos, a.dims);
  }

  /** An array without nulls comes back from its nested tables exactly if all its lower bounds are 1. */
  lemma RoundTripExactly(a: Mapping, et: Value -> Option<Value>)
    requires IsArray(a) && a.f.None? && a.nullValue.None? && et(Nil) == Some(Nil)
    requires forall k | 0 <= k < |a.elems| :: !a.elems[k].Nil? && et(a.elems[k]) == Some(a.elems[k])
    ensures (forall k | 0 <= k < |a.elems| :: Element(Nest(a, []), a.dims, et, k) == Some(a.elems[k]))
       <==> (forall d | 0 <= d < |a.dims| :: a.lbound[d] == 1)
  {
    var d := 0;
    while d < |a.dims| && a.lbound[d] == 1
      invariant 0 <= d <= |a.dims| && forall i | 0 <= i < d :: a.lbound[i] == 1
    {
      d := d + 1;
    }
    if d < |a.dims| {
      var k := ShiftedOut(a, d);
      assert Element(Nest(a, []), a.dims, et, k) == Some(Nil);
    } else {
      forall k | 0 <= k < |a.elems| ensures Element(Nest(a, []), a.dims, et, k) == Some(a.elems[k]) {
        FlattenNest(a, et, k);
      }
    }
  }

  /** Mapping an array to nested tables and making an array of those, for an element type that accepts
      its own values. */
  method ThereAndBack(a: Mapping, et: Value -> Option<Value>) returns (r: Result<seq<Value>, string>)
    requires IsArray(a) && a.f.None? && a.nullValue.None? && |a.elems| <= ArrayFlatten.MAX_ELEMENTS
    requires forall d | 0 <= d < |a.dims| :: a.lbound[d] == 1 && a.dims[d] <= INT_MAX
    requires forall k | 0 <= k < |a.elems| :: et(a.elems[k]) == Some(a.elems[k])
    ensures r == Ok(a.elems)
  {
    ProductPositive(a.dims);
    var t, _ := Map(a);
    forall k | 0 <= k < Product(a.dims) ensures Element(t, a.dims, et, k) == Some(a.elems[k]) {
      FlattenNest(a, et, k);
    }
    r := FromTable(t, a.dims, et);
    assert a.dims != [0];
    assert r.value == a.elems;
  }
}
