/** Nested tables as multi-dimensional arrays: the flattening loop with its stack of open dimensions. */
module ArrayFlatten {
  import opened Options
  import opened Odometer

  const MAXDIM := 6
  const INT_MAX := 0x7fff_ffff
  /** MaxAllocSize / sizeof(Datum) */
  const MAX_ELEMENTS := 0x3fff_ffff / 8

  datatype Value = Nil | Table(entries: map<int, Value>) | Leaf(id: int)

  /** Indexing: a table gives its entry or nil; nil stands for a missing subtable and gives nil; any
      other value cannot be indexed. */
  function Lookup(v: Value, i: int): Option<Value> {
    match v
    case Nil => Some(Nil)
    case Table(m) => Some(if i in m then m[i] else Nil)
    case Leaf(_) => None
  }

  /** The value at an index prefix, counted from 0 where Lua counts from 1. */
  function Fetch(v: Value, pos: seq<int>): Option<Value>
    decreases |pos|
  {
    if pos == [] then Some(v)
    else match Fetch(v, pos[..|pos| - 1])
      case None => None
      case Some(w) => Lookup(w, pos[|pos| - 1] + 1)
  }

  /** The k-th element in row-major order, as converted by the element type. */
  ghost function Element(data: Value, dims: seq<int>, et: Value -> Option<Value>, k: int): Option<Value>
    requires Positive(dims) && 0 <= k < Product(dims)
  {
    match Fetch(data, MultiIndex(k, dims))
    case None => None
    case Some(v) => et(v)
  }

  /** What callers pass: a single dimension may be 0. */
  ghost predicate Dimensions(dims: seq<int>) {
    && 1 <= |dims| <= MAXDIM && (dims == [0] || Positive(dims))
    && forall i | 0 <= i < |dims| :: dims[i] <= INT_MAX
  }

  /** The size check multiplies the dimensions without ever exceeding the limit: it refuses exactly the
      arrays of more than one dimension with too many elements, and otherwise gives the exact product. */
  method CountElements(dims: seq<int>) returns (nelems: Option<int>)
    requires Dimensions(dims)
    ensures nelems == if |dims| > 1 && Product(dims) > MAX_ELEMENTS then None else Some(Product(dims))
    ensures nelems.Some? ==> nelems.value <= INT_MAX
  {
    var tnelems := dims[0];
    assert dims[..1] == [dims[0]];
    assert Product(dims[..1]) == dims[0] * Product(dims[..1][1..]);
    for i := 1 to |dims|
      invariant tnelems == Product(dims[..i]) <= INT_MAX && (i > 1 ==> tnelems <= MAX_ELEMENTS)
      invariant i < |dims| ==> tnelems > 0
    {
      assert dims[..i + 1][..i] == dims[..i];
      ProductLast(dims[..i + 1]);
      DivideLimit(tnelems, dims[i]);
      if dims[i] > MAX_ELEMENTS / tnelems {
        GrowsOn(dims, i + 1);
        return None;
      }
      tnelems := tnelems * dims[i];
      ProductPositive(dims[..i + 1]);
    }
    assert dims[..|dims|] == dims;
    nelems := if tnelems > INT_MAX then None else Some(tnelems);
  }

  lemma DivideLimit(t: int, d: int)
    requires t > 0 && d > 0
    ensures d > MAX_ELEMENTS / t <==> t * d > MAX_ELEMENTS
  {
    var q := MAX_ELEMENTS / t;
    assert q * t <= MAX_ELEMENTS < (q + 1) * t;
    if d > q { MulOrder(q + 1, d, t); } else { MulOrder(d, q, t); }
  }

  lemma {:induction false} GrowsOn(dims: seq<int>, n: nat)
    requires Positive(dims) && n <= |dims| && Product(dims[..n]) > MAX_ELEMENTS
    ensures Product(dims) > MAX_ELEMENTS
    decreases |dims| - n
  {
    if n == |dims| {
      assert dims[..n] == dims;
    } else {
      ProductLast(dims[..n + 1]);
      assert dims[..n + 1][..n] == dims[..n];
      MulOrder(1, dims[n], Product(dims[..n]));
      GrowsOn(dims, n + 1);
    }
  }

  // ---- The stack of open dimensions ----

  /** The stack holds the data and the subtables along the index prefix. */
  ghost predicate Open(data: Value, dims: seq<int>, stack: seq<Value>, pos: seq<int>)
    decreases |pos|
  {
    && |stack| == |pos| && InRange(pos, dims)
    && (pos != [] ==>
          var t := |pos| - 1; Fetch(data, pos[..t]) == Some(stack[t]) && Open(data, dims, stack[..t], pos[..t]))
  }

  /** The indexes kept by the loop count from 1. */
  ghost predicate FromOne(curidx: seq<int>, pos: seq<int>) {
    |pos| <= |curidx| && forall d | 0 <= d < |pos| :: curidx[d] == pos[d] + 1
  }

  lemma OpenLast(data: Value, dims: seq<int>, stack: seq<Value>, pos: seq<int>, curidx: seq<int>)
    requires Open(data, dims, stack, pos) && FromOne(curidx, pos) && pos != []
    ensures Fetch(data, pos) == Lookup(stack[|stack| - 1], curidx[|pos| - 1])
  {}

  /** A prefix at which the data cannot be indexed spoils the first element under it. */
  lemma {:induction false} Spoilt(data: Value, dims: seq<int>, et: Value -> Option<Value>, pos: seq<int>)
    requires Positive(dims) && InRange(pos, dims) && Fetch(data, pos).None?
    ensures exists k :: 0 <= k < Product(dims) && Element(data, dims, et, k).None?
    decreases |dims| - |pos|
  {
    if |pos| < |dims| {
      assert (pos + [0])[..|pos|] == pos;
      Spoilt(data, dims, et, pos + [0]);
    } else {
      MultiIndexOfRank(pos, dims);
      assert Element(data, dims, et, Rank(pos, dims)).None?;
    }
  }

  /** Opens the first subtable of each further dimension. */
  method Descend(data: Value, dims: seq<int>, stack: seq<Value>, curidx: array<int>, ghost pos: seq<int>)
      returns (ok: bool, stack': seq<Value>, ghost pos': seq<int>)
    requires Positive(dims) && |dims| <= curidx.Length && pos != []
    requires Open(data, dims, stack, pos) && FromOne(curidx[..], pos)
    modifies curidx
    ensures ok ==> Open(data, dims, stack', pos') && FromOne(curidx[..], pos') && |pos'| == |dims|
    ensures ok ==> pos' == First(pos, dims)
    ensures !ok ==> InRange(pos', dims) && Fetch(data, pos').None?
  {
    stack', pos' := stack, pos;
    var topidx := |stack| - 1;
    while topidx < |dims| - 1
      invariant topidx == |pos'| - 1 && pos' != [] && Open(data, dims, stack', pos') && FromOne(curidx[..], pos')
      invariant First(pos', dims) == First(pos, dims)
    {
      OpenLast(data, dims, stack', pos', curidx[..]);
      var v := Lookup(stack'[topidx], curidx[topidx]);
      if v.None? { return false, stack', pos'; }
      Opened(data, dims, stack', pos', v.value);
      stack' := stack' + [v.value];
      topidx := topidx + 1;
      curidx[topidx] := 1;
      pos' := pos' + [0];
    }
    ok := true;
  }

  lemma Opened(data: Value, dims: seq<int>, stack: seq<Value>, pos: seq<int>, v: Value)
    requires Positive(dims) && Open(data, dims, stack, pos) && |pos| < |dims| && Fetch(data, pos) == Some(v)
    ensures Open(data, dims, stack + [v], pos + [0])
  {
    assert (pos + [0])[..|pos|] == pos && (stack + [v])[..|pos|] == stack;
  }

  /** Moves to the next index, closing the dimensions that are complete; nothing stays open exactly
      when the element was the last. */
  method Advance(data: Value, dims: seq<int>, stack: seq<Value>, curidx: array<int>, ghost pos: seq<int>)
      returns (stack': seq<Value>, ghost pos': seq<int>)
    requires Positive(dims) && |pos| == |dims| <= curidx.Length && dims != []
    requires Open(data, dims, stack, pos) && FromOne(curidx[..], pos)
    modifies curidx
    ensures Open(data, dims, stack', pos') && FromOne(curidx[..], pos')
    ensures pos' == Next(pos, dims)
  {
    stack', pos' := stack, pos;
    var topidx := |stack| - 1;
    while topidx >= 0
      invariant -1 <= topidx == |pos'| - 1 && Open(data, dims, stack', pos') && FromOne(curidx[..], pos')
      invariant Next(pos', dims) == Next(pos, dims)
    {
      var within := Increment(curidx, topidx, dims, pos');
      if within {
        Moved(data, dims, stack', pos');
        pos' := Next(pos', dims);
        return;
      }
      topidx := topidx - 1;
      Closed(data, dims, stack', pos');
      stack', pos' := stack'[..|stack'| - 1], pos'[..|pos'| - 1];
    }
  }

  /** One step within a dimension, if it is not at its end. */
  method Increment(curidx: array<int>, i: int, dims: seq<int>, ghost pos: seq<int>) returns (within: bool)
    requires InRange(pos, dims) && 0 <= i == |pos| - 1 && FromOne(curidx[..], pos)
    modifies curidx
    ensures within <==> pos[i] + 1 < dims[i]
    ensures FromOne(curidx[..], pos[..i] + [pos[i] + 1]) && FromOne(curidx[..], pos[..i])
  {
    curidx[i] := curidx[i] + 1;
    within := curidx[i] <= dims[i];
  }

  lemma Moved(data: Value, dims: seq<int>, stack: seq<Value>, pos: seq<int>)
    requires Open(data, dims, stack, pos) && pos != [] && pos[|pos| - 1] + 1 < dims[|pos| - 1]
    ensures var t := |pos| - 1; Next(pos, dims) == pos[..t] + [pos[t] + 1] && Open(data, dims, stack, Next(pos, dims))
  {
    var t := |pos| - 1;
    assert (pos[..t] + [pos[t] + 1])[..t] == pos[..t];
  }

  lemma Closed(data: Value, dims: seq<int>, stack: seq<Value>, pos: seq<int>)
    requires Open(data, dims, stack, pos) && pos != [] && pos[|pos| - 1] + 1 >= dims[|pos| - 1]
    ensures var t := |pos| - 1; Next(pos, dims) == Next(pos[..t], dims) && Open(data, dims, stack[..t], pos[..t])
  {}

  /** The Lua keys of an index: they count from 1. */
  function KeysOf(pos: seq<int>): (keys: seq<int>)
    ensures |keys| == |pos| && forall d | 0 <= d < |pos| :: keys[d] == pos[d] + 1
  {
    seq(|pos|, d requires 0 <= d < |pos| => pos[d] + 1)
  }

  /** The value found by going from table to table along an index is what the element was converted from. */
  ghost predicate ConvertedAt(data: Value, dims: seq<int>, et: Value -> Option<Value>, ct: seq<Value>, pos: seq<int>)
    requires |pos| == |dims|
  {
    && 0 <= Rank(pos, dims) < |ct|
    && exists v :: LeadsTo(data, KeysOf(pos), v) && et(v) == Some(ct[Rank(pos, dims)])
  }

  /** Indexing with one key after the other, nil standing for whatever is missing. */
  ghost predicate LeadsTo(data: Value, keys: seq<int>, v: Value)
    decreases |keys|
  {
    if keys == [] then v == data
    else match data
      case Nil => v == Nil
      case Leaf(_) => false
      case Table(m) => LeadsTo(if keys[0] in m then m[keys[0]] else Nil, keys[1..], v)
  }

  lemma {:induction false} FetchLeads(data: Value, pos: seq<int>, v: Value)
    requires Fetch(data, pos) == Some(v)
    ensures LeadsTo(data, KeysOf(pos), v)
    decreases |pos|
  {
    if pos != [] {
      FetchFirst(data, pos);
      FetchLeads(Lookup(data, pos[0] + 1).value, pos[1..], v);
      assert KeysOf(pos)[1..] == KeysOf(pos[1..]);
      if data.Nil? { NilLeads(KeysOf(pos[1..]), v); }
    }
  }

  lemma NilLeads(keys: seq<int>, v: Value)
    requires LeadsTo(Nil, keys, v)
    ensures v == Nil
  {}

  /** Fetching goes along the index in order. */
  lemma {:induction false} FetchFirst(data: Value, pos: seq<int>)
    requires pos != []
    ensures Fetch(data, pos) == match Lookup(data, pos[0] + 1)
                                case None => None
                                case Some(w) => Fetch(w, pos[1..])
    decreases |pos|
  {
    var n := |pos| - 1;
    if n == 0 {
      assert pos[..0] == [] && pos[1..] == [];
    } else {
      FetchFirst(data, pos[..n]);
      assert pos[..n][1..] == pos[1..][..n - 1];
    }
  }

  lemma CollectedConverted(data: Value, dims: seq<int>, et: Value -> Option<Value>, ct: seq<Value>, pos: seq<int>)
    requires Positive(dims) && |ct| == Product(dims) && Collected(data, dims, et, ct)
    requires InRange(pos, dims) && |pos| == |dims|
    ensures ConvertedAt(data, dims, et, ct, pos)
  {
    MultiIndexOfRank(pos, dims);
    var k := Rank(pos, dims);
    assert Some(ct[k]) == Element(data, dims, et, k);
    FetchLeads(data, pos, Fetch(data, pos).value);
  }

  /** The array made from a table: at place k the element at the k-th index in row-major order. It fails
      exactly when there are too many elements, or a value that should be a table cannot be indexed, or
      the element type refuses a value. The loop needs no check that a dimension is open. */
  method FromTable(data: Value, dims: seq<int>, et: Value -> Option<Value>) returns (r: Result<seq<Value>, string>)
    requires Dimensions(dims)
    ensures dims == [0] ==> r == Ok([])
    ensures |dims| > 1 && Product(dims) > MAX_ELEMENTS ==> r.Err?
    ensures dims != [0] && (|dims| == 1 || Product(dims) <= MAX_ELEMENTS) ==>
              (r.Ok? <==> forall k | 0 <= k < Product(dims) :: Element(data, dims, et, k).Some?)
    ensures dims != [0] && r.Ok? ==> |r.value| == Product(dims) && Collected(data, dims, et, r.value)
    // The element with a given index is the conversion of the value found there.
    ensures dims != [0] && r.Ok? ==>
              forall pos | InRange(pos, dims) && |pos| == |dims| :: ConvertedAt(data, dims, et, r.value, pos)
  {
    var counted := CountElements(dims);
    if counted.None? { return Err("number of elements in array exceeds limit"); }
    var nelems := counted.value;
    assert dims == [0] ==> Product(dims) == 0 * Product(dims[1..]);
    if dims != [0] { ProductPositive(dims); }
    if nelems == 0 { return Ok([]); }
    r := Flatten(data, dims, nelems, et);
    if r.Ok? {
      forall pos | InRange(pos, dims) && |pos| == |dims| ensures ConvertedAt(data, dims, et, r.value, pos) {
        CollectedConverted(data, dims, et, r.value, pos);
      }
    }
  }

  /** The element at hand. */
  method Current(data: Value, dims: seq<int>, et: Value -> Option<Value>, stack: seq<Value>, curidx: array<int>,
                 ghost pos: seq<int>) returns (e: Option<Value>)
    requires Positive(dims) && dims != [] && |pos| == |dims| <= curidx.Length
    requires Open(data, dims, stack, pos) && FromOne(curidx[..], pos)
    ensures 0 <= Rank(pos, dims) < Product(dims) && e == Element(data, dims, et, Rank(pos, dims))
  {
    OpenLast(data, dims, stack, pos, curidx[..]);
    MultiIndexOfRank(pos, dims);
    var topidx := |stack| - 1;
    var v := Lookup(stack[topidx], curidx[topidx]);
    e := if v.None? then None else et(v.value);
  }

  /** With i - 1 elements done, the dimensions are open on the next one; with all done, none is open. */
  ghost predicate Reached(data: Value, dims: seq<int>, stack: seq<Value>, pos: seq<int>, curidx: seq<int>, i: int) {
    && Open(data, dims, stack, pos) && FromOne(curidx, pos)
    && if stack == [] then i == Product(dims) + 1 else 1 <= i <= Product(dims) && Rank(First(pos, dims), dims) == i - 1
  }

  /** The i-th element, and on to the next. */
  method Turn(data: Value, dims: seq<int>, et: Value -> Option<Value>, stack: seq<Value>, curidx: array<int>,
              i: int, ghost pos: seq<int>) returns (e: Option<Value>, stack': seq<Value>, ghost pos': seq<int>)
    requires Positive(dims) && 1 <= |dims| <= curidx.Length && stack != []
             && Reached(data, dims, stack, pos, curidx[..], i)
    modifies curidx
    ensures e.Some? ==> e == Element(data, dims, et, i - 1) && Reached(data, dims, stack', pos', curidx[..], i + 1)
    ensures e.None? ==> exists k :: 0 <= k < Product(dims) && Element(data, dims, et, k).None?
  {
    var ok;
    ok, stack', pos' := Descend(data, dims, stack, curidx, pos);
    if !ok {
      Spoilt(data, dims, et, pos');
      return None, stack', pos';
    }
    e := Current(data, dims, et, stack', curidx, pos');
    if e.Some? {
      NextRank(pos', dims);
      stack', pos' := Advance(data, dims, stack', curidx, pos');
    }
  }

  /** The elements so far. */
  ghost predicate Collected(data: Value, dims: seq<int>, et: Value -> Option<Value>, ct: seq<Value>)
    requires Positive(dims) && |ct| <= Product(dims)
  {
    forall k | 0 <= k < |ct| :: Some(ct[k]) == Element(data, dims, et, k)
  }

  lemma CollectOne(data: Value, dims: seq<int>, et: Value -> Option<Value>, ct: seq<Value>, e: Value)
    requires Positive(dims) && |ct| < Product(dims) && Collected(data, dims, et, ct)
    requires Element(data, dims, et, |ct|) == Some(e)
    ensures Collected(data, dims, et, ct + [e])
  {}

  method Flatten(data: Value, dims: seq<int>, nelems: int, et: Value -> Option<Value>)
      returns (r: Result<seq<Value>, string>)
    requires 1 <= |dims| <= MAXDIM && Positive(dims) && nelems == Product(dims) > 0
    ensures r.Err? ==> exists k :: 0 <= k < nelems && Element(data, dims, et, k).None?
    ensures r.Ok? ==> |r.value| == nelems && Collected(data, dims, et, r.value)
  {
    var ct: seq<Value> := [];
    var curidx := new int[MAXDIM];
    var stack := [data];
    curidx[0] := 1;
    ghost var pos := [0];
    FirstOpen(data, dims, curidx[..]);
    var i := 1;
    while i <= nelems && |stack| - 1 >= 0
      invariant Reached(data, dims, stack, pos, curidx[..], i) && (i <= nelems ==> stack != [])
      invariant |ct| == i - 1 <= nelems && Collected(data, dims, et, ct)
    {
      var e;
      e, stack, pos := Turn(data, dims, et, stack, curidx, i, pos);
      if e.None? { return Err("attempt to index a value that is not a table, or value not accepted"); }
      CollectOne(data, dims, et, ct, e.value);
      ct := ct + [e.value];
      i := i + 1;
    }
    r := Ok(ct);
  }

  lemma FirstOpen(data: Value, dims: seq<int>, curidx: seq<int>)
    requires Positive(dims) && dims != [] && curidx != [] && curidx[0] == 1 && Product(dims) > 0
    ensures Reached(data, dims, [data], [0], curidx, 1)
  {
    FirstStart([], dims);
    StartWhole(dims, First([], dims));
    assert [] + [0] == [0] && [0][..0] == [];
  }
}
