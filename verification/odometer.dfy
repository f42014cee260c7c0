/** Row-major positions of multi-dimensional arrays. Indexes count from 0 here. */
module Odometer {

  ghost predicate Positive(dims: seq<int>) { forall i | 0 <= i < |dims| :: dims[i] > 0 }

  function Product(dims: seq<int>): int {
    if dims == [] then 1 else dims[0] * Product(dims[1..])
  }

  lemma {:induction false} ProductPositive(dims: seq<int>)
    requires Positive(dims)
    ensures Product(dims) > 0
  {
    if dims != [] {
      ProductPositive(dims[1..]);
      MulPositive(dims[0], Product(dims[1..]));
    }
  }

  lemma MulPositive(a: int, b: int)
    requires a > 0 && b > 0
    ensures a * b > 0
  {}

  /** An index for each of the first |pos| dimensions. */
  ghost predicate InRange(pos: seq<int>, dims: seq<int>) {
    |pos| <= |dims| && forall i | 0 <= i < |pos| :: 0 <= pos[i] < dims[i]
  }

  /** The place of an index prefix among all of its length, in row-major order. */
  function Rank(pos: seq<int>, dims: seq<int>): int
    requires |pos| <= |dims|
  {
    if pos == [] then 0
    else Rank(pos[..|pos| - 1], dims) * dims[|pos| - 1] + pos[|pos| - 1]
  }

  /** Where the elements under an index prefix begin. */
  function Start(pos: seq<int>, dims: seq<int>): int
    requires |pos| <= |dims|
  {
    Rank(pos, dims) * Product(dims[|pos|..])
  }

  lemma StartWhole(dims: seq<int>, pos: seq<int>)
    requires |pos| == |dims|
    ensures Start([], dims) == 0 && Start(pos, dims) == Rank(pos, dims)
  {
    assert dims[|dims|..] == [];
  }

  /** The elements under the j-th extension of a prefix begin j blocks into the elements under it. */
  lemma StartAt(pos: seq<int>, j: int, dims: seq<int>)
    requires |pos| < |dims|
    ensures Start(pos + [j], dims) == Start(pos, dims) + j * Product(dims[|pos| + 1..])
    ensures Product(dims[|pos|..]) == dims[|pos|] * Product(dims[|pos| + 1..])
  {
    var r, d, p := Rank(pos, dims), dims[|pos|], Product(dims[|pos| + 1..]);
    assert (pos + [j])[..|pos|] == pos;
    assert dims[|pos|..][1..] == dims[|pos| + 1..];
    assert (r * d + j) * p == r * (d * p) + j * p by { Distribute(r, d, j, p); }
  }

  lemma Distribute(r: int, d: int, j: int, p: int)
    ensures (r * d + j) * p == r * (d * p) + j * p
  {}

  /** Past the last extension of a prefix comes what follows the prefix. */
  lemma StartPast(pos: seq<int>, dims: seq<int>)
    requires |pos| < |dims|
    ensures Start(pos + [dims[|pos|]], dims) == Start(pos, dims) + Product(dims[|pos|..])
  {
    StartAt(pos, dims[|pos|], dims);
  }

  /** The elements under a prefix lie within the array. */
  lemma {:induction false} StartBound(pos: seq<int>, dims: seq<int>)
    requires InRange(pos, dims) && Positive(dims)
    ensures 0 <= Start(pos, dims) && Start(pos, dims) + Product(dims[|pos|..]) <= Product(dims)
    ensures Product(dims[|pos|..]) > 0
    decreases |pos|
  {
    ProductPositive(dims[|pos|..]);
    if pos == [] {
      assert dims[0..] == dims;
    } else {
      var n := |pos| - 1;
      assert pos[..n] + [pos[n]] == pos;
      StartBound(pos[..n], dims);
      StartAt(pos[..n], pos[n], dims);
      Blocks(pos[n], dims[n], Product(dims[n + 1..]));
    }
  }

  lemma Blocks(j: int, d: int, p: int)
    requires 0 <= j < d && p > 0
    ensures 0 <= j * p && j * p + p <= d * p
  {
    assert (j + 1) * p <= d * p;
  }

  // ---- Steps of an odometer ----

  /** Where the elements after those under an index prefix begin. */
  function Following(pos: seq<int>, dims: seq<int>): int
    requires |pos| <= |dims|
  {
    Start(pos, dims) + Product(dims[|pos|..])
  }

  lemma FollowingWhole(pos: seq<int>, dims: seq<int>)
    requires |pos| == |dims|
    ensures Following(pos, dims) == Start(pos, dims) + 1
  {
    assert dims[|dims|..] == [];
  }

  /** The first whole index under a prefix. */
  function First(pos: seq<int>, dims: seq<int>): (first: seq<int>)
    requires |pos| <= |dims|
    ensures |first| == |dims| && pos <= first
    decreases |dims| - |pos|
  {
    if |pos| == |dims| then pos else First(pos + [0], dims)
  }

  /** The prefix that comes next: one further in its last dimension that is not at its end, cut off
      there; none after the last. */
  function Next(pos: seq<int>, dims: seq<int>): (next: seq<int>)
    requires |pos| <= |dims|
    ensures |next| <= |pos|
    decreases |pos|
  {
    var t := |pos| - 1;
    if pos == [] then []
    else if pos[t] + 1 < dims[t] then pos[..t] + [pos[t] + 1]
    else Next(pos[..t], dims)
  }

  lemma {:induction false} FirstStart(pos: seq<int>, dims: seq<int>)
    requires Positive(dims) && InRange(pos, dims)
    ensures InRange(First(pos, dims), dims) && Rank(First(pos, dims), dims) == Start(pos, dims)
    decreases |dims| - |pos|
  {
    if |pos| < |dims| {
      StartAt(pos, 0, dims);
      FirstStart(pos + [0], dims);
    } else {
      assert dims[|dims|..] == [];
    }
  }

  lemma FirstRank(dims: seq<int>)
    requires Positive(dims)
    ensures Rank(First([], dims), dims) == 0
  {
    FirstStart([], dims);
  }

  lemma {:induction false} NextStart(pos: seq<int>, dims: seq<int>)
    requires Positive(dims) && InRange(pos, dims) && pos != []
    ensures InRange(Next(pos, dims), dims)
    ensures Next(pos, dims) == [] ==> Following(pos, dims) == Product(dims)
    ensures Next(pos, dims) != [] ==> Start(Next(pos, dims), dims) == Following(pos, dims) < Product(dims)
    decreases |pos|
  {
    var most, last := pos[..|pos| - 1], pos[|pos| - 1];
    assert pos == most + [last];
    if last + 1 < dims[|most|] {
      NextUnder(most, last, dims);
    } else {
      EndUnder(most, last, dims);
      if most != [] { NextStart(most, dims); }
    }
  }

  /** The next whole index is the one with the next rank; after the last there is none. */
  lemma NextRank(pos: seq<int>, dims: seq<int>)
    requires Positive(dims) && InRange(pos, dims) && |pos| == |dims| && dims != []
    ensures InRange(Next(pos, dims), dims)
    ensures if Next(pos, dims) == [] then Rank(pos, dims) + 1 == Product(dims)
            else Rank(First(Next(pos, dims), dims), dims) == Rank(pos, dims) + 1 < Product(dims)
  {
    StartWhole(dims, pos);
    FollowingWhole(pos, dims);
    NextStart(pos, dims);
    FirstStart(Next(pos, dims), dims);
  }

  /** Within a dimension, what follows is under the next index. */
  lemma NextUnder(most: seq<int>, last: int, dims: seq<int>)
    requires Positive(dims) && |most| < |dims| && InRange(most + [last], dims) && last + 1 < dims[|most|]
    ensures InRange(most + [last + 1], dims)
    ensures Start(most + [last + 1], dims) == Following(most + [last], dims) < Product(dims)
  {
    forall i | 0 <= i < |most| ensures 0 <= most[i] < dims[i] { assert (most + [last])[i] == most[i]; }
    StartAt(most, last, dims);
    StartAt(most, last + 1, dims);
    OneMore(last, Product(dims[|most| + 1..]));
    StartBound(most + [last + 1], dims);
  }

  /** At the end of a dimension, what follows is what follows the prefix. */
  lemma EndUnder(most: seq<int>, last: int, dims: seq<int>)
    requires |most| < |dims| && last + 1 == dims[|most|]
    ensures Following(most, dims) == Following(most + [last], dims)
    ensures most == [] ==> Following(most, dims) == Product(dims)
  {
    StartAt(most, last, dims);
    StartPast(most, dims);
    StartAt(most, last + 1, dims);
    OneMore(last, Product(dims[|most| + 1..]));
    assert dims[0..] == dims;
  }

  lemma OneMore(j: int, p: int)
    ensures (j + 1) * p == j * p + p
  {}

  // ---- Row-major order ----

  /** The k-th index in row-major order. */
  ghost function MultiIndex(k: int, dims: seq<int>): (pos: seq<int>)
    requires Positive(dims) && 0 <= k < Product(dims)
    ensures |pos| == |dims| && InRange(pos, dims) && Rank(pos, dims) == k
  {
    EveryRank(k, dims);
    var pos :| |pos| == |dims| && InRange(pos, dims) && Rank(pos, dims) == k;
    pos
  }

  /** Every number below the product is the rank of an index. */
  lemma {:induction false} EveryRank(k: int, dims: seq<int>)
    requires Positive(dims) && 0 <= k < Product(dims)
    ensures exists pos :: |pos| == |dims| && InRange(pos, dims) && Rank(pos, dims) == k
    decreases |dims|
  {
    if dims == [] {
      assert InRange([], dims) && Rank([], dims) == k;
    } else {
      var n := |dims| - 1;
      ProductLast(dims);
      var q, m := Divide(k, dims[n], Product(dims[..n]));
      EveryRank(q, dims[..n]);
      var most :| |most| == n && InRange(most, dims[..n]) && Rank(most, dims[..n]) == q;
      RankPrefix(most, dims[..n], dims);
      assert (most + [m])[..n] == most;
      assert InRange(most + [m], dims) && Rank(most + [m], dims) == k;
    }
  }

  lemma Divide(k: int, d: int, p: int) returns (q: int, m: int)
    requires 0 <= k < p * d && d > 0
    ensures 0 <= q < p && 0 <= m < d && k == q * d + m
  {
    q, m := k / d, k % d;
    if q >= p { MulOrder(p, q, d); }
    if q < 0 { MulOrder(q, -1, d); }
  }

  lemma {:induction false} ProductLast(dims: seq<int>)
    requires dims != []
    ensures Product(dims) == Product(dims[..|dims| - 1]) * dims[|dims| - 1]
  {
    var n := |dims| - 1;
    if n > 0 {
      ProductLast(dims[1..]);
      assert dims[1..][..n - 1] == dims[..n][1..];
      var a, b, c := dims[0], Product(dims[..n][1..]), dims[n];
      assert Product(dims) == a * (b * c) && Product(dims[..n]) == a * b;
      Associate(a, b, c);
    }
  }

  lemma Associate(a: int, b: int, c: int)
    ensures a * (b * c) == (a * b) * c
  {}

  lemma MulOrder(a: int, b: int, d: int)
    requires a <= b && d > 0
    ensures a * d <= b * d
  {}

  /** Ranks only look at the dimensions of the prefix. */
  lemma {:induction false} RankPrefix(pos: seq<int>, few: seq<int>, dims: seq<int>)
    requires |pos| <= |few| <= |dims| && few == dims[..|few|]
    ensures Rank(pos, few) == Rank(pos, dims)
    decreases |pos|
  {
    if pos != [] { RankPrefix(pos[..|pos| - 1], few, dims); }
  }

  /** Different indexes have different ranks. */
  lemma {:induction false} RankInjective(pos: seq<int>, pos': seq<int>, dims: seq<int>)
    requires InRange(pos, dims) && InRange(pos', dims) && |pos| == |pos'| && Rank(pos, dims) == Rank(pos', dims)
    ensures pos == pos'
    decreases |pos|
  {
    if pos != [] {
      var n := |pos| - 1;
      SameQuotient(Rank(pos[..n], dims), pos[n], Rank(pos'[..n], dims), pos'[n], dims[n]);
      RankInjective(pos[..n], pos'[..n], dims);
      assert pos == pos[..n] + [pos[n]] && pos' == pos'[..n] + [pos'[n]];
    }
  }

  lemma SameQuotient(q: int, m: int, q': int, m': int, d: int)
    requires 0 <= m < d && 0 <= m' < d && q * d + m == q' * d + m'
    ensures q == q' && m == m'
  {
    if q' < q { MulOrder(q' + 1, q, d); OneMore(q', d); }
    if q < q' { MulOrder(q + 1, q', d); OneMore(q, d); }
  }

  /** Every index within range is the index of exactly the element at its rank. */
  lemma MultiIndexOfRank(pos: seq<int>, dims: seq<int>)
    requires Positive(dims) && InRange(pos, dims) && |pos| == |dims|
    ensures 0 <= Rank(pos, dims) < Product(dims) && MultiIndex(Rank(pos, dims), dims) == pos
  {
    StartWhole(dims, pos);
    StartBound(pos, dims);
    RankInjective(pos, MultiIndex(Rank(pos, dims), dims), dims);
  }
}
