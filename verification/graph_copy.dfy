/** Copying a graph of tables that may be shared or cyclic, with a memo of the tables already met. */
module GraphCopy {
  import opened Options

  /** A Lua value: a table, or anything else. */
  datatype Value = Plain(id: int) | Ref(t: Table)

  class Table {
    var entries: map<Value, Value>
    constructor ()
      ensures entries == map[]
    {
      entries := map[];
    }
  }

  /** Every table that is a value in a table of the set is in the set. */
  ghost predicate Closed(zone: set<Table>)
    reads zone
  {
    forall t, k | t in zone && k in t.entries && t.entries[k].Ref? :: t.entries[k].t in zone
  }

  /** The value at the end of a path of keys. */
  ghost function Follow(v: Value, path: seq<Value>, zone: set<Table>): Option<Value>
    reads zone
    decreases |path|
  {
    if path == [] then Some(v)
    else
      var n := |path| - 1;
      match Follow(v, path[..n], zone)
      case Some(Ref(t)) => if t in zone && path[n] in t.entries then Some(t.entries[path[n]]) else None
      case _ => None
  }

  /** The tables that a value reaches through at most n values. */
  ghost function ReachedIn(v: Value, n: nat, zone: set<Table>): (s: set<Table>)
    ensures s <= zone
    reads zone
  {
    if n == 0 then if v.Ref? && v.t in zone then {v.t} else {}
    else
      var s := ReachedIn(v, n - 1, zone);
      s + set t, k | t in s && k in t.entries && t.entries[k].Ref? && t.entries[k].t in zone :: t.entries[k].t
  }

  /** The tables that a value reaches through values. */
  ghost function Reachable(v: Value, zone: set<Table>): set<Table>
    reads zone
  {
    set t | t in zone && exists n: nat :: t in ReachedIn(v, n, zone)
  }

  lemma ReachableClosed(v: Value, zone: set<Table>)
    requires Closed(zone)
    ensures Closed(Reachable(v, zone))
    ensures v.Ref? && v.t in zone ==> v.t in Reachable(v, zone)
  {
    forall t, k | t in Reachable(v, zone) && k in t.entries && t.entries[k].Ref?
      ensures t.entries[k].t in Reachable(v, zone)
    {
      var n: nat :| t in ReachedIn(v, n, zone);
      assert t.entries[k].t in ReachedIn(v, n + 1, zone);
    }
    assert v.Ref? && v.t in zone ==> v.t in ReachedIn(v, 0, zone);
  }

  /** They are the ones that paths lead to. */
  lemma {:induction false} ReachedByPath(v: Value, n: nat, t: Table, zone: set<Table>) returns (path: seq<Value>)
    requires t in ReachedIn(v, n, zone)
    ensures Follow(v, path, zone) == Some(Ref(t))
  {
    if n == 0 {
      path := [];
    } else if t in ReachedIn(v, n - 1, zone) {
      path := ReachedByPath(v, n - 1, t, zone);
    } else {
      var s, k :| s in ReachedIn(v, n - 1, zone) && k in s.entries && s.entries[k] == Ref(t);
      path := ReachedByPath(v, n - 1, s, zone);
      assert (path + [k])[..|path|] == path;
      path := path + [k];
    }
  }

  lemma {:induction false} PathReaches(v: Value, path: seq<Value>, zone: set<Table>)
    requires Closed(zone) && (v.Ref? ==> v.t in zone)
    ensures var w := Follow(v, path, zone); w.Some? && w.value.Ref? ==> w.value.t in Reachable(v, zone)
    decreases |path|
  {
    ReachableClosed(v, zone);
    if path != [] { PathReaches(v, path[..|path| - 1], zone); }
  }

  // ---- Correspondence ----

  ghost predicate OneToOne(memo: map<Table, Table>) {
    forall s, t | s in memo && t in memo && memo[s] == memo[t] :: s == t
  }

  ghost predicate Extends(memo: map<Table, Table>, memo': map<Table, Table>) {
    forall t | t in memo :: t in memo' && memo'[t] == memo[t]
  }

  /** What a value becomes: tables their copies, anything else itself. */
  function Image(v: Value, memo: map<Table, Table>): Option<Value> {
    match v
    case Plain(_) => Some(v)
    case Ref(t) => if t in memo then Some(Ref(memo[t])) else None
  }

  /** The first keys of a table's copy, each with the image of its value. */
  ghost predicate CopiedSoFar(t: Table, u: Table, keys: set<Value>, memo: map<Table, Table>)
    reads t, u
  {
    && keys <= t.entries.Keys && u.entries.Keys == keys
    && forall k | k in keys :: Image(t.entries[k], memo) == Some(u.entries[k])
  }

  ghost predicate Complete(t: Table, memo: map<Table, Table>)
    requires t in memo
    reads t, memo[t]
  {
    CopiedSoFar(t, memo[t], t.entries.Keys, memo)
  }

  /** Following any path through the copy leads to the image of where it leads in the original. */
  lemma {:induction false} SamePaths(v: Value, r: Value, path: seq<Value>, memo: map<Table, Table>, zone: set<Table>)
    requires memo.Keys <= zone && Image(v, memo) == Some(r)
    requires forall t | t in memo :: Complete(t, memo)
    ensures match Follow(v, path, zone)
            case None => Follow(r, path, memo.Values).None?
            case Some(w) => Image(w, memo).Some? && Follow(r, path, memo.Values) == Image(w, memo)
    decreases |path|
  {
    if path != [] {
      var n := |path| - 1;
      SamePaths(v, r, path[..n], memo, zone);
      var at := Follow(v, path[..n], zone);
      if at.Some? && at.value.Ref? {
        var t := at.value.t;
        assert memo[t] in memo.Values && Complete(t, memo);
      }
    }
  }

  /** A memo in which every copy is complete holds everything its tables reach. */
  lemma {:induction false} HoldsReached(v: Value, n: nat, memo: map<Table, Table>, zone: set<Table>)
    requires Image(v, memo).Some? && forall t | t in memo :: Complete(t, memo)
    ensures ReachedIn(v, n, zone) <= memo.Keys
  {
    if n > 0 {
      HoldsReached(v, n - 1, memo, zone);
      forall t, k | t in ReachedIn(v, n - 1, zone) && k in t.entries && t.entries[k].Ref?
        ensures t.entries[k].t in memo
      {
        assert Complete(t, memo);
      }
    }
  }

  lemma HoldsReachable(v: Value, memo: map<Table, Table>, zone: set<Table>)
    requires Image(v, memo).Some? && forall t | t in memo :: Complete(t, memo)
    ensures Reachable(v, zone) <= memo.Keys
  {
    forall t | t in Reachable(v, zone) ensures t in memo {
      var n: nat :| t in ReachedIn(v, n, zone);
      HoldsReached(v, n, memo, zone);
    }
  }

  lemma SamePathsAll(v: Value, r: Value, memo: map<Table, Table>, zone: set<Table>)
    requires memo.Keys <= zone && Image(v, memo) == Some(r) && forall t | t in memo :: Complete(t, memo)
    ensures forall path :: Follow(r, path, memo.Values) ==
              if Follow(v, path, zone).Some? then Image(Follow(v, path, zone).value, memo) else None
    ensures forall path, t | Follow(v, path, zone) == Some(Ref(t)) :: t in memo
  {
    forall path
      ensures Follow(r, path, memo.Values) ==
              if Follow(v, path, zone).Some? then Image(Follow(v, path, zone).value, memo) else None
      ensures Follow(v, path, zone).Some? ==> Image(Follow(v, path, zone).value, memo).Some?
    {
      SamePaths(v, r, path, memo, zone);
    }
  }

  // ---- The copy ----

  lemma TakeOne(all: set<Value>, rest: set<Value>, key: Value)
    requires key in rest && rest <= all
    ensures (all - rest) + {key} == all - (rest - {key})
  {}

  class Copier {
    var memo: map<Table, Table>

    constructor ()
      ensures memo == map[]
    {
      memo := map[];
    }

    /** Copies have their own tables, different for different originals, and none is an original. */
    ghost predicate Valid(zone: set<Table>)
      reads this
    {
      memo.Keys <= zone && OneToOne(memo) && memo.Values !! zone
    }

    /** The copies of all tables that are in the memo now, but were not at first, are complete, except
        for one that is still being filled. */
    ghost predicate Added(was: set<Table>, filling: set<Table>)
      reads this, memo.Keys, memo.Values
    {
      forall t | t in memo && t !in was && t !in filling :: Complete(t, memo)
    }

    /** The copy of a table: the one in the memo, or a new one, entered in the memo before its entries
        are copied. Keys stay what they are, even if they are tables. */
    method CopyInner(t: Table, ghost zone: set<Table>) returns (u: Table)
      requires Closed(zone) && t in zone && Valid(zone)
      modifies this
      ensures Valid(zone) && Extends(old(memo), memo)
      ensures t in memo && u == memo[t]
      ensures Added(old(memo.Keys), {}) && forall x | x in memo && x !in old(memo) :: fresh(memo[x])
      decreases zone - memo.Keys, 0
    {
      if t in memo { return memo[t]; }
      u := new Table();
      memo := memo[t := u];
      assert t in zone - old(memo.Keys) && t !in zone - memo.Keys;
      FillCopy(t, u, zone, old(memo.Keys));
    }

    /** The loop over the entries. */
    method FillCopy(t: Table, u: Table, ghost zone: set<Table>, ghost was: set<Table>)
      requires Closed(zone) && t in zone && Valid(zone) && t in memo && memo[t] == u
      requires t !in was && Added(was, {t}) && u.entries == map[]
      modifies this, u
      ensures Valid(zone) && Extends(old(memo), memo) && Added(was, {})
      ensures forall x | x in memo && x !in old(memo) :: fresh(memo[x])
      decreases zone - memo.Keys, 3
    {
      assert u in memo.Values && u !in zone;
      var rest := t.entries.Keys;
      ghost var all := rest;
      assert all - rest == {};
      while rest != {}
        invariant rest <= all == t.entries.Keys
        invariant Valid(zone) && Extends(old(memo), memo) && CopiedSoFar(t, u, all - rest, memo) && Added(was, {t})
        invariant forall x | x in memo && x !in old(memo) :: fresh(memo[x])
        decreases |rest|
      {
        var key :| key in rest;
        CopyEntry(t, u, key, zone, was, all - rest);
        TakeOne(all, rest, key);
        rest := rest - {key};
      }
      assert all - rest == all;
    }

    /** Copies one more entry of a table that is being filled. */
    method CopyEntry(t: Table, u: Table, key: Value, ghost zone: set<Table>, ghost was: set<Table>,
            ghost keys: set<Value>)
      requires Closed(zone) && t in zone && Valid(zone) && t in memo && memo[t] == u && key in t.entries
      requires t !in was && Added(was, {t}) && CopiedSoFar(t, u, keys, memo)
      modifies this, u
      ensures Valid(zone) && Extends(old(memo), memo)
      ensures Added(was, {t}) && CopiedSoFar(t, u, keys + {key}, memo)
      ensures forall x | x in memo && x !in old(memo) :: fresh(memo[x])
      decreases zone - memo.Keys, 2
    {
      assert u in memo.Values && u !in zone;
      var val := t.entries[key];
      if val.Ref? {
        var copy := CopyTable(val.t, zone, was, {t});
        val := Ref(copy);
      }
      assert CopiedSoFar(t, u, keys, memo);
      u.entries := u.entries[key := val];
    }

    /** As CopyInner: copies that were complete before stay so. */
    method CopyTable(t: Table, ghost zone: set<Table>, ghost was: set<Table>, ghost filling: set<Table>)
        returns (u: Table)
      requires Closed(zone) && t in zone && Valid(zone) && Added(was, filling)
      modifies this
      ensures Valid(zone) && Extends(old(memo), memo) && t in memo && u == memo[t]
      ensures Added(was, filling) && forall x | x in memo && x !in old(memo) :: fresh(memo[x])
      decreases zone - memo.Keys, 1
    {
      ghost var memo0 := memo;
      u := CopyInner(t, zone);
      forall x | x in memo && x !in was && x !in filling ensures Complete(x, memo) {
        assert x in memo0 ==> Complete(x, memo0) && memo0[x] == memo[x];
      }
    }
  }

  /** The deep copy of a value: exactly the tables it reaches have copies, each its own new table, and
      every path leads to the same place in the copy as in the original. */
  method Copy(v: Value, ghost zone: set<Table>) returns (r: Value, ghost memo: map<Table, Table>)
    requires Closed(zone) && (v.Ref? ==> v.t in zone)
    ensures memo.Keys == Reachable(v, zone) && OneToOne(memo) && Image(v, memo) == Some(r)
    ensures forall t | t in memo :: fresh(memo[t]) && Complete(t, memo)
    ensures forall path :: Follow(r, path, memo.Values) ==
              if Follow(v, path, zone).Some? then Image(Follow(v, path, zone).value, memo) else None
    // What is not a table stays what it is, and a table becomes another table.
    ensures forall path, i | Follow(v, path, zone) == Some(Plain(i)) :: Follow(r, path, memo.Values) == Some(Plain(i))
    ensures forall path, t | Follow(v, path, zone) == Some(Ref(t)) ::
              t in memo && Follow(r, path, memo.Values) == Some(Ref(memo[t]))
  {
    r, memo := v, map[];
    ghost var reach := Reachable(v, zone);
    ReachableClosed(v, zone);
    if v.Ref? {
      var copier := new Copier();
      assert Reachable(v, zone) == reach;
      var u := copier.CopyInner(v.t, reach);
      r, memo := Ref(u), copier.memo;
    }
    HoldsReachable(v, memo, zone);
    SamePathsAll(v, r, memo, zone);
  }
}
