/** What a row trigger returns to the executor, after any history of reads, field and element writes
through any handle, and wholesale replacements of trigger.row. */
module TriggerResult {
  import opened Options
  import opened PlainRecords
  import opened LazyRows
  import opened RowStore
  import opened TriggerRule

  // ---- The trigger object ----

  /** The cached entry for the row: absent, the stand-in for nil, or a datum. */
  datatype Entry = NoEntry | FalseEntry | Cached(id: nat)

  class Trigger {
    const td: Fired
    const store: Store
    var modified: bool
    var cache: Entry

    constructor (td: Fired)
      requires td.RowTuple().Row?
      ensures this.td == td && fresh(store) && store.heap == [] && store.datums == []
      ensures Valid([]) && cache == NoEntry
    {
      this.td := td;
      store := new Store();
      modified, cache := false, NoEntry;
    }

    /** Until trigger.row is replaced, a cached row that is not exploded still holds the original tuple. */
    ghost predicate Valid(regs: seq<nat>)
      reads this, store
    {
      && store.Valid() && Holds(store.W(), regs) && td.RowTuple().Row?
      && (cache.Cached? ==> cache.id < |store.datums| && store.datums[cache.id].IsRow())
      && (!modified ==> !cache.FalseEntry?)
      && (!modified && cache.Cached? && !store.datums[cache.id].modified ==>
            store.datums[cache.id].value.At? && store.datums[cache.id].value.v == td.RowTuple())
    }

    /** The plain state this object and the handles stand for. */
    ghost function Plainly(regs: seq<nat>): Plain
      requires Valid(regs)
      reads this, store
    {
      Plain(MachineOf(store.W(), regs),
            match cache case NoEntry => Untouched case FalseEntry => SetToNil case Cached(x) => Rec(store.rep[x]))
    }

    method Perform(a: Action, regs: seq<nat>) returns (regs': seq<nat>, o: Obs)
      requires Valid(regs)
      modifies this, store
      ensures Valid(regs')
      ensures PlainStep(td, old(Plainly(regs)), a) == (Plainly(regs'), o)
    {
      match a {
        case Do(op) => regs', o := Other(op, regs);
        case ReadRow => regs', o := Index(regs);
        case SetRow(src) => o := NewIndex(src, regs); regs' := regs;
      }
    }

    method Other(op: Op, regs: seq<nat>) returns (regs': seq<nat>, o: Obs)
      requires Valid(regs)
      modifies store
      ensures Valid(regs')
      ensures PlainStep(td, old(Plainly(regs)), Do(op)) == (Plainly(regs'), o)
    {
      ghost var w := store.W();
      regs', o := store.Exec(op, regs);
      if cache.Cached? {
        assert Shape(w, cache.id) && Shape(store.W(), cache.id) && store.W().rep[cache.id] == w.rep[cache.id];
      }
    }

    /** trigger.row */
    method Index(regs: seq<nat>) returns (regs': seq<nat>, o: Obs)
      requires Valid(regs)
      modifies this, store
      ensures Valid(regs')
      ensures PlainStep(td, old(Plainly(regs)), ReadRow) == (Plainly(regs'), o)
    {
      ghost var w, p := store.W(), Plainly(regs);
      regs', o := regs, IsNil;
      if cache.FalseEntry? || !td.forRow { return; }
      if cache.NoEntry? {
        var x := store.NewContainer(if td.event.Update? then td.newtuple else td.trigtuple);
        MachineKept(w, store.W(), regs);
        cache := Cached(x);
        regs', o := regs + [x], Handle;
        assert MachineOf(store.W(), regs') == AddRoot(p.m, td.RowTuple());
      } else {
        regs', o := regs + [cache.id], Handle;
        assert MachineOf(w, regs').regs == p.m.regs + [store.rep[cache.id]];
      }
    }

    /** trigger.row = src */
    method NewIndex(src: Source, regs: seq<nat>) returns (o: Obs)
      requires Valid(regs)
      modifies this, store
      ensures Valid(regs)
      ensures PlainStep(td, old(Plainly(regs)), SetRow(src)) == (Plainly(regs), o)
    {
      if !td.forRow { return Error; }
      if src.SrcNil? {
        cache, modified := FalseEntry, true;
        return Done;
      }
      ghost var w := store.W();
      var v := RowValue(src, regs);
      ghost var w1 := store.W();
      MachineKept(w, w1, regs);
      if v.None? { return Error; }
      var x := store.NewContainer(v.value);
      MachineKept(w1, store.W(), regs);
      cache, modified := Cached(x), true;
      o := Done;
    }

    /** What the row type's constructor makes of `src`. */
    method RowValue(src: Source, regs: seq<nat>) returns (v: Option<Val>)
      requires Valid(regs)
      modifies store
      ensures Valid(regs) && SameHandles(old(store.W()), store.W()) && store.heap == old(store.heap)
      ensures v == RowOf(old(MachineOf(store.W(), regs)), src)
      ensures v.Some? ==> v.value.Row?
      ensures Plainly(regs) == old(Plainly(regs))
    {
      ghost var w := store.W();
      v := None;
      match src {
        case SrcNil =>
        case SrcPlain(val) => if val.Row? { v := Some(val); }
        case SrcHandle(r) =>
          if r < |regs| {
            InHeap(w, {}, regs[r]);
            assert Shape(w, regs[r]) && Linked(w, regs[r]) && Faithful(w, regs[r], {});
            if store.datums[regs[r]].IsRow() {
              var val := store.Implode(regs[r]);
              v := Some(val);
              MachineKept(w, store.W(), regs);
              if cache.Cached? {
                assert Shape(w, cache.id) && Shape(store.W(), cache.id) && store.W().rep[cache.id] == w.rep[cache.id];
              }
            }
          }
      }
    }

    /** The tuple handed back, with its short cuts: the original tuple when nothing was returned or
        assigned and the row, if it was ever looked at, is unexploded; or when that very row is returned. */
    method ReturnResult(ret: Return, regs: seq<nat>) returns (r: Outcome)
      requires Valid(regs)
      modifies store
      ensures r == Rule(td, old(Plainly(regs)), ret)
      ensures !td.forRow || td.after || (ret.nret == 1 && ret.value.SrcNil?) ==> r == NoTuple
    {
      ghost var w := store.W();
      if !td.forRow || td.after { return NoTuple; }
      if ret.nret < 0 || ret.nret > 1 { return Failure; }
      if ret.nret == 1 && ret.value.SrcNil? { return NoTuple; }
      var retval := if td.event.Update? then td.newtuple else td.trigtuple;
      if cache.Cached? {
        assert Shape(w, cache.id) && Linked(w, cache.id) && Faithful(w, cache.id, {});
        InHeap(w, {}, cache.id);
        if !store.datums[cache.id].modified { ViewIsValue(w, cache.id); }
      }
      if ret.nret == 0 {
        match cache {
          case NoEntry => return Tuple(retval);
          case FalseEntry => return NoTuple;
          case Cached(d) =>
            if !store.datums[d].modified {
              if !modified { return Tuple(retval); }
              var v := store.Fetch(d, {});
              return Tuple(v);
            }
            var v := store.Implode(d);
            return Tuple(v);
        }
      } else if !modified && cache.Cached? && ret.value.SrcHandle? && ret.value.reg < |regs|
        && regs[ret.value.reg] == cache.id {
        if !store.datums[cache.id].modified { return Tuple(retval); }
      }
      var v := RowValue(ret.value, regs);
      r := if v.Some? then Tuple(v.value) else Failure;
    }
  }

  /** The trigger result rule holds over every history and every return value. */
  method RunTrigger(td: Fired, acts: seq<Action>, ret: Return) returns (obs: seq<Obs>, r: Outcome)
    requires td.RowTuple().Row?
    ensures var (p, seen) := Play(td, Plain(Machine([], []), Untouched), acts);
            obs == seen && r == Rule(td, p, ret)
    // The same without the rule. A trigger that is not for rows, or fires after the event, gives nothing.
    ensures obs == Seen(td, acts)
    ensures !td.forRow || td.after ==> r == NoTuple
    // At most one value may be returned. An explicit nil suppresses, a row value is handed back as it is,
    // a row handle as it would be displayed then; other values are errors.
    ensures td.forRow && !td.after && (ret.nret < 0 || ret.nret > 1) ==> r == Failure
    ensures td.forRow && !td.after && ret.nret == 1 && ret.value.SrcNil? ==> r == NoTuple
    ensures td.forRow && !td.after && ret.nret == 1 && ret.value.SrcPlain? ==>
              r == if ret.value.v.Row? then Tuple(ret.value.v) else Failure
    ensures td.forRow && !td.after && ret.nret == 1 && ret.value.SrcHandle? ==>
              r == AsTuple(Seen(td, acts + [Do(Show(ret.value.reg))])[|acts|])
    // With no value, what counts is what reading and displaying trigger.row would show then.
    ensures td.forRow && !td.after && ret.nret == 0 ==>
              var more := Seen(td, acts + [ReadRow, Do(Show(Handles(obs)))]);
              r == if more[|acts|] == IsNil then NoTuple else AsTuple(more[|acts| + 1])
    // That is nothing if the last assignment to it was nil, and the fired tuple if it was never touched.
    ensures td.forRow && !td.after && ret.nret == 0 && LastlyNil(acts) ==> r == NoTuple
    ensures td.forRow && !td.after && ret.nret == 0 && NeverTouched(acts) ==>
              r == Tuple(if td.event.Update? then td.newtuple else td.trigtuple)
  {
    var t := new Trigger(td);
    var regs: seq<nat> := [];
    obs := [];
    ghost var all := Play(td, Plain(Machine([], []), Untouched), acts);
    var i := 0;
    assert acts[0..] == acts && MachineOf(t.store.W(), regs).regs == [];
    while i < |acts|
      invariant 0 <= i <= |acts| && t.Valid(regs) && t.td == td && fresh(t) && fresh(t.store)
      invariant var (p, seen) := Play(td, t.Plainly(regs), acts[i..]); p == all.0 && obs + seen == all.1
    {
      var o;
      assert acts[i..][1..] == acts[i + 1..];
      regs, o := t.Perform(acts[i], regs);
      obs := obs + [o];
      i := i + 1;
    }
    r := t.ReturnResult(ret, regs);
    if td.forRow && !td.after { ResultSeen(td, acts, ret); }
  }
}
