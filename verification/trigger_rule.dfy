/** What a row trigger returns to the executor, on plain records: what trigger.row holds after any history,
and the rule for the result. */
module TriggerRule {
  import opened Options
  import opened PlainRecords
  import opened RecordLaws
  import opened Observations

  datatype Event = Insert | Update | Delete

  /** How and for what the trigger was fired, and the tuples it was fired with. */
  datatype Fired = Fired(event: Event, forRow: bool, after: bool, trigtuple: Val, newtuple: Val)
  {
    /** The tuple that trigger.row stands for. */
    function RowTuple(): Val { if event.Update? then newtuple else trigtuple }
  }

  /** One step of a trigger function: read trigger.row, assign to it, or do anything with the handles. */
  datatype Action = ReadRow | SetRow(src: Source) | Do(op: Op)

  /** What the function finally returns: nret values, the last of which is `value`. */
  datatype Return = Return(nret: int, value: Source)

  /** What the executor gets: no tuple (the operation is suppressed, or the result is of no interest),
      a tuple, or an error. */
  datatype Outcome = NoTuple | Tuple(v: Val) | Failure

  /** trigger.row as the program left it: never looked at, set to nil, or a record. */
  datatype RowEntry = Untouched | SetToNil | Rec(node: nat)

  datatype Plain = Plain(m: Machine, row: RowEntry)

  /** The row value that `src` stands for, if it is one. */
  function RowOf(m: Machine, src: Source): Option<Val> {
    match src
    case SrcNil => None
    case SrcPlain(v) => if v.Row? then Some(v) else None
    case SrcHandle(r) =>
      if r < |m.regs| && m.regs[r] < |m.heap| && m.heap[m.regs[r]].RowNode?
      then Some(ReadNode(m.heap, m.regs[r]))
      else None
  }

  function PlainStep(f: Fired, p: Plain, a: Action): (Plain, Obs) {
    match a
    case Do(op) => var (m, o) := Step(p.m, op); (p.(m := m), o)
    case ReadRow =>
      if !f.forRow || p.row.SetToNil? then (p, IsNil)
      else if p.row.Untouched? then (Plain(AddRoot(p.m, f.RowTuple()), Rec(|p.m.heap|)), Handle)
      else (p.(m := p.m.(regs := p.m.regs + [p.row.node])), Handle)
    case SetRow(src) =>
      if !f.forRow then (p, Error)
      else if src.SrcNil? then (p.(row := SetToNil), Done)
      else match RowOf(p.m, src)
        case None => (p, Error)
        case Some(v) => (Plain(p.m.(heap := p.m.heap + Layout(v, |p.m.heap|)), Rec(|p.m.heap|)), Done)
  }

  /** The trigger result rule: nil suppresses, a returned row counts, and with no return it is what
      trigger.row now holds. */
  function Rule(f: Fired, p: Plain, ret: Return): Outcome {
    if !f.forRow || f.after then NoTuple
    else if ret.nret < 0 || ret.nret > 1 then Failure
    else if ret.nret == 1 then
      if ret.value.SrcNil? then NoTuple
      else match RowOf(p.m, ret.value) case None => Failure case Some(v) => Tuple(v)
    else match p.row
      case Untouched => Tuple(f.RowTuple())
      case SetToNil => NoTuple
      case Rec(n) => Tuple(ReadNode(p.m.heap, n))
  }

  function Play(f: Fired, p: Plain, acts: seq<Action>): (end: (Plain, seq<Obs>))
    ensures |end.1| == |acts|
    decreases |acts|
  {
    if acts == [] then (p, [])
    else var (p1, o) := PlainStep(f, p, acts[0]);
         var (p2, os) := Play(f, p1, acts[1..]);
         (p2, [o] + os)
  }

  // ---- What can be seen ----

  /** All that a trigger function sees. */
  function Seen(f: Fired, acts: seq<Action>): (obs: seq<Obs>)
    ensures |obs| == |acts|
  {
    Play(f, Plain(Machine([], []), Untouched), acts).1
  }

  /** How many handles have been obtained. */
  function Handles(obs: seq<Obs>): nat {
    if obs == [] then 0 else (if obs[0] == Handle then 1 else 0) + Handles(obs[1..])
  }

  /** A displayed row as a tuple. */
  function AsTuple(o: Obs): Outcome {
    if o.Whole? && o.v.Row? then Tuple(o.v) else Failure
  }

  /** trigger.row is neither read nor assigned to. */
  predicate NeverTouched(acts: seq<Action>) { forall i | 0 <= i < |acts| :: acts[i].Do? }

  /** The last assignment to trigger.row is of nil. */
  predicate LastlyNil(acts: seq<Action>) {
    exists i | 0 <= i < |acts| :: acts[i] == SetRow(SrcNil) && forall j | i < j < |acts| :: !acts[j].SetRow?
  }

  lemma {:induction false} PlayAppend(f: Fired, p: Plain, a: seq<Action>, b: seq<Action>)
    ensures Play(f, p, a + b) == (Play(f, Play(f, p, a).0, b).0, Play(f, p, a).1 + Play(f, Play(f, p, a).0, b).1)
    decreases |a|
  {
    if a == [] {
      assert a + b == b;
      assert [] + Play(f, p, b).1 == Play(f, p, b).1;
    } else {
      assert (a + b)[1..] == a[1..] + b;
      var (p1, o) := PlainStep(f, p, a[0]);
      PlayAppend(f, p1, a[1..], b);
      var first, rest := Play(f, p1, a[1..]).1, Play(f, Play(f, p, a).0, b).1;
      assert [o] + (first + rest) == ([o] + first) + rest;
    }
  }

  /** Records form a forest, and handles and trigger.row are on records; handles are counted as they are seen. */
  ghost predicate Sound(f: Fired, p: Plain) {
    Proper(p.m) && (p.row.Rec? ==> p.row.node < |p.m.heap| && p.m.heap[p.row.node].RowNode?) && f.RowTuple().Row?
  }

  lemma PlainStepSound(f: Fired, p: Plain, a: Action)
    requires Sound(f, p)
    ensures Sound(f, PlainStep(f, p, a).0)
    ensures |PlainStep(f, p, a).0.m.regs| == |p.m.regs| + (if PlainStep(f, p, a).1 == Handle then 1 else 0)
  {
    match a
    case Do(op) =>
      StepProper(p.m, op);
      RowsStay(p.m, op);
    case ReadRow =>
      if f.forRow && p.row.Untouched? {
        var v := f.RowTuple();
        StepProper(p.m, New(v));
        assert After(p.m, New(v)) == AddRoot(p.m, v);
        HeadIsRow(p.m.heap, v);
      }
    case SetRow(src) =>
      if f.forRow && RowOf(p.m, src).Some? {
        var v := RowOf(p.m, src).value;
        StepProper(p.m, New(v));
        HeadIsRow(p.m.heap, v);
      }
  }

  lemma HeadIsRow(h: Heap, v: Val)
    requires v.Row?
    ensures |h + Layout(v, |h|)| > |h| && (h + Layout(v, |h|))[|h|].RowNode?
  {
    assert (h + Layout(v, |h|))[|h|] == Layout(v, |h|)[0];
  }

  /** No step makes anything else of a row's record. */
  lemma RowsStay(m: Machine, op: Op)
    requires Proper(m)
    ensures |m.heap| <= |After(m, op).heap|
    ensures forall n | 0 <= n < |m.heap| && m.heap[n].RowNode? :: After(m, op).heap[n].RowNode?
    ensures |After(m, op).regs| == |m.regs| + (if See(m, op) == Handle then 1 else 0)
  {}

  lemma {:induction false} PlaySound(f: Fired, p: Plain, acts: seq<Action>)
    requires Sound(f, p)
    ensures var (p', seen) := Play(f, p, acts); Sound(f, p') && |p'.m.regs| == |p.m.regs| + Handles(seen)
    decreases |acts|
  {
    if acts != [] {
      PlainStepSound(f, p, acts[0]);
      PlaySound(f, PlainStep(f, p, acts[0]).0, acts[1..]);
    }
  }

  /** Without an assignment to it trigger.row never becomes nil, nor stops being nil. */
  lemma {:induction false} RowStays(f: Fired, p: Plain, acts: seq<Action>)
    requires p.row.SetToNil? && forall j | 0 <= j < |acts| :: !acts[j].SetRow?
    ensures Play(f, p, acts).0.row.SetToNil?
    decreases |acts|
  {
    if acts != [] { RowStays(f, PlainStep(f, p, acts[0]).0, acts[1..]); }
  }

  lemma {:induction false} NotTouched(f: Fired, p: Plain, acts: seq<Action>)
    requires NeverTouched(acts)
    ensures Play(f, p, acts).0.row == p.row
    decreases |acts|
  {
    if acts != [] { NotTouched(f, PlainStep(f, p, acts[0]).0, acts[1..]); }
  }

  /** One more action, and two more. */
  lemma SeenNext(f: Fired, acts: seq<Action>, a: Action, b: Action)
    ensures var p := Play(f, Plain(Machine([], []), Untouched), acts).0;
            && Seen(f, acts + [a])[|acts|] == PlainStep(f, p, a).1
            && Seen(f, acts + [a, b])[|acts|] == PlainStep(f, p, a).1
            && Seen(f, acts + [a, b])[|acts| + 1] == PlainStep(f, PlainStep(f, p, a).0, b).1
  {
    var p0 := Plain(Machine([], []), Untouched);
    var p := Play(f, p0, acts).0;
    var p1 := PlainStep(f, p, a).0;
    PlayAppend(f, p0, acts, [a]);
    PlayAppend(f, p0, acts, [a, b]);
    assert [a][1..] == [] && [a, b][1..] == [b] && [b][1..] == [];
    assert Play(f, p1, [b]) == (PlainStep(f, p1, b).0, [PlainStep(f, p1, b).1] + []);
    assert Play(f, p, [a]).1 == [PlainStep(f, p, a).1] + [];
    assert Play(f, p, [a, b]).1 == [PlainStep(f, p, a).1] + Play(f, p1, [b]).1;
  }

  /** A returned handle counts as it would be displayed. */
  lemma ReturnedSeen(f: Fired, acts: seq<Action>, q: nat)
    requires f.RowTuple().Row? && f.forRow && !f.after
    ensures Rule(f, Play(f, Plain(Machine([], []), Untouched), acts).0, Return(1, SrcHandle(q)))
         == AsTuple(Seen(f, acts + [Do(Show(q))])[|acts|])
  {
    var p := Play(f, Plain(Machine([], []), Untouched), acts).0;
    PlaySound(f, Plain(Machine([], []), Untouched), acts);
    SeenNext(f, acts, Do(Show(q)), ReadRow);
    assert q < |p.m.regs| ==> ReadNode(p.m.heap, p.m.regs[q]).Row? == p.m.heap[p.m.regs[q]].RowNode?;
  }

  /** With no value returned, what counts is what reading and displaying trigger.row would show. */
  lemma HeldSeen(f: Fired, acts: seq<Action>)
    requires f.RowTuple().Row? && f.forRow && !f.after
    ensures var more := Seen(f, acts + [ReadRow, Do(Show(Handles(Seen(f, acts))))]);
            var r := Rule(f, Play(f, Plain(Machine([], []), Untouched), acts).0, Return(0, SrcNil));
            r == if more[|acts|] == IsNil then NoTuple else AsTuple(more[|acts| + 1])
  {
    var p := Play(f, Plain(Machine([], []), Untouched), acts).0;
    PlaySound(f, Plain(Machine([], []), Untouched), acts);
    SeenNext(f, acts, ReadRow, Do(Show(|p.m.regs|)));
    HeldShows(f, p);
  }

  /** What reading trigger.row yields, and then displaying it, after any history. */
  lemma HeldShows(f: Fired, p: Plain)
    requires Sound(f, p) && f.forRow
    ensures var (p', o) := PlainStep(f, p, ReadRow);
            match p.row
            case SetToNil => o == IsNil
            case Untouched => o == Handle && Shown(p'.m, |p.m.regs|) == Some(f.RowTuple())
            case Rec(n) => o == Handle && Shown(p'.m, |p.m.regs|) == Some(ReadNode(p.m.heap, n))
  {
    if p.row.Untouched? { NewShows(p.m, f.RowTuple()); }
  }

  lemma NeverTouchedSeen(f: Fired, acts: seq<Action>)
    requires NeverTouched(acts)
    ensures Play(f, Plain(Machine([], []), Untouched), acts).0.row == Untouched
  {
    NotTouched(f, Plain(Machine([], []), Untouched), acts);
  }

  lemma NilStays(f: Fired, p: Plain, acts: seq<Action>)
    requires LastlyNil(acts) && f.forRow
    ensures Play(f, p, acts).0.row.SetToNil?
  {
    var i :| 0 <= i < |acts| && acts[i] == SetRow(SrcNil) && forall j | i < j < |acts| :: !acts[j].SetRow?;
    assert acts == acts[..i] + acts[i..];
    PlayAppend(f, p, acts[..i], acts[i..]);
    var q := Play(f, p, acts[..i]).0;
    RowStays(f, PlainStep(f, q, acts[i]).0, acts[i..][1..]);
  }

  /** The rule in terms of what would be seen. */
  lemma ResultSeen(f: Fired, acts: seq<Action>, ret: Return)
    requires f.RowTuple().Row? && f.forRow && !f.after
    ensures var r := Rule(f, Play(f, Plain(Machine([], []), Untouched), acts).0, ret);
            var more := Seen(f, acts + [ReadRow, Do(Show(Handles(Seen(f, acts))))]);
            && (ret.nret == 1 && ret.value.SrcHandle? ==>
                  r == AsTuple(Seen(f, acts + [Do(Show(ret.value.reg))])[|acts|]))
            && (ret.nret == 0 ==> r == if more[|acts|] == IsNil then NoTuple else AsTuple(more[|acts| + 1]))
            && (ret.nret == 0 && LastlyNil(acts) ==> r == NoTuple)
            && (ret.nret == 0 && NeverTouched(acts) ==> r == Tuple(f.RowTuple()))
  {
    if ret.nret == 1 && ret.value.SrcHandle? { ReturnedSeen(f, acts, ret.value.reg); }
    if ret.nret == 0 {
      HeldSeen(f, acts);
      if LastlyNil(acts) { NilStays(f, Plain(Machine([], []), Untouched), acts); }
      if NeverTouched(acts) { NeverTouchedSeen(f, acts); }
    }
  }

  // ---- What trigger.row holds ----

  /** Reading trigger.row gives the new tuple of an update and the only one otherwise, until it is assigned
      to; nothing at all if the trigger is not for rows. */
  lemma FirstRead(f: Fired, p: Plain)
    requires Sound(f, p) && p.row.Untouched?
    ensures var (p', o) := PlainStep(f, p, ReadRow);
            if !f.forRow then o == IsNil && p' == p
            else o == Handle && Shown(p'.m, |p.m.regs|) == Some(if f.event.Update? then f.newtuple else f.trigtuple)
  {
    if f.forRow { NewShows(p.m, f.RowTuple()); }
  }

  /** What is assigned to trigger.row is what it then shows: nil, a plain row, or what a row's handle shows
      before; anything else is refused. No handle shows anything different for it. */
  lemma AssignedRow(f: Fired, p: Plain, src: Source)
    requires Sound(f, p) && f.forRow
    ensures var (p1, o) := PlainStep(f, p, SetRow(src));
            var (p2, o2) := PlainStep(f, p1, ReadRow);
            var given := Given(p.m, src);
            && p1.m.regs == p.m.regs
            && (src.SrcNil? ==> o == Done && o2 == IsNil)
            && (!src.SrcNil? && given.Some? && given.value.Row? ==>
                  o == Done && o2 == Handle && Shown(p2.m, |p.m.regs|) == given)
            && (!src.SrcNil? && !(given.Some? && given.value.Row?) ==> o == Error && p1 == p)
            && forall q | 0 <= q < |p.m.regs| :: Shown(p1.m, q) == Shown(p.m, q)
  {
    RowGiven(p.m, src);
    if RowOf(p.m, src).Some? {
      var v := RowOf(p.m, src).value;
      NewestReads(p.m.heap, v);
      PlacedShows(f, p, Layout(v, |p.m.heap|), v);
    }
  }

  lemma RowGiven(m: Machine, src: Source)
    requires Proper(m)
    ensures var given := Given(m, src);
            RowOf(m, src) == if !src.SrcNil? && given.Some? && given.value.Row? then given else None
  {}

  lemma PlacedShows(f: Fired, p: Plain, more: seq<Node>, v: Val)
    requires Sound(f, p) && f.forRow && ReadNode(p.m.heap + more, |p.m.heap|) == v
    ensures var p1 := Plain(p.m.(heap := p.m.heap + more), Rec(|p.m.heap|));
            var (p2, o2) := PlainStep(f, p1, ReadRow);
            && o2 == Handle && Shown(p2.m, |p.m.regs|) == Some(v)
            && forall q | 0 <= q < |p.m.regs| :: Shown(p1.m, q) == Shown(p.m, q)
  {
    MoreShows(p.m, more, v);
    forall q | 0 <= q < |p.m.regs| ensures Shown(p.m.(heap := p.m.heap + more), q) == Shown(p.m, q) {
      assert Shown(Machine(p.m.heap + more, p.m.regs + [|p.m.heap|]), q) == Shown(p.m, q);
    }
  }

  /** Reading trigger.row twice gives handles on one record: what is written through either shows in the
      other. */
  lemma OneRow(f: Fired, p: Plain, op: Op)
    requires Sound(f, p) && f.forRow && !p.row.SetToNil?
    ensures var p1 := PlainStep(f, p, ReadRow).0;
            var p2 := PlainStep(f, p1, ReadRow).0;
            var m := After(p2.m, op);
            WritesTo(op, |p.m.regs|) || WritesTo(op, |p.m.regs| + 1) ==>
              Shown(m, |p.m.regs|).Some? && Shown(m, |p.m.regs|) == Shown(m, |p.m.regs| + 1)
  {
    PlainStepSound(f, p, ReadRow);
    PlainStepSound(f, PlainStep(f, p, ReadRow).0, ReadRow);
  }
}
