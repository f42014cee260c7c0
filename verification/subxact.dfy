/** Protected calls on nested subtransactions, with the pending-error flag, the active-error register
and the stack of open subtransactions: each step of error.c, proved to carry out the meaning. */
module Subxact {
  import opened Options
  import opened SubxactMeaning

  datatype Context = PG | Lua

  /** An error value in Lua: an ordinary one, or an object holding a PostgreSQL error. Object 0 is one
      that was caught long ago and is no longer registered. */
  datatype Err = Msg | PgObj(id: nat)

  datatype Outcome = Fine | Raised(e: Err)

  /** A (sub)transaction level of PostgreSQL: its writes so far, whether it has failed, and the resource
      owner and memory context it runs with by default. */
  datatype Level = Level(writes: seq<int>, failed: bool, owner: nat, cxt: nat)

  /** pllua's own record of a subtransaction, threaded through `prev`. */
  datatype Xa = Xa(prev: Option<nat>, onstack: bool, resowner: nat, mcontext: nat)

  /** All of the state that outlives a statement. */
  datatype State = State(levels: seq<Level>, resowner: nat, mcontext: nat, xas: seq<Xa>,
    top: Option<nat>, log: seq<Event>)

  /** s' is s after a piece of program with meaning m: its writes and log are added, the innermost level
      has failed if m says so, and everything else is as it was at entry. */
  ghost predicate Moved(s: State, s': State, m: Mean, refused: bool) {
    && |s.levels| > 0 && |s'.levels| == |s.levels|
    && s'.levels[..|s.levels| - 1] == s.levels[..|s.levels| - 1]
    && s'.levels[|s.levels| - 1] ==
       s.levels[|s.levels| - 1].(writes := s.levels[|s.levels| - 1].writes + m.writes, failed := refused || m.broken)
    && s'.resowner == s.resowner && s'.mcontext == s.mcontext && s'.top == s.top
    && |s.xas| <= |s'.xas| && s'.xas[..|s.xas|] == s.xas
    && s'.log == s.log + m.log
  }

  /** The innermost level has these writes more; outer levels are as they were. */
  ghost predicate Gained(levels: seq<Level>, levels': seq<Level>, writes: seq<int>) {
    && |levels| == |levels'| > 0 && levels'[..|levels| - 1] == levels[..|levels| - 1]
    && levels'[|levels| - 1].writes == levels[|levels| - 1].writes + writes
  }

  lemma MovedThen(s: State, s1: State, s2: State, a: Mean, b: Mean, refused: bool)
    requires Moved(s, s1, a, refused) && Moved(s1, s2, b, refused || a.broken)
    ensures Moved(s, s2, Then(a, b), refused)
  {
    var n := |s.levels| - 1;
    assert s2.levels[n].writes == s.levels[n].writes + (a.writes + b.writes);
    assert s2.xas[..|s.xas|] == s2.xas[..|s1.xas|][..|s.xas|];
  }

  /** Nothing has happened, but that an error may have been raised. */
  lemma MovedNowhere(s: State, o: Out, refused: bool)
    requires |s.levels| > 0 && s.levels[|s.levels| - 1].failed == refused
    ensures Moved(s, s, Raise(o), refused)
  {
    assert s.log + [] == s.log;
    assert s.levels[|s.levels| - 1].writes + [] == s.levels[|s.levels| - 1].writes;
  }

  /** The state once the subtransaction on top of the stack has been aborted. */
  ghost function AbortedState(s: State): State
    requires s.top.Some? && s.top.value < |s.xas| && |s.levels| >= 2
  {
    var xa := s.top.value;
    s.(levels := s.levels[..|s.levels| - 1], xas := s.xas[xa := s.xas[xa].(onstack := false)], top := s.xas[xa].prev,
       resowner := s.xas[xa].resowner, mcontext := s.xas[xa].mcontext, log := s.log + [Aborted])
  }

  /** s1 is s0 with a new subtransaction on top of both stacks, which saves what is to be restored. */
  ghost predicate EnteredFrom(s0: State, s1: State) {
    && |s0.levels| > 0 && s1.levels == s0.levels + [Level([], false, s1.resowner, s1.mcontext)]
    && s1.xas == s0.xas + [Xa(s0.top, true, s0.resowner, s0.mcontext)] && s1.top == Some(|s0.xas|)
    && s1.log == s0.log + [Began]
  }

  lemma AbortRestores(s0: State, s1: State, s2: State, m: Mean)
    requires EnteredFrom(s0, s1) && !s0.levels[|s0.levels| - 1].failed && Moved(s1, s2, m, false)
    ensures s2.top == s1.top && s2.xas[|s0.xas|] == s1.xas[|s0.xas|]
    ensures Moved(s0, AbortedState(s2), Mean(Normal, [], false, [Began] + m.log + [Aborted]), false)
  {
    var n, s3 := |s0.levels|, AbortedState(s2);
    assert s2.xas[|s0.xas|] == s2.xas[..|s1.xas|][|s0.xas|] == Xa(s0.top, true, s0.resowner, s0.mcontext);
    assert s3.levels == s0.levels by { assert s2.levels[..n] == s1.levels[..n] == s0.levels; }
    assert s3.xas[..|s0.xas|] == s2.xas[..|s1.xas|][..|s0.xas|] == s0.xas;
    assert s0.levels[n - 1].writes + [] == s0.levels[n - 1].writes;
    assert s3.log == s0.log + ([Began] + m.log + [Aborted]);
  }

  /** The state once the subtransaction on top of the stack has been committed into its parent. */
  ghost function CommittedState(s: State): State
    requires s.top.Some? && s.top.value < |s.xas| && |s.levels| >= 2
  {
    var xa, n := s.top.value, |s.levels|;
    s.(levels := s.levels[..n - 2] + [s.levels[n - 2].(writes := s.levels[n - 2].writes + s.levels[n - 1].writes)],
       top := s.xas[xa].prev, resowner := s.xas[xa].resowner, mcontext := s.xas[xa].mcontext,
       log := s.log + [Committed])
  }

  lemma CommitKeeps(s0: State, s1: State, s2: State, m: Mean)
    requires EnteredFrom(s0, s1) && !s0.levels[|s0.levels| - 1].failed && Moved(s1, s2, m, false) && !m.broken
    ensures s2.top == s1.top && s2.xas[|s0.xas|] == s1.xas[|s0.xas|]
    ensures Moved(s0, CommittedState(s2), m.(log := [Began] + m.log + [Committed]), false)
  {
    var n, s3 := |s0.levels|, CommittedState(s2);
    assert s2.xas[|s0.xas|] == s2.xas[..|s1.xas|][|s0.xas|] == Xa(s0.top, true, s0.resowner, s0.mcontext);
    assert s2.levels[..n] == s1.levels[..n] == s0.levels;
    assert s2.levels[n].writes == [] + m.writes == m.writes;
    assert s3.levels[..n - 1] == s2.levels[..n][..n - 1];
    assert s3.levels[n - 1] == s0.levels[n - 1].(writes := s0.levels[n - 1].writes + m.writes);
    assert s3.xas[..|s0.xas|] == s2.xas[..|s1.xas|][..|s0.xas|] == s0.xas;
    assert s3.log == s0.log + ([Began] + m.log + [Committed]);
  }

  /** An error function run inside the failed subtransaction only adds to what is undone. */
  lemma HandledInside(s1: State, s2: State, s3: State, m: Mean, k: Mean)
    requires Moved(s1, s2, m, false) && m.broken
    requires Moved(s2.(log := s2.log + [Handled]), s3, k, true) && k.writes == [] && !k.broken
    ensures Moved(s1, s3, m.(log := m.log + [Handled] + k.log), false)
  {
    MovedThen(s1, s2.(log := s2.log + [Handled]), s3, m.(log := m.log + [Handled]), k, false);
    assert m.writes + k.writes == m.writes;
  }

  /** An error function run after the abort acts on the caller's own level. */
  lemma HandledOutside(s0: State, s2: State, s3: State, a: Mean, k: Mean)
    requires Moved(s0, s2, a, false) && a.writes == [] && !a.broken
    requires Moved(s2.(log := s2.log + [Handled]), s3, k, false)
    ensures var o := if k.broken then PgErr else Normal;
            Moved(s0, s3, Mean(o, k.writes, k.broken, a.log + [Handled] + k.log), false)
  {
    MovedThen(s0, s2.(log := s2.log + [Handled]), s3, a.(log := a.log + [Handled]), k, false);
    assert [] + k.writes == k.writes;
  }

  /** The innermost level has these writes more, outer levels are as they were, and this has happened. */
  ghost predicate Went(s: State, s': State, writes: seq<int>, log: seq<Event>) {
    Gained(s.levels, s'.levels, writes) && s'.log == s.log + log
  }

  predicate Agrees(r: Outcome, o: Out) {
    match o
    case Normal => r.Fine?
    case LuaErr => r == Raised(Msg)
    case PgErr => r.Raised? && r.e.PgObj?
  }

  class Session {
    // pllua
    var context: Context
    var pending: bool
    var active: Option<nat>
    var nextErr: nat
    var xas: seq<Xa>
    var top: Option<nat>
    // PostgreSQL
    var levels: seq<Level>
    var resowner: nat
    var mcontext: nat
    var nextTok: nat
    // what happened
    var log: seq<Event>

    constructor ()
      ensures InLua(false)
      ensures |levels| == 1 && levels[0].writes == [] && log == []
    {
      context, pending, active, nextErr, xas, top := Lua, false, None, 1, [], None;
      levels, resowner, mcontext, nextTok, log := [Level([], false, 1, 2)], 3, 4, 5, [];
    }

    ghost function St(): State
      reads this
    {
      State(levels, resowner, mcontext, xas, top, log)
    }

    /** The state between two Lua statements. The innermost level has failed exactly when an error is
        pending, and exactly then is a PostgreSQL error registered as active; no outer level has failed. */
    ghost predicate InLua(broken: bool)
      reads this
    {
      context == Lua && Sound(broken) && pending == broken && (active.Some? <==> broken)
    }

    ghost predicate Sound(broken: bool)
      reads this
    {
      && |levels| > 0 && levels[|levels| - 1].failed == broken
      && (forall k | 0 <= k < |levels| - 1 :: !levels[k].failed)
    }

    /** pllua_setcontext: the checked form refuses to enter PostgreSQL with an error pending. */
    method SetContext(checked: bool, newctx: Context) returns (ok: bool, oldctx: Context)
      modifies this`context
      ensures oldctx == old(context)
      ensures ok <==> !(pending && checked && oldctx == Lua && newctx == PG)
      ensures context == if ok then newctx else oldctx
    {
      oldctx, ok := context, true;
      if pending && checked && oldctx == Lua && newctx == PG { return false, oldctx; }
      context := newctx;
    }

    /** An SQL write. It never happens in a failed level. */
    method PgWrite(x: int)
      requires context == PG && Sound(false)
      modifies this`levels, this`log
      ensures var n := |old(levels)| - 1;
              levels == old(levels)[n := old(levels)[n].(writes := old(levels)[n].writes + [x])]
      ensures log == old(log) + [Wrote(x)]
    {
      var n := |levels| - 1;
      levels := levels[n := levels[n].(writes := levels[n].writes + [x])];
      log := log + [Wrote(x)];
    }

    /** PostgreSQL raises an error: the innermost level fails, and error handling moves elsewhere. */
    method PgFail()
      requires context == PG && |levels| > 0
      modifies this`levels, this`mcontext
      ensures levels == old(levels)[|old(levels)| - 1 := old(levels)[|old(levels)| - 1].(failed := true)]
    {
      levels := levels[|levels| - 1 := levels[|levels| - 1].(failed := true)];
      mcontext := 0;
    }

    method BeginInternalSubTransaction()
      requires context == PG && Sound(false)
      modifies this`levels, this`resowner, this`mcontext, this`nextTok, this`log
      ensures levels == old(levels) + [Level([], false, resowner, mcontext)] && log == old(log) + [Began]
    {
      levels := levels + [Level([], false, nextTok, nextTok + 1)];
      resowner, mcontext, nextTok, log := nextTok, nextTok + 1, nextTok + 2, log + [Began];
    }

    /** Commits the innermost level into its parent, which must not be done to a failed level. */
    method ReleaseCurrentSubTransaction()
      requires context == PG && Sound(false) && |levels| >= 2
      modifies this`levels, this`resowner, this`mcontext, this`log
      ensures var n := |old(levels)|;
              levels == old(levels)[..n - 2]
                + [old(levels)[n - 2].(writes := old(levels)[n - 2].writes + old(levels)[n - 1].writes)]
      ensures log == old(log) + [Committed]
    {
      var n := |levels|;
      levels := levels[..n - 2] + [levels[n - 2].(writes := levels[n - 2].writes + levels[n - 1].writes)];
      resowner, mcontext, log := levels[n - 2].owner, levels[n - 2].cxt, log + [Committed];
    }

    method RollbackAndReleaseCurrentSubTransaction()
      requires context == PG && |levels| >= 2
      modifies this`levels, this`resowner, this`mcontext, this`log
      ensures levels == old(levels)[..|old(levels)| - 1] && log == old(log) + [Aborted]
    {
      var n := |levels|;
      levels := levels[..n - 1];
      resowner, mcontext, log := levels[n - 2].owner, levels[n - 2].cxt, log + [Aborted];
    }

    /** A PostgreSQL error caught on its way through Lua: it becomes the active error, and is pending. */
    method RethrowFromPg(mcxt: nat) returns (e: Err)
      requires context == Lua
      modifies this`active, this`nextErr, this`pending, this`mcontext
      ensures active == Some(old(nextErr)) && e == PgObj(old(nextErr)) && pending && mcontext == mcxt
    {
      active, e, nextErr := Some(nextErr), PgObj(nextErr), nextErr + 1;
      pending, mcontext := true, mcxt;
    }

    /** Aborts the subtransaction on top of the stack and restores what it had saved; refused when it is
        attempted from Lua with an error pending. */
    method SubxactAbort() returns (ok: bool)
      requires top.Some? && top.value < |xas| && xas[top.value].onstack && |levels| >= 2
      modifies this`context, this`levels, this`resowner, this`mcontext, this`log, this`pending, this`xas, this`top
      ensures context == old(context)
      ensures ok <==> !(old(pending) && old(context) == Lua)
      ensures !ok ==> St() == old(St()) && pending == old(pending)
      ensures ok ==>
                var xa := old(top).value;
                && xas == old(xas)[xa := old(xas)[xa].(onstack := false)] && top == old(xas)[xa].prev
                && resowner == old(xas)[xa].resowner && mcontext == old(xas)[xa].mcontext
                && levels == old(levels)[..|old(levels)| - 1] && log == old(log) + [Aborted] && !pending
    {
      var oldctx;
      ok, oldctx := SetContext(true, PG);
      if !ok { return; }
      var xa := top.value;
      xas := xas[xa := xas[xa].(onstack := false)];
      top := xas[xa].prev;
      RollbackAndReleaseCurrentSubTransaction();
      mcontext, resowner, pending := xas[xa].mcontext, xas[xa].resowner, false;
      var _, _ := SetContext(false, oldctx);
    }

    method Exec(stmts: seq<Stmt>, ghost refused: bool) returns (r: Outcome)
      requires InLua(refused) && WellFormed(stmts)
      modifies this
      ensures var m := Meaning(stmts, refused);
              && InLua(refused || m.broken) && Agrees(r, m.out)
              && Moved(old(St()), St(), m, refused)
      decreases stmts, 4
    {
      ghost var s := St();
      if stmts == [] { return Fine; }
      r := ExecOne(stmts[0], refused);
      ghost var s1, a := St(), MeaningOf(stmts[0], refused);
      if r.Fine? {
        ghost var broken := refused || a.broken;
        BrokenOneNeverNormal(stmts[0], refused);
        r := Exec(stmts[1..], broken);
        MovedThen(s, s1, St(), a, Meaning(stmts[1..], broken), refused);
      }
    }

    method ExecOne(s: Stmt, ghost refused: bool) returns (r: Outcome)
      requires InLua(refused) && WellFormedIn(s)
      modifies this
      ensures var m := MeaningOf(s, refused);
              && InLua(refused || m.broken) && Agrees(r, m.out)
              && Moved(old(St()), St(), m, refused)
      ensures s.LuaError? ==> r == Raised(Msg) && St() == old(St())
      ensures s.RaiseOld? ==> r == Raised(PgObj(0)) && St() == old(St())
      decreases s, 3
    {
      match s {
        case LuaError => r := Raised(Msg);
        case RaiseOld => r := Raised(PgObj(0));
        case Closing(b, c) => r := ExecClosing(s, refused);
        case LPCall(b, f) => r := LpCall(s, refused);
        case Write(x) => r := ExecSql(s, refused);
        case PgError => r := ExecSql(s, refused);
        case Nested(b) => r := ExecNested(s, refused);
        case PCall(b, f) => r := PCallThen(s, refused);
        case XPCall(b, h, f) => r := PCallThen(s, refused);
      }
    }

    /** A statement sent to PostgreSQL, which writes something or raises an error. */
    method ExecSql(s: Stmt, ghost refused: bool) returns (r: Outcome)
      requires InLua(refused) && (s.Write? || s.PgError?)
      modifies this
      ensures var m := MeaningOf(s, refused);
              && InLua(refused || m.broken) && Agrees(r, m.out)
              && Moved(old(St()), St(), m, refused)
      ensures refused ==> r == Raised(Msg) && St() == old(St())
      ensures !refused && s.Write? ==> r.Fine? && Went(old(St()), St(), [s.x], [Wrote(s.x)]) && InLua(false)
      ensures !refused && s.PgError? ==>
                r.Raised? && r.e.PgObj? && Gained(old(levels), levels, []) && log == old(log) && InLua(true)
    {
      var ok, oldctx := SetContext(true, PG);
      if !ok { return Raised(Msg); }
      var mcxt := mcontext;
      if s.Write? {
        PgWrite(s.x);
        var _, _ := SetContext(false, oldctx);
        return Fine;
      }
      PgFail();
      var _, _ := SetContext(false, oldctx);
      var e := RethrowFromPg(mcxt);
      r := Raised(e);
    }

    /** A to-be-closed variable: its close method runs however the body ends. */
    method ExecClosing(s: Stmt, ghost refused: bool) returns (r: Outcome)
      requires s.Closing? && InLua(refused) && WellFormedIn(s)
      modifies this
      ensures var m := MeaningOf(s, refused);
              && InLua(refused || m.broken) && Agrees(r, m.out)
              && Moved(old(St()), St(), m, refused)
      // The close method runs whatever the body does, and its own error takes the body's place.
      ensures var m := Meaning(s.body, refused);
              var k := Meaning(s.closer, refused || m.broken);
              && Went(old(St()), St(), m.writes + k.writes, m.log + k.log) && InLua(refused || m.broken || k.broken)
              && Agrees(r, if k.out.Normal? then m.out else k.out)
      decreases s, 2
    {
      ghost var s0 := St();
      r := Exec(s.body, refused);
      ghost var s1, m := St(), Meaning(s.body, refused);
      var k := Exec(s.closer, refused || m.broken);
      MovedThen(s0, s1, St(), m, Meaning(s.closer, refused || m.broken), refused);
      if k.Raised? { r := k; }
    }

    /** lpcall: catches Lua errors in the caller's own subtransaction, but never a PostgreSQL error, not
        even one that a Lua error has since taken the place of. */
    method LpCall(s: Stmt, ghost refused: bool) returns (r: Outcome)
      requires s.LPCall? && InLua(refused) && WellFormedIn(s)
      modifies this
      ensures var m := MeaningOf(s, refused);
              && InLua(refused || m.broken) && Agrees(r, m.out)
              && Moved(old(St()), St(), m, refused)
      // A body that ends normally is the whole call.
      ensures var m := Meaning(s.body, refused);
              m.out.Normal? ==> r.Fine? && Went(old(St()), St(), m.writes, m.log)
      // A PostgreSQL error, or a Lua error with one pending, goes on, and the failure code never runs.
      ensures var m := Meaning(s.body, refused);
              m.out.PgErr? || m.broken || (refused && !m.out.Normal?) ==>
                r.Raised? && r.e.PgObj? && Went(old(St()), St(), m.writes, m.log) && InLua(refused || m.broken)
      // Any other Lua error is caught: the failure code runs, and the body's writes stay.
      ensures var m, k := Meaning(s.body, refused), Meaning(s.onFail, false);
              m.out.LuaErr? && !m.broken && !refused ==>
                Agrees(r, k.out) && Went(old(St()), St(), m.writes + k.writes, m.log + k.log) && InLua(k.broken)
      decreases s, 2
    {
      ghost var s0 := St();
      r := Exec(s.body, refused);
      ghost var s1, m := St(), Meaning(s.body, refused);
      BrokenNeverNormal(s.body, refused);
      if r.Fine? { return; }
      if r.e.PgObj? { return; }
      if active.Some? { return Raised(PgObj(active.value)); }
      r := Exec(s.onFail, refused);
      MovedThen(s0, s1, St(), m, Meaning(s.onFail, refused), refused);
    }

    /** A function called through SQL, with an activation of its own: any error it leaves, of either
        kind, goes out to PostgreSQL and comes back as a PostgreSQL error. */
    method ExecNested(s: Stmt, ghost refused: bool) returns (r: Outcome)
      requires s.Nested? && InLua(refused) && WellFormedIn(s)
      modifies this
      ensures var m := MeaningOf(s, refused);
              && InLua(refused || m.broken) && Agrees(r, m.out)
              && Moved(old(St()), St(), m, refused)
      ensures refused ==> r == Raised(Msg) && St() == old(St())
      ensures var m := Meaning(s.body, false);
              !refused ==>
                && Went(old(St()), St(), m.writes, m.log) && InLua(!m.out.Normal?)
                && if m.out.Normal? then r.Fine? else r.Raised? && r.e.PgObj?
      decreases s, 2
    {
      MovedNowhere(St(), LuaErr, refused);
      var ok, oldctx := SetContext(true, PG);
      if !ok { return Raised(Msg); }
      assert MeaningOf(s, refused) == Entering(s);
      var mcxt, save := mcontext, active;
      active := None;
      var _, inner := SetContext(false, Lua);
      ghost var s0 := St();
      r := Exec(s.body, false);
      ghost var s1, m := St(), Meaning(s.body, false);
      var _, _ := SetContext(false, inner);
      active := save;
      if r.Fine? {
        BrokenNeverNormal(s.body, false);
        var _, _ := SetContext(false, oldctx);
        return;
      }
      var e := LeaveWith(r.e, mcxt, oldctx);
      r := Raised(e);
      MovedThen(s0, s1, St(), m, Mean(PgErr, [], true, []), false);
      assert m.writes + [] == m.writes && m.log + [] == m.log;
    }

    /** An error leaves a nested function for PostgreSQL, whose handler's cleanup forgets the pending
        error, and is caught again as a PostgreSQL error by the code that called into SQL. */
    method LeaveWith(inner: Err, mcxt: nat, oldctx: Context) returns (e: Err)
      requires context == PG && |levels| > 0 && oldctx == Lua && mcontext == mcxt
      requires forall k | 0 <= k < |levels| - 1 :: !levels[k].failed
      modifies this
      ensures InLua(true) && e.PgObj?
      ensures var n := |old(levels)| - 1;
              St() == old(St()).(levels := old(levels)[n := old(levels)[n].(failed := true)])
    {
      if inner.PgObj? { active := Some(inner.id); }
      PgFail();
      pending := false;
      var _, _ := SetContext(false, oldctx);
      e := RethrowFromPg(mcxt);
    }

    /** A pcall or xpcall, followed by the caller's code for a failed call. */
    method PCallThen(s: Stmt, ghost refused: bool) returns (r: Outcome)
      requires (s.PCall? || s.XPCall?) && InLua(refused) && WellFormedIn(s)
      modifies this
      ensures var m := MeaningOf(s, refused);
              && InLua(refused || m.broken) && Agrees(r, m.out)
              && Moved(old(St()), St(), m, refused)
      ensures refused ==> r == Raised(Msg) && St() == old(St())
      // A pcall commits its body and is done, or aborts it and runs the failure code, whatever the error.
      ensures var m := Meaning(s.body, false);
              !refused && s.PCall? && m.out.Normal? ==>
                r.Fine? && Went(old(St()), St(), m.writes, [Began] + m.log + [Committed]) && InLua(false)
      ensures var m, k := Meaning(s.body, false), Meaning(s.onFail, false);
              !refused && s.PCall? && !m.out.Normal? ==>
                && Agrees(r, k.out) && InLua(k.broken)
                && Went(old(St()), St(), k.writes, [Began] + m.log + [Aborted] + k.log)
      decreases s, 2
    {
      ghost var s0 := St();
      assert MeaningOf(s, refused) == if refused then Raise(LuaErr) else Recovering(Protected(s), s.onFail);
      MovedNowhere(s0, LuaErr, refused);
      var ok;
      ok, r := PCallGuts(s, refused);
      BrokenNeverNormal(s.body, false);
      if r.Fine? && !ok {
        ghost var s1, p := St(), Protected(s).0;
        r := Exec(s.onFail, false);
        MovedThen(s0, s1, St(), p, Meaning(s.onFail, false), refused);
      }
    }

    /** The guts of pcall and xpcall: runs the body in a subtransaction of its own. On return the stack of
        subtransactions, the resource owner and the memory context are those at entry. */
    method PCallGuts(s: Stmt, ghost refused: bool) returns (ok: bool, r: Outcome)
      requires (s.PCall? || s.XPCall?) && InLua(refused) && WellFormedIn(s)
      modifies this
      ensures refused ==> r == Raised(Msg) && St() == old(St()) && InLua(true)
      ensures !refused ==>
                var (m, good) := Protected(s);
                && InLua(m.broken) && ok == good && Agrees(r, m.out) && Moved(old(St()), St(), m, false)
      decreases s, 1
    {
      ghost var s0 := St();
      var oldcontext := mcontext;
      var allowed, _ := SetContext(true, PG);
      if !allowed { return false, Raised(Msg); }
      var xa := OpenXa(oldcontext);
      var _, prev := SetContext(false, Lua);
      assert EnteredFrom(s0, St()) && InLua(false);
      r := RunBody(s, xa, s0);
      var _, _ := SetContext(false, prev);
      ok, r := CloseXa(xa, r.Fine?, oldcontext);
    }

    /** xpcall. When its body fails with no PostgreSQL error pending, the failed subtransaction is aborted
        first, once, and the error function's writes land in the caller's own level; a PostgreSQL error
        raised within it goes on instead of being returned. With one pending, the error function runs
        while the failed subtransaction is still innermost, and nothing of it is left. */
    method XPCall(s: Stmt) returns (ok: bool, r: Outcome)
      requires s.XPCall? && InLua(false) && WellFormedIn(s)
      modifies this
      ensures ok <==> Meaning(s.body, false).out.Normal?
      ensures resowner == old(resowner) && mcontext == old(mcontext) && top == old(top)
      ensures var m, k := Meaning(s.body, false), Handling(s.handler, false);
              !ok && !m.broken ==>
                && log == old(log) + [Began] + m.log + [Aborted, Handled] + k.log
                && Gained(old(levels), levels, k.writes)
                && (r.Raised? <==> k.broken) && (r.Raised? ==> r.e.PgObj?) && InLua(k.broken)
      ensures var m := Meaning(s.body, false);
              !ok && m.broken ==>
                log == old(log) + [Began] + m.log + [Handled, Aborted] && levels == old(levels)
                  && r.Fine? && InLua(false)
      ensures var m := Meaning(s.body, false);
              ok ==> log == old(log) + [Began] + m.log + [Committed] && Gained(old(levels), levels, m.writes) && r.Fine?
      decreases s, 2
    {
      ghost var s0, m, p := St(), Meaning(s.body, false), Protected(s).0;
      ok, r := PCallGuts(s, false);
      assert s0.log + p.log == log;
      if !ok && m.broken {
        RefusedHandler(s.handler);
        assert p.log == [Began] + m.log + [Handled, Aborted];
        assert levels[|levels| - 1].writes == s0.levels[|levels| - 1].writes;
      } else if !ok {
        assert p.log == [Began] + m.log + [Aborted, Handled] + Handling(s.handler, false).log;
      } else {
        BrokenNeverNormal(s.body, false);
      }
    }

    /** The protected call proper: the body, and for an xpcall the error function at the point of error.
        Whichever way it goes, what is left to do to the subtransaction completes the meaning. */
    method RunBody(s: Stmt, xa: nat, ghost s0: State) returns (r: Outcome)
      requires (s.PCall? || s.XPCall?) && InLua(false) && WellFormedIn(s)
      requires EnteredFrom(s0, St()) && xa == |s0.xas| && !s0.levels[|s0.levels| - 1].failed
      modifies this
      ensures |xas| > xa && InLua(pending) && r.Fine? == Protected(s).1
      ensures xas[xa].onstack ==> top == Some(xa) && |levels| >= 2 && xas[xa].mcontext == s0.mcontext
      ensures r.Fine? ==> xas[xa].onstack && !pending && Moved(s0, CommittedState(St()), Protected(s).0, false)
      ensures r.Raised? && xas[xa].onstack ==> Moved(s0, AbortedState(St()), Protected(s).0, false)
      ensures r.Fine? || xas[xa].onstack ==> Protected(s).0.out.Normal? && !Protected(s).0.broken
      ensures r.Raised? && !xas[xa].onstack ==>
                && Moved(s0, St(), Protected(s).0, false) && (pending || Protected(s).0.out.Normal?)
                && pending == Protected(s).0.broken == Protected(s).0.out.PgErr?
      decreases s, 0
    {
      ghost var s1, m := St(), Meaning(s.body, false);
      r := Exec(s.body, false);
      ghost var s2 := St();
      AbortRestores(s0, s1, s2, m);
      if r.Fine? {
        BrokenNeverNormal(s.body, false);
        CommitKeeps(s0, s1, s2, m);
      } else if s.XPCall? {
        Intercept(s.handler, m.broken);
        ghost var k := Handling(s.handler, m.broken);
        if m.broken {
          RefusedHandler(s.handler);
          HandledInside(s1, s2, St(), m, k);
          AbortRestores(s0, s1, St(), m.(log := m.log + [Handled] + k.log));
          assert [Began] + (m.log + [Handled] + k.log) + [Aborted] == [Began] + m.log + [Handled] + k.log + [Aborted];
        } else {
          HandledOutside(s0, AbortedState(s2), St(), Mean(Normal, [], false, [Began] + m.log + [Aborted]), k);
        }
      }
    }

    method OpenXa(oldcontext: nat) returns (xa: nat)
      requires context == PG && Sound(false)
      modifies this`levels, this`resowner, this`mcontext, this`nextTok, this`log, this`xas, this`top
      ensures xa == |old(xas)| && (oldcontext == old(mcontext) ==> EnteredFrom(old(St()), St())) && Sound(false)
    {
      xa := |xas|;
      xas := xas + [Xa(top, false, resowner, oldcontext)];
      BeginInternalSubTransaction();
      xas, top := xas[xa := xas[xa].(onstack := true)], Some(xa);
    }

    /** Ends the subtransaction: commits it if the body succeeded, aborts it if that is still to be done,
        and otherwise looks for an error that the error function left to be thrown further. */
    method CloseXa(xa: nat, success: bool, oldcontext: nat) returns (ok: bool, r: Outcome)
      requires context == PG && xa < |xas| && |levels| > 0 && (active.Some? <==> pending)
      requires xas[xa].onstack ==> top == Some(xa) && |levels| >= 2 && xas[xa].mcontext == oldcontext
      requires !xas[xa].onstack ==> !success && Sound(pending)
      requires success ==> Sound(false) && !pending
      requires forall k | 0 <= k < |levels| - 1 :: !levels[k].failed
      modifies this
      ensures ok == success
      ensures old(xas)[xa].onstack ==> r == Fine && InLua(false)
      ensures old(xas)[xa].onstack ==> St() == if success then CommittedState(old(St())) else AbortedState(old(St()))
      ensures !old(xas)[xa].onstack ==> St() == old(St()) && InLua(old(pending))
      ensures !old(xas)[xa].onstack ==> r == if old(active).Some? then Raised(PgObj(old(active).value)) else Fine
    {
      ok, r := success, Fine;
      var rethrow := false;
      if success {
        ReleaseCurrentSubTransaction();
        mcontext, resowner, top := oldcontext, xas[xa].resowner, xas[xa].prev;
      } else if xas[xa].onstack {
        var _ := SubxactAbort();
      } else {
        rethrow := true;
      }
      var _, _ := SetContext(false, Lua);
      if success { return; }
      if rethrow {
        if active.Some? { r := Raised(PgObj(active.value)); }
      } else {
        active := None;
      }
    }

    /** The wrapper around an xpcall's error function. The first thing it does is to abort the failed
        subtransaction; if that is refused, because the error is a pending PostgreSQL error, the refusal
        is itself an error, which calls the wrapper again, this time straight to the error function. */
    method Intercept(h: Handler, ghost broken: bool)
      requires InLua(broken) && WellFormedHandler(h)
      requires top.Some? && top.value < |xas| && xas[top.value].onstack && |levels| >= 2
      modifies this
      ensures var k, s := Handling(h, broken), if broken then old(St()) else AbortedState(old(St()));
              InLua(broken || k.broken) && Moved(s.(log := s.log + [Handled]), St(), k, broken)
      decreases h, 2
    {
      var ok := SubxactAbort();
      if ok { active := None; }
      log := log + [Handled];
      RunHandler(h, broken);
    }

    /** Calls the user's error function with itself as its error handler. */
    method RunHandler(h: Handler, ghost refused: bool)
      requires InLua(refused) && WellFormedHandler(h)
      modifies this
      ensures var k := Handling(h, refused);
              InLua(refused || k.broken) && Moved(old(St()), St(), k, refused)
      // An error raised within the error function calls it again, in the state it has left.
      ensures h.NoMore? ==> St() == old(St())
      ensures h.Call? ==>
                var m := Meaning(h.code, refused);
                var k := Handling(h.next, refused || m.broken);
                if m.out.Normal? then Went(old(St()), St(), m.writes, m.log)
                else Went(old(St()), St(), m.writes + k.writes, m.log + k.log)
      decreases h, 1
    {
      ghost var s0 := St();
      if h.NoMore? { return; }
      var _, prev := SetContext(false, Lua);
      var r := Exec(h.code, refused);
      ghost var s1, m := St(), Meaning(h.code, refused);
      var _, _ := SetContext(false, prev);
      if r.Fine? { return; }
      RunHandler(h.next, refused || m.broken);
      MovedThen(s0, s1, St(), m, Handling(h.next, refused || m.broken), refused);
    }
  }

  /** A whole function run in a transaction of its own: what survives are the writes that were not inside
      an aborted subtransaction, none of them if the function ends with an error. */
  method RunFunction(prog: seq<Stmt>) returns (survivors: seq<int>, r: Outcome)
    requires WellFormed(prog)
    ensures match Meaning(prog, false).out
            case Normal => r.Fine?
            case LuaErr => r == Raised(Msg)
            case PgErr => r.Raised? && r.e.PgObj?
    ensures r.Fine? ==> survivors == Survivors(Meaning(prog, false).log)
    ensures r.Raised? ==> survivors == []
  {
    var session := new Session();
    r := session.Exec(prog, false);
    ExactlySurvivors(prog, false);
    assert [] + Meaning(prog, false).writes == Meaning(prog, false).writes;
    survivors := if r.Fine? then session.levels[0].writes else [];
  }
}
