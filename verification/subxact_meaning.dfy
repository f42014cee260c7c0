/** What programs of nested pcall, xpcall and lpcall mean: a small language of SQL writes, Lua errors,
PostgreSQL errors and protected calls, with a short recursive meaning. */
module SubxactMeaning {
  /** A statement of a Lua function. `onFail` is what the caller does when a protected call returns false.
      An xpcall's `handler` lists what its error function does the first, second, ... time it is called
      during one failure: an error raised within it calls it again. */
  datatype Handler = NoMore | Call(code: seq<Stmt>, next: Handler)

  datatype Stmt =
    | Write(x: int)
    | LuaError
    | PgError
    | RaiseOld
    | PCall(body: seq<Stmt>, onFail: seq<Stmt>)
    | XPCall(body: seq<Stmt>, handler: Handler, onFail: seq<Stmt>)
    | LPCall(body: seq<Stmt>, onFail: seq<Stmt>)
    | Closing(body: seq<Stmt>, closer: seq<Stmt>)
    | Nested(body: seq<Stmt>)

  /** How a piece of program ends: normally, with a Lua error, or with a PostgreSQL error object. */
  datatype Out = Normal | LuaErr | PgErr

  /** What PostgreSQL and the error function's caller see happening, in order. */
  datatype Event = Began | Wrote(x: int) | Committed | Aborted | Handled

  /** `broken` says that the innermost subtransaction at the end is one that has failed. */
  datatype Mean = Mean(out: Out, writes: seq<int>, broken: bool, log: seq<Event>)

  /** No to-be-closed variable is pending directly in `stmts` when one of them raises an error. */
  predicate NoClosing(stmts: seq<Stmt>)
    decreases stmts, 1
  {
    forall s | s in stmts :: NoClosingIn(s)
  }

  predicate NoClosingIn(s: Stmt)
    decreases s, 0
  {
    match s
    case PCall(_, f) => NoClosing(f)
    case XPCall(_, _, f) => NoClosing(f)
    case LPCall(_, f) => NoClosing(f)
    case Closing(_, _) => false
    case _ => true
  }

  /** An xpcall's body and error function hold no to-be-closed variables of their own. */
  predicate WellFormed(stmts: seq<Stmt>)
    decreases stmts, 1
  {
    forall s | s in stmts :: WellFormedIn(s)
  }

  predicate WellFormedIn(s: Stmt)
    decreases s, 0
  {
    match s
    case PCall(b, f) => WellFormed(b) && WellFormed(f)
    case XPCall(b, h, f) => NoClosing(b) && WellFormed(b) && WellFormed(f) && WellFormedHandler(h)
    case LPCall(b, f) => WellFormed(b) && WellFormed(f)
    case Closing(b, c) => WellFormed(b) && WellFormed(c)
    case Nested(b) => WellFormed(b)
    case _ => true
  }

  predicate WellFormedHandler(h: Handler)
    decreases h, 1
  {
    h.Call? ==> NoClosing(h.code) && WellFormed(h.code) && WellFormedHandler(h.next)
  }

  function Raise(o: Out): Mean { Mean(o, [], false, []) }

  function Then(a: Mean, b: Mean): Mean {
    Mean(b.out, a.writes + b.writes, a.broken || b.broken, a.log + b.log)
  }

  /** The meaning of a statement list. `refused` says that it starts with a failed subtransaction
      innermost, so that nothing may enter PostgreSQL. */
  function Meaning(stmts: seq<Stmt>, refused: bool): Mean
    decreases stmts, 1
  {
    if stmts == [] then Raise(Normal)
    else
      var a := MeaningOf(stmts[0], refused);
      if a.out.Normal? then Then(a, Meaning(stmts[1..], refused)) else a
  }

  function MeaningOf(s: Stmt, refused: bool): Mean
    decreases s, 2
  {
    match s
    case LuaError => Raise(LuaErr)
    case RaiseOld => Raise(PgErr)
    case Closing(b, c) =>
      var m := Meaning(b, refused);
      var k := Meaning(c, refused || m.broken);
      Then(m, k).(out := if k.out.Normal? then m.out else k.out)
    case LPCall(b, f) =>
      var m := Meaning(b, refused);
      if m.out.Normal? then m
      else if m.out.PgErr? || m.broken || refused then m.(out := PgErr)
      else Then(m, Meaning(f, refused))
    case _ => if refused then Raise(LuaErr) else Entering(s)
  }

  /** The statements that enter PostgreSQL. */
  function Entering(s: Stmt): Mean
    requires s.Write? || s.PgError? || s.Nested? || s.PCall? || s.XPCall?
    decreases s, 1
  {
    match s
    case Write(x) => Mean(Normal, [x], false, [Wrote(x)])
    case PgError => Mean(PgErr, [], true, [])
    case Nested(b) =>
      var m := Meaning(b, false);
      if m.out.Normal? then m else m.(out := PgErr, broken := true)
    case PCall(b, f) => Recovering(Protected(s), f)
    case XPCall(b, h, f) => Recovering(Protected(s), f)
  }

  /** The subtransaction of a pcall or xpcall, and whether it succeeds. */
  function Protected(s: Stmt): (Mean, bool)
    requires s.PCall? || s.XPCall?
    decreases s, 0
  {
    var m := Meaning(s.body, false);
    if m.out.Normal? then (m.(log := [Began] + m.log + [Committed]), true)
    else if s.PCall? then (Mean(Normal, [], false, [Began] + m.log + [Aborted]), false)
    else if m.broken then
      // The error function runs while the failed subtransaction is still innermost.
      var k := Handling(s.handler, true);
      (Mean(Normal, [], false, [Began] + m.log + [Handled] + k.log + [Aborted]), false)
    else
      var k := Handling(s.handler, false);
      var o := if k.broken then PgErr else Normal;
      (Mean(o, k.writes, k.broken, [Began] + m.log + [Aborted] + [Handled] + k.log), false)
  }

  /** What follows a protected call: on failure, unless the error goes on, the caller's own code. */
  function Recovering(p: (Mean, bool), f: seq<Stmt>): Mean
    decreases f, 2
  {
    if p.0.out.Normal? && !p.1 then Then(p.0, Meaning(f, false)) else p.0
  }

  /** The error function, called again for every error raised within it. */
  function Handling(h: Handler, refused: bool): Mean
    decreases h, 1
  {
    if h.NoMore? then Raise(Normal)
    else
      var m := Meaning(h.code, refused);
      if m.out.Normal? then m else Then(m, Handling(h.next, refused || m.broken)).(out := Normal)
  }

  // ---- Laws ----

  /** The writes pending at each nesting level, the innermost on top. */
  datatype Pending = Ground | Above(below: Pending, writes: seq<int>)

  /** What PostgreSQL keeps of a log; nothing if the log ends a level that it has not begun. */
  function Replay(levels: Pending, log: seq<Event>): Pending
    decreases |log|
  {
    if log == [] then levels else Replay(Apply(levels, log[0]), log[1..])
  }

  function Apply(levels: Pending, e: Event): Pending {
    if levels.Ground? then Ground
    else match e
      case Began => Above(levels, [])
      case Wrote(x) => Above(levels.below, levels.writes + [x])
      case Committed => if levels.below.Ground? then Ground
        else Above(levels.below.below, levels.below.writes + levels.writes)
      case Aborted => levels.below
      case Handled => levels
  }

  lemma {:induction false} ReplayAppend(levels: Pending, a: seq<Event>, b: seq<Event>)
    ensures Replay(levels, a + b) == Replay(Replay(levels, a), b)
    decreases |a|
  {
    if a == [] {
      assert a + b == b;
    } else {
      assert (a + b)[1..] == a[1..] + b;
      ReplayAppend(Apply(levels, a[0]), a[1..], b);
    }
  }

  /** Where nothing may enter PostgreSQL, nothing is written and no subtransaction is touched. */
  lemma {:induction false} RefusedIsInert(stmts: seq<Stmt>)
    ensures var m := Meaning(stmts, true); m.writes == [] && m.log == [] && !m.broken
    decreases stmts, 1
  {
    if stmts != [] {
      RefusedOne(stmts[0]);
      RefusedIsInert(stmts[1..]);
    }
  }

  lemma {:induction false} RefusedOne(s: Stmt)
    ensures var m := MeaningOf(s, true); m.writes == [] && m.log == [] && !m.broken
    decreases s, 0
  {
    match s
    case Closing(b, c) => RefusedIsInert(b); RefusedIsInert(c);
    case LPCall(b, f) => RefusedIsInert(b); RefusedIsInert(f);
    case _ =>
  }

  lemma {:induction false} RefusedHandler(h: Handler)
    ensures var m := Handling(h, true); m.writes == [] && m.log == [] && !m.broken
    decreases h
  {
    if h.Call? {
      RefusedIsInert(h.code);
      RefusedHandler(h.next);
    }
  }

  /** A program never carries on normally in a failed subtransaction: whenever one is left innermost,
      the program ends with an error. */
  lemma {:induction false} BrokenNeverNormal(stmts: seq<Stmt>, refused: bool)
    ensures Meaning(stmts, refused).broken ==> !Meaning(stmts, refused).out.Normal?
    decreases stmts, 1
  {
    if stmts != [] {
      BrokenOneNeverNormal(stmts[0], refused);
      BrokenNeverNormal(stmts[1..], refused);
    }
  }

  lemma {:induction false} BrokenOneNeverNormal(s: Stmt, refused: bool)
    ensures MeaningOf(s, refused).broken ==> !MeaningOf(s, refused).out.Normal?
    decreases s, 0
  {
    match s
    case Closing(b, c) => BrokenNeverNormal(b, refused); BrokenNeverNormal(c, refused || Meaning(b, refused).broken);
    case LPCall(b, f) => BrokenNeverNormal(b, refused); BrokenNeverNormal(f, refused);
    case Nested(b) => BrokenNeverNormal(b, false);
    case PCall(b, f) =>
      BrokenNeverNormal(b, false);
      BrokenNeverNormal(f, false);
      assert refused || MeaningOf(s, refused) == Recovering(Protected(s), f);
    case XPCall(b, h, f) =>
      BrokenNeverNormal(b, false);
      BrokenNeverNormal(f, false);
      assert refused || MeaningOf(s, refused) == Recovering(Protected(s), f);
    case _ =>
  }

  /** The surviving writes are those that PostgreSQL keeps when it reads the log: everything written
      since a subtransaction began goes when that subtransaction is aborted, and nothing else goes. */
  lemma {:induction false} SurvivingWrites(outer: Pending, cur: seq<int>, stmts: seq<Stmt>, refused: bool)
    ensures var m := Meaning(stmts, refused); Replay(Above(outer, cur), m.log) == Above(outer, cur + m.writes)
    decreases stmts, 1
  {
    if stmts == [] {
      assert cur + [] == cur;
    } else {
      var a := MeaningOf(stmts[0], refused);
      SurvivingOne(outer, cur, stmts[0], refused);
      if a.out.Normal? {
        SurvivingWrites(outer, cur + a.writes, stmts[1..], refused);
        Join(outer, cur, a, Meaning(stmts[1..], refused));
      }
    }
  }

  /** Logs of consecutive pieces replay one after the other. */
  lemma Join(outer: Pending, cur: seq<int>, a: Mean, b: Mean)
    requires Replay(Above(outer, cur), a.log) == Above(outer, cur + a.writes)
    requires Replay(Above(outer, cur + a.writes), b.log) == Above(outer, cur + a.writes + b.writes)
    ensures Replay(Above(outer, cur), a.log + b.log) == Above(outer, cur + (a.writes + b.writes))
  {
    ReplayAppend(Above(outer, cur), a.log, b.log);
    assert cur + a.writes + b.writes == cur + (a.writes + b.writes);
  }

  /** What a subtransaction's own log leaves once it is committed or aborted. */
  lemma Enclosed(outer: Pending, cur: seq<int>, m: Mean, end: Event)
    requires Replay(Above(Above(outer, cur), []), m.log) == Above(Above(outer, cur), [] + m.writes)
    requires end.Committed? || end.Aborted?
    ensures Replay(Above(outer, cur), [Began] + m.log + [end])
            == Above(outer, if end.Committed? then cur + m.writes else cur)
  {
    var levels := Above(outer, cur);
    ReplayAppend(levels, [Began], m.log);
    ReplayAppend(levels, [Began] + m.log, [end]);
    assert [Began][1..] == [] && [end][1..] == [];
    assert [] + m.writes == m.writes;
  }

  lemma {:induction false} SurvivingOne(outer: Pending, cur: seq<int>, s: Stmt, refused: bool)
    ensures var m := MeaningOf(s, refused); Replay(Above(outer, cur), m.log) == Above(outer, cur + m.writes)
    decreases s, 1
  {
    assert cur + [] == cur;
    match s
    case Write(x) =>
      if !refused {
        assert [Wrote(x)][1..] == [];
      }
    case Closing(b, c) =>
      var m := Meaning(b, refused);
      SurvivingWrites(outer, cur, b, refused);
      SurvivingWrites(outer, cur + m.writes, c, refused || m.broken);
      Join(outer, cur, m, Meaning(c, refused || m.broken));
    case LPCall(b, f) =>
      var m := Meaning(b, refused);
      SurvivingWrites(outer, cur, b, refused);
      SurvivingWrites(outer, cur + m.writes, f, refused);
      Join(outer, cur, m, Meaning(f, refused));
    case Nested(b) => SurvivingWrites(outer, cur, b, false);
    case PCall(b, f) =>
      SurvivingProtected(outer, cur, s);
      SurvivingRecovery(outer, cur, Protected(s), f);
    case XPCall(b, h, f) =>
      SurvivingProtected(outer, cur, s);
      SurvivingRecovery(outer, cur, Protected(s), f);
    case _ =>
  }

  lemma {:induction false} SurvivingRecovery(outer: Pending, cur: seq<int>, p: (Mean, bool), f: seq<Stmt>)
    requires Replay(Above(outer, cur), p.0.log) == Above(outer, cur + p.0.writes)
    ensures var m := Recovering(p, f); Replay(Above(outer, cur), m.log) == Above(outer, cur + m.writes)
    decreases f, 2
  {
    if p.0.out.Normal? && !p.1 {
      SurvivingWrites(outer, cur + p.0.writes, f, false);
      Join(outer, cur, p.0, Meaning(f, false));
    }
  }

  lemma {:induction false} SurvivingProtected(outer: Pending, cur: seq<int>, s: Stmt)
    requires s.PCall? || s.XPCall?
    ensures var m := Protected(s).0; Replay(Above(outer, cur), m.log) == Above(outer, cur + m.writes)
    decreases s, 0
  {
    assert cur + [] == cur;
    var m := Meaning(s.body, false);
    SurvivingWrites(Above(outer, cur), [], s.body, false);
    if m.out.Normal? {
      Enclosed(outer, cur, m, Committed);
    } else if s.PCall? {
      Enclosed(outer, cur, m, Aborted);
    } else if m.broken {
      RefusedHandler(s.handler);
      EnclosedHandled(outer, cur, m);
    } else {
      var h := Handling(s.handler, false);
      Enclosed(outer, cur, m, Aborted);
      SurvivingHandler(outer, cur, s.handler, false);
      JoinHandler(outer, cur, [Began] + m.log + [Aborted], h);
    }
  }

  lemma {:induction false} SurvivingHandler(outer: Pending, cur: seq<int>, h: Handler, refused: bool)
    ensures var m := Handling(h, refused); Replay(Above(outer, cur), m.log) == Above(outer, cur + m.writes)
    decreases h, 0
  {
    if h.NoMore? {
      assert cur + [] == cur;
    } else {
      var m := Meaning(h.code, refused);
      SurvivingWrites(outer, cur, h.code, refused);
      SurvivingHandler(outer, cur + m.writes, h.next, refused || m.broken);
      Join(outer, cur, m, Handling(h.next, refused || m.broken));
    }
  }

  lemma JoinHandler(outer: Pending, cur: seq<int>, before: seq<Event>, h: Mean)
    requires Replay(Above(outer, cur), before) == Above(outer, cur)
    requires Replay(Above(outer, cur), h.log) == Above(outer, cur + h.writes)
    ensures Replay(Above(outer, cur), before + [Handled] + h.log) == Above(outer, cur + h.writes)
  {
    ReplayAppend(Above(outer, cur), before, [Handled]);
    ReplayAppend(Above(outer, cur), before + [Handled], h.log);
    assert [Handled][1..] == [];
  }

  lemma EnclosedHandled(outer: Pending, cur: seq<int>, m: Mean)
    requires Replay(Above(Above(outer, cur), []), m.log) == Above(Above(outer, cur), [] + m.writes)
    ensures Replay(Above(outer, cur), [Began] + m.log + [Handled] + [] + [Aborted]) == Above(outer, cur)
  {
    var levels := Above(outer, cur);
    ReplayAppend(Above(levels, []), m.log, [Handled]);
    assert [Handled][1..] == [];
    assert [Began] + m.log + [Handled] + [] + [Aborted] == [Began] + (m.log + [Handled]) + [Aborted];
    Enclosed(outer, cur, m.(log := m.log + [Handled]), Aborted);
  }

  /** Consecutive programs: the second runs in the state that the first leaves, if that ends normally, and
      otherwise not at all. */
  lemma {:induction false} InSequence(a: seq<Stmt>, b: seq<Stmt>, refused: bool)
    ensures var m := Meaning(a, refused);
            Meaning(a + b, refused) == if m.out.Normal? then Then(m, Meaning(b, refused)) else m
    decreases |a|
  {
    if a == [] {
      assert a + b == b;
      assert [] + Meaning(b, refused).writes == Meaning(b, refused).writes;
      assert [] + Meaning(b, refused).log == Meaning(b, refused).log;
    } else {
      assert (a + b)[1..] == a[1..] + b;
      InSequence(a[1..], b, refused);
      var x, y, z := MeaningOf(a[0], refused), Meaning(a[1..], refused), Meaning(b, refused);
      assert x.writes + (y.writes + z.writes) == (x.writes + y.writes) + z.writes;
      assert x.log + (y.log + z.log) == (x.log + y.log) + z.log;
    }
  }

  /** An lpcall lets every PostgreSQL error through, also one that a Lua error has taken the place of, and
      then never runs the failure code. */
  lemma NothingSwallowed(b: seq<Stmt>, f: seq<Stmt>, refused: bool)
    requires var m := Meaning(b, refused); m.out.PgErr? || m.broken
    ensures var m, r := Meaning(b, refused), Meaning([LPCall(b, f)], refused);
            r.out == PgErr && r.log == m.log && r.writes == m.writes && r.broken == m.broken
  {
    var s := LPCall(b, f);
    BrokenNeverNormal(b, refused);
    assert [s][0] == s && [s] != [] && MeaningOf(s, refused) == Meaning(b, refused).(out := PgErr);
  }

  // ---- The same, write by write ----

  /** Whether the level d levels out is aborted in the course of a log; committing a level makes it part
      of the next one out. */
  predicate Killed(log: seq<Event>, d: nat)
    decreases |log|
  {
    if log == [] then false
    else match log[0]
      case Began => Killed(log[1..], d + 1)
      case Committed => Killed(log[1..], if d == 0 then 0 else d - 1)
      case Aborted => d == 0 || Killed(log[1..], d - 1)
      case _ => Killed(log[1..], d)
  }

  /** The writes of a log for which no subtransaction around them is aborted. */
  function Survivors(log: seq<Event>): seq<int>
    decreases |log|
  {
    if log == [] then []
    else (if log[0].Wrote? && !Killed(log[1..], 0) then [log[0].x] else []) + Survivors(log[1..])
  }

  /** What is left of writes already pending, the top level being d levels out. */
  function Alive(levels: Pending, log: seq<Event>, d: nat): seq<int> {
    if levels.Ground? then []
    else Alive(levels.below, log, d + 1) + if Killed(log, d) then [] else levels.writes
  }

  /** How an event changes how far out a level is. */
  ghost predicate Shifts(e: Event, d: nat, d': nat) {
    match e
    case Began => d' == d + 1
    case Committed => d == d' + 1
    case Aborted => d == d' + 1
    case _ => d' == d
  }

  lemma {:induction false} AliveLater(levels: Pending, log: seq<Event>, d: nat, d': nat)
    requires log != [] && Shifts(log[0], d, d')
    ensures Alive(levels, log, d) == Alive(levels, log[1..], d')
  {
    if !levels.Ground? { AliveLater(levels.below, log, d + 1, d' + 1); }
  }

  /** What the first event of a log does to what is alive in the end. */
  lemma AliveStep(levels: Pending, log: seq<Event>)
    requires log != [] && Apply(levels, log[0]) != Ground
    ensures Alive(Apply(levels, log[0]), log[1..], 0)
         == Alive(levels, log, 0) + if log[0].Wrote? && !Killed(log[1..], 0) then [log[0].x] else []
  {
    match log[0]
    case Began => AliveLater(levels, log, 0, 1);
    case Wrote(x) => AliveLater(levels.below, log, 1, 1);
    case Committed => AliveLater(levels.below.below, log, 2, 1);
    case Aborted => AliveLater(levels.below, log, 1, 0);
    case Handled => AliveLater(levels, log, 0, 0);
  }

  /** Replaying a log leaves what is still alive of before, and the log's survivors. */
  lemma {:induction false} ReplaySurvivors(levels: Pending, log: seq<Event>)
    requires Replay(levels, log) != Ground
    ensures Alive(Replay(levels, log), [], 0) == Alive(levels, log, 0) + Survivors(log)
    decreases |log|
  {
    if log != [] {
      if Apply(levels, log[0]) == Ground { ReplayNothing(log[1..]); }
      ReplaySurvivors(Apply(levels, log[0]), log[1..]);
      AliveStep(levels, log);
    }
  }

  lemma {:induction false} ReplayNothing(log: seq<Event>)
    ensures Replay(Ground, log) == Ground
    decreases |log|
  {
    if log != [] { ReplayNothing(log[1..]); }
  }

  /** The surviving writes of a program are exactly the writes that happened and were not inside a
      subtransaction that was aborted, in order. */
  lemma ExactlySurvivors(stmts: seq<Stmt>, refused: bool)
    ensures Meaning(stmts, refused).writes == Survivors(Meaning(stmts, refused).log)
  {
    var m := Meaning(stmts, refused);
    SurvivingWrites(Ground, [], stmts, refused);
    ReplaySurvivors(Above(Ground, []), m.log);
    assert [] + m.writes == m.writes;
  }

  // ---- xpcall ----

  /** The documented order does not hold for a body that fails with a PostgreSQL error: the error
      function's write is refused there, while after a Lua error it is kept. */
  lemma DocumentedOrderFails()
    ensures var h := Call([Write(3)], NoMore);
            && Meaning([XPCall([PgError], h, [])], false) == Mean(Normal, [], false, [Began, Handled, Aborted])
            && Meaning([XPCall([LuaError], h, [])], false)
                 == Mean(Normal, [3], false, [Began, Aborted, Handled, Wrote(3)])
  {
    var h := Call([Write(3)], NoMore);
    var w := [Write(3)];
    var b, l := [PgError], [LuaError];
    assert w[1..] == [] && Meaning(w, true) == Raise(LuaErr)
      && MeaningOf(Write(3), false) == Mean(Normal, [3], false, [Wrote(3)]);
    assert Meaning(w[1..], false) == Raise(Normal);
    assert Meaning(w, false) == Mean(Normal, [3], false, [Wrote(3)]);
    assert Meaning(b, false) == Mean(PgErr, [], true, []) && Meaning(l, false) == Raise(LuaErr);
    assert Handling(NoMore, true) == Raise(Normal);
    assert Handling(h, true) == Raise(Normal) && Handling(h, false) == Meaning(w, false);
    var s, t := XPCall(b, h, []), XPCall(l, h, []);
    assert Meaning(s.onFail, false) == Raise(Normal);
    assert Protected(s).0.log == [Began, Handled, Aborted] && Protected(t).0.log == [Began, Aborted, Handled, Wrote(3)];
    assert MeaningOf(s, false) == Recovering(Protected(s), []) && MeaningOf(t, false) == Recovering(Protected(t), []);
    assert [s][1..] == [] && [t][1..] == [];
    assert Meaning([s][1..], false) == Raise(Normal);
  }
}
