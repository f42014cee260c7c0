/** Compiled functions and the activations that use them, while compiling runs user code that may change
the catalog and call functions itself. */
module FunctionCache {
  import opened Options

  type Oid = nat

  /** A call site: a function-manager lookup of one function. */
  datatype Site = Site(id: nat, oid: Oid)

  /** What user code run by a compile does next: something changes what the catalog says of a function
      (a new version, an old one again after a rollback, or nothing any more), a function is called from
      a call site and its error is caught or not, the code fails, or the code ends. */
  datatype Event = Edit(oid: Oid, version: Option<int>) | Enter(site: Site, caught: bool) | Fail | Done

  /** How often the catalog entry of a function is changed. */
  function Edits(tape: seq<Event>, oid: Oid): nat {
    if tape == [] then 0
    else (if tape[0].Edit? && tape[0].oid == oid then 1 else 0) + Edits(tape[1..], oid)
  }

  /** Each change of the entry counts once, nothing else does. */
  lemma {:induction false} EditsAppend(a: seq<Event>, b: seq<Event>, oid: Oid)
    ensures Edits(a + b, oid) == Edits(a, oid) + Edits(b, oid)
    ensures forall v :: Edits([Edit(oid, v)], oid) == 1
    ensures forall e: Event | !(e.Edit? && e.oid == oid) :: Edits([e], oid) == 0
  {
    if a == [] {
      assert a + b == b;
    } else {
      assert (a + b)[1..] == a[1..] + b;
      EditsAppend(a[1..], b, oid);
    }
  }

  ghost predicate EndsWith(tape: seq<Event>, rest: seq<Event>) {
    |rest| <= |tape| && tape[|tape| - |rest|..] == rest
  }

  lemma {:induction false} EditsLeft(tape: seq<Event>, rest: seq<Event>, oid: Oid)
    requires EndsWith(tape, rest)
    ensures Edits(rest, oid) <= Edits(tape, oid)
    decreases |tape|
  {
    if |rest| < |tape| {
      assert tape[1..][|tape| - 1 - |rest|..] == rest;
      EditsLeft(tape[1..], rest, oid);
    } else {
      assert tape[0..] == tape;
    }
  }

  /** A function as loaded from one version of its catalog entry. */
  class FuncInfo {
    const oid: Oid
    const version: int
    constructor (oid: Oid, version: int)
      ensures this.oid == oid && this.version == version
    {
      this.oid, this.version := oid, version;
    }
  }

  /** What a call site keeps between calls: the function, a reference that keeps it alive, and argument
      and result types resolved from a function. */
  class Activation {
    const oid: Oid
    var funcInfo: FuncInfo?
    var held: FuncInfo?
    var resolved: bool
    var resolvedFrom: FuncInfo?

    constructor (oid: Oid)
      ensures this.oid == oid && funcInfo == null && !resolved
    {
      this.oid, funcInfo, held, resolved, resolvedFrom := oid, null, null, false, null;
    }

    /** The function is kept alive, and resolved types belong to it. */
    ghost predicate Sound()
      reads this
    {
      funcInfo != null ==> held == funcInfo && funcInfo.oid == oid && (resolved ==> resolvedFrom == funcInfo)
    }

    /** Points the activation to another function. */
    method Set(f: FuncInfo)
      modifies this
      ensures funcInfo == held == f && !resolved
    {
      funcInfo, resolved := f, false;
      held := f;
    }

    method Resolve(f: FuncInfo)
      modifies this`resolved, this`resolvedFrom
      ensures resolved
      ensures if old(resolved) then resolvedFrom == old(resolvedFrom) else resolvedFrom == f
    {
      if resolved { return; }
      resolvedFrom, resolved := f, true;
    }
  }

  /** Whether a function is an up-to-date compile of a catalog row. */
  predicate FunctionValid(f: FuncInfo?, procTup: int) { f != null && f.version == procTup }

  /** The catalog and the table of compiled functions. */
  datatype Tables = Tables(catalog: map<Oid, int>, funcs: map<Oid, FuncInfo>)

  /** If the function is in the table, it is compiled from the catalog's version. */
  ghost predicate Current(v: Tables, oid: Oid) {
    oid in v.funcs ==> oid in v.catalog && FunctionValid(v.funcs[oid], v.catalog[oid])
  }

  /** Between two moments: functions whose catalog entries were not changed are as current as before. */
  ghost predicate Kept(tape: seq<Event>, v: Tables, tape': seq<Event>, v': Tables) {
    && EndsWith(tape, tape')
    && forall oid | Edits(tape', oid) == Edits(tape, oid) ::
         (oid in v.catalog <==> oid in v'.catalog) && (oid in v.catalog ==> v'.catalog[oid] == v.catalog[oid])
         && (Current(v, oid) ==> Current(v', oid))
  }

  lemma KeptTrans(tape: seq<Event>, v: Tables, tape': seq<Event>, v': Tables, tape'': seq<Event>, v'': Tables)
    requires Kept(tape, v, tape', v') && Kept(tape', v', tape'', v'')
    ensures Kept(tape, v, tape'', v'')
  {
    assert tape[|tape| - |tape'|..][|tape'| - |tape''|..] == tape[|tape| - |tape''|..];
    forall oid | Edits(tape'', oid) == Edits(tape, oid) ensures Edits(tape', oid) == Edits(tape, oid) {
      EditsLeft(tape, tape', oid);
      EditsLeft(tape', tape'', oid);
    }
  }

  /** Entering a compile of what was the catalog's version keeps what was kept. */
  lemma InternKept(tape: seq<Event>, v: Tables, tape': seq<Event>, v': Tables, f: FuncInfo)
    requires Kept(tape, v, tape', v') && f.oid in v.catalog && FunctionValid(f, v.catalog[f.oid])
    ensures Kept(tape, v, tape', v'.(funcs := if f.oid in v'.funcs then v'.funcs else v'.funcs[f.oid := f]))
  {}

  /** Activations stay with their call sites. */
  ghost predicate Grown(acts: map<Site, Activation>, acts': map<Site, Activation>) {
    forall s | s in acts :: s in acts' && acts'[s] == acts[s]
  }

  class Cache {
    var catalog: map<Oid, int>
    var funcs: map<Oid, FuncInfo>
    var acts: map<Site, Activation>

    ghost predicate Valid()
      reads this, acts.Values
    {
      && (forall oid | oid in funcs :: funcs[oid].oid == oid)
      && (forall s | s in acts :: acts[s].oid == s.oid && acts[s].Sound())
    }

    ghost function View(): Tables
      reads this
    {
      Tables(catalog, funcs)
    }

    /** Enters a function into the table unless there is one already; null removes the entry. */
    method Intern(f: FuncInfo?, oid: Oid) returns (stored: bool)
      requires f != null ==> f.oid == oid
      modifies this`funcs
      ensures stored <==> f == null || oid !in old(funcs)
      ensures funcs == if f == null then old(funcs) - {oid}
                       else if oid in old(funcs) then old(funcs)
                       else old(funcs)[oid := f]
    {
      if f == null {
        funcs := funcs - {oid};
        return true;
      }
      if oid in funcs { return false; }
      funcs := funcs[oid := f];
      stored := true;
    }

    /** Gives the activation of a call site, with a function that is a compile of what the catalog says at
        the time, held by the activation and with its types resolved from it; null stands for an error.
        Each turn of the loop after the second takes a change of the function's catalog entry. */
    method ValidateAndPush(site: Site, tape: seq<Event>) returns (act: Activation?, tape': seq<Event>, turns: nat)
      requires Valid()
      modifies this, acts.Values
      ensures Valid() && Kept(tape, old(View()), tape', View())
      ensures Grown(old(acts), acts) && fresh(acts.Values - old(acts).Values)
      ensures act != null ==> site in acts && act == acts[site] && site.oid in catalog
      ensures act != null ==> act.funcInfo != null && act.funcInfo.version == catalog[site.oid]
      ensures act != null ==> act.funcInfo.oid == site.oid
      ensures act != null ==> act.held == act.funcInfo && act.resolved && act.resolvedFrom == act.funcInfo
      ensures turns <= 2 + Edits(tape, site.oid) - Edits(tape', site.oid)
      decreases |tape|, 3
    {
      var oid := site.oid;
      if site !in acts {
        var a := new Activation(oid);
        acts := acts[site := a];
      }
      act := acts[site];
      var found;
      found, tape', turns := FindFunction(site, act, tape);
      if !found { return null, tape', turns; }
      act.Resolve(act.funcInfo);
    }

    /** The loop: until the activation's function is an up-to-date compile. */
    method FindFunction(site: Site, act: Activation, tape: seq<Event>)
        returns (found: bool, tape': seq<Event>, turns: nat)
      requires Valid() && site in acts && act == acts[site]
      modifies this, acts.Values
      ensures Valid() && Kept(tape, old(View()), tape', View())
      ensures Grown(old(acts), acts) && fresh(acts.Values - old(acts).Values)
      ensures found ==> site.oid in catalog && act.funcInfo != null && act.funcInfo.version == catalog[site.oid]
      ensures turns <= 2 + Edits(tape, site.oid) - Edits(tape', site.oid)
      decreases |tape|, 2
    {
      var oid := site.oid;
      tape', turns := tape, 0;
      ghost var v := View();
      while true
        invariant Valid() && Kept(tape, v, tape', View())
        invariant Grown(old(acts), acts) && fresh(acts.Values - old(acts).Values)
        invariant var edits := Edits(tape, oid) - Edits(tape', oid);
                  turns <= edits || (turns == edits + 1 && oid in funcs && Current(View(), oid))
        decreases |tape'|
      {
        EditsLeft(tape, tape', oid);
        turns := turns + 1;
        if oid !in catalog { return false, tape', turns; }
        var procTup := catalog[oid];
        if FunctionValid(act.funcInfo, procTup) { return true, tape', turns; }
        if oid in funcs && FunctionValid(funcs[oid], procTup) {
          act.Set(funcs[oid]);
          return true, tape', turns;
        }
        var ok;
        ghost var tape0, v0, acts0 := tape', View(), acts.Values;
        ok, tape' := Recompile(site, act, procTup, tape');
        assert acts.Values - old(acts).Values <= (acts.Values - acts0) + (acts0 - old(acts).Values);
        KeptTrans(tape, v, tape0, v0, tape', View());
        EditsLeft(tape0, tape', oid);
        EditsLeft(tape, tape', oid);
        if !ok { return false, tape', turns; }
      }
    }

    /** Removes what is out of date, compiles the function anew and enters it into the table, unless the
        code that was run has done so. */
    method Recompile(site: Site, act: Activation, procTup: int, tape: seq<Event>) returns (ok: bool, tape': seq<Event>)
      requires Valid() && site in acts && act == acts[site]
      requires site.oid in catalog && catalog[site.oid] == procTup
      requires site.oid in funcs ==> !FunctionValid(funcs[site.oid], procTup)
      modifies this, acts.Values
      ensures Valid() && Kept(tape, old(View()), tape', View())
      ensures Grown(old(acts), acts) && fresh(acts.Values - old(acts).Values)
      ensures ok ==> |tape'| < |tape| && site.oid in funcs
      ensures ok && Edits(tape', site.oid) == Edits(tape, site.oid) ==>
                site.oid in catalog && funcs[site.oid].version == catalog[site.oid]
      decreases |tape|, 1
    {
      var oid := site.oid;
      if oid in funcs {
        var _ := Intern(null, oid);
      }
      act.resolved := false;
      act.funcInfo := null;
      var info := new FuncInfo(oid, procTup);
      act.Resolve(info);
      ghost var v0 := View();
      assert Kept(tape, old(View()), tape, v0);
      ok, tape' := Compile(tape);
      ghost var v1 := View();
      KeptTrans(tape, old(View()), tape, v0, tape', v1);
      if !ok {
        act.resolved := false;
        return;
      }
      var _ := Intern(info, oid);
      InternKept(tape, old(View()), tape', v1, info);
    }

    /** Runs the user code of a compile. */
    method Compile(tape: seq<Event>) returns (ok: bool, tape': seq<Event>)
      requires Valid()
      modifies this, acts.Values
      ensures Valid() && Kept(tape, old(View()), tape', View())
      ensures Grown(old(acts), acts) && fresh(acts.Values - old(acts).Values)
      ensures ok ==> |tape'| < |tape|
      decreases |tape|, 0
    {
      tape' := tape;
      ghost var v := View();
      while tape' != []
        invariant Valid() && Kept(tape, v, tape', View())
        invariant Grown(old(acts), acts) && fresh(acts.Values - old(acts).Values)
        decreases |tape'|
      {
        var event := tape'[0];
        ghost var tape0, v0 := tape', View();
        tape' := tape'[1..];
        assert Kept(tape0, v0, tape', v0);
        if event.Edit? {
          catalog := if event.version.Some? then catalog[event.oid := event.version.value] else catalog - {event.oid};
          KeptTrans(tape, v, tape0, v0, tape', View());
        } else if event.Enter? {
          ghost var tape1 := tape';
          var act;
          var turns;
          ghost var acts0 := acts.Values;
          act, tape', turns := ValidateAndPush(event.site, tape');
          assert acts.Values - old(acts).Values <= (acts.Values - acts0) + (acts0 - old(acts).Values);
          KeptTrans(tape0, v0, tape1, v0, tape', View());
          KeptTrans(tape, v, tape0, v0, tape', View());
          if act == null && !event.caught { return false, tape'; }
        } else {
          KeptTrans(tape, v, tape0, v0, tape', View());
          return event.Done?, tape';
        }
      }
      ok := false;
    }
  }
}
