/** Whole runs of catalog changes and lookups: what the answers show, which stay, and which never return. */
module TypeRuns {
  import opened Options
  import opened TypeCache

  /** The catalog changes, with everything flagged, or a type is looked up. */
  datatype Step = Change(catalog: map<Oid, Entry>, rank: map<Oid, nat>) | Ask(oid: Oid)

  // ---- What is said about a run ----

  /** The catalog after a number of steps. */
  ghost function CatalogAfter(c: map<Oid, Entry>, steps: seq<Step>): map<Oid, Entry> {
    if steps == [] then c
    else if steps[|steps| - 1].Change? then steps[|steps| - 1].catalog
    else CatalogAfter(c, steps[..|steps| - 1])
  }

  ghost function RankAfter(rank: map<Oid, nat>, steps: seq<Step>): map<Oid, nat> {
    if steps == [] then rank
    else if steps[|steps| - 1].Change? then steps[|steps| - 1].rank
    else RankAfter(rank, steps[..|steps| - 1])
  }

  /** The answer shows the type as the catalog has it. */
  ghost predicate Shows(r: TypeInfo?, oid: Oid, catalog: map<Oid, Entry>, rank: map<Oid, nat>) {
    if oid !in catalog then r == null
    else r != null && Ranked(catalog, rank) && r.tree == CatTree(catalog, rank, oid)
  }

  /** Every answer shows the catalog of its time. */
  ghost predicate AllFresh(c: map<Oid, Entry>, rank: map<Oid, nat>, steps: seq<Step>, answers: seq<TypeInfo?>) {
    && |answers| == |steps|
    && forall i | 0 <= i < |steps| && steps[i].Ask? ::
         Shows(answers[i], steps[i].oid, CatalogAfter(c, steps[..i]), RankAfter(rank, steps[..i]))
  }

  /** The j-th answer replaces the i-th, to the same question. */
  ghost predicate Replaces(steps: seq<Step>, answers: seq<TypeInfo?>, i: int, j: int) {
    && 0 <= i < j < |steps| == |answers| && steps[i].Ask? && steps[j] == steps[i]
    && answers[i] != null && answers[j] != answers[i]
  }

  /** An answer that has been replaced is never given again. */
  ghost predicate NoneReturns(steps: seq<Step>, answers: seq<TypeInfo?>) {
    forall i, j, k | Replaces(steps, answers, i, j) && j < k < |steps| && steps[k] == steps[i] ::
      answers[k] != answers[i]
  }

  /** The types of the object's tree are defined in c' as they are in c. */
  ghost predicate SameDefs(t: TypeInfo, c: map<Oid, Entry>, c': map<Oid, Entry>) {
    forall oid | InTree(t, oid) :: oid in c && oid in c' && c'[oid].def == c[oid].def
  }

  /** No change from a step on touches the object's tree as it is in c. */
  ghost predicate Untouched(t: TypeInfo, c: map<Oid, Entry>, steps: seq<Step>, start: nat) {
    forall j | start <= j < |steps| && steps[j].Change? :: SameDefs(t, c, steps[j].catalog)
  }

  /** An answer stays the answer for its type for as long as no change touches its tree. */
  ghost predicate AnswersStay(c: map<Oid, Entry>, steps: seq<Step>, answers: seq<TypeInfo?>) {
    && |answers| == |steps|
    && forall i, k | 0 <= i < k < |steps| && steps[i].Ask? && steps[k] == steps[i] ::
         StaysFrom(c, steps, answers, i, k)
  }

  ghost predicate StaysFrom(c: map<Oid, Entry>, steps: seq<Step>, answers: seq<TypeInfo?>, i: nat, k: nat)
    requires i < k < |steps| == |answers|
  {
    answers[i] != null && Untouched(answers[i], CatalogAfter(c, steps[..i]), steps[..k], i + 1) ==>
      answers[k] == answers[i]
  }

  /** So does an object that was intact at first. */
  ghost predicate FirstStay(m0: Moment, c: map<Oid, Entry>, steps: seq<Step>, answers: seq<TypeInfo?>) {
    && |answers| == |steps|
    && forall t, k | t in m0.all && 0 <= k < |steps| && steps[k] == Ask(t.oid) ::
         FirstStaysTo(m0, c, steps, answers, t, k)
  }

  ghost predicate FirstStaysTo(m0: Moment, c: map<Oid, Entry>, steps: seq<Step>, answers: seq<TypeInfo?>,
          t: TypeInfo, k: nat)
    requires k < |steps| == |answers|
  {
    Intact(t, m0.types, c) && Untouched(t, c, steps[..k], 0) ==> answers[k] == t
  }

  // ---- One step ----

  /** What one step does to the cache. */
  ghost predicate Stepped(step: Step, r: TypeInfo?, m: Moment, m': Moment, c: map<Oid, Entry>, c': map<Oid, Entry>) {
    match step
    case Change(catalog, _) => r == null && c' == catalog && m'.all == m.all && m'.types == m.types
    case Ask(oid) =>
      && c' == c && Kept(m, m', c)
      && (r == null ==> oid !in m'.types)
      && (r != null ==> oid in m'.types && m'.types[oid] == r && r.oid == oid && r in m'.all && Intact(r, m'.types, c))
      && (oid in m.types && Intact(m.types[oid], m.types, c) ==> r == m.types[oid])
  }

  method One(cache: Cache, step: Step) returns (r: TypeInfo?)
    requires cache.Valid() && (step.Change? ==> Ranked(step.catalog, step.rank))
    modifies cache, cache.all
    ensures cache.Valid() && forall t | t in cache.all && t !in old(cache.all) :: fresh(t)
    ensures Stepped(step, r, old(cache.Now()), cache.Now(), old(cache.catalog), cache.catalog)
    ensures cache.rank == if step.Change? then step.rank else old(cache.rank)
    ensures step.Ask? ==> Shows(r, step.oid, cache.catalog, cache.rank)
  {
    if step.Change? {
      cache.Invalidate(step.catalog, step.rank);
      r := null;
    } else {
      r := cache.Lookup(step.oid);
      assert r != null ==> cache.Sound(step.oid);
    }
  }

  /** The object is intact, in a catalog that defines the types of its tree as c does. */
  ghost predicate Holding(t: TypeInfo, c: map<Oid, Entry>, m: Moment, now: map<Oid, Entry>) {
    t in m.all && Intact(t, m.types, now) && SameDefs(t, c, now)
  }

  lemma HoldingStep(t: TypeInfo, c: map<Oid, Entry>, step: Step, r: TypeInfo?, m: Moment, m': Moment,
                    now: map<Oid, Entry>, now': map<Oid, Entry>)
    requires Stepped(step, r, m, m', now, now') && Holding(t, c, m, now)
    requires step.Change? ==> SameDefs(t, c, step.catalog)
    ensures Holding(t, c, m', now')
    ensures step.Ask? && step.oid == t.oid ==> r == t
  {
    if step.Change? {
      IntactElsewhere(t, m.types, now, now');
    }
  }

  /** The object is not, or not any more, the one that is cached for a type. */
  ghost predicate Gone(t: TypeInfo, oid: Oid, m: Moment) {
    t in m.all && !(oid in m.types && m.types[oid] == t)
  }

  lemma GoneStep(t: TypeInfo, oid: Oid, step: Step, r: TypeInfo?, m: Moment, m': Moment,
                 now: map<Oid, Entry>, now': map<Oid, Entry>)
    requires Stepped(step, r, m, m', now, now') && Gone(t, oid, m)
    ensures Gone(t, oid, m') && (step == Ask(oid) ==> r != t)
  {}

  lemma {:induction false} TreeKnown(t: TypeInfo, types: map<Oid, TypeInfo>, catalog: map<Oid, Entry>)
    requires Intact(t, types, catalog)
    ensures SameDefs(t, catalog, catalog)
    decreases t.tree
  {
    forall oid | InTree(t, oid) ensures oid in catalog {
      if oid != t.oid {
        var i, c :| t.Column(i, c) && InTree(c, oid);
        TreeKnown(c, types, catalog);
      }
    }
  }

  // ---- The history of a run ----

  /** Replaced answers are gone. */
  ghost predicate ReplacedGone(steps: seq<Step>, answers: seq<TypeInfo?>, m: Moment) {
    forall i, j | Replaces(steps, answers, i, j) :: Gone(answers[i], steps[i].oid, m)
  }

  /** All answers are objects of the cache, and the untouched ones are held. */
  ghost predicate AnswersHeld(c: map<Oid, Entry>, steps: seq<Step>, answers: seq<TypeInfo?>,
          m: Moment, now: map<Oid, Entry>)
  {
    |answers| == |steps| && forall i | 0 <= i < |steps| && steps[i].Ask? :: HeldFrom(c, steps, answers, m, now, i)
  }

  ghost predicate HeldFrom(c: map<Oid, Entry>, steps: seq<Step>, answers: seq<TypeInfo?>,
          m: Moment, now: map<Oid, Entry>, i: nat)
    requires i < |steps| == |answers| && steps[i].Ask?
  {
    answers[i] != null ==>
      && answers[i] in m.all && answers[i].oid == steps[i].oid
      && var before := CatalogAfter(c, steps[..i]);
         Untouched(answers[i], before, steps, i + 1) ==> Holding(answers[i], before, m, now)
  }

  /** Untouched objects of the start are held. */
  ghost predicate FirstHeld(m0: Moment, c: map<Oid, Entry>, steps: seq<Step>, m: Moment, now: map<Oid, Entry>) {
    forall t | t in m0.all && Intact(t, m0.types, c) && Untouched(t, c, steps, 0) :: Holding(t, c, m, now)
  }

  /** All that is said about a run, and what it needs to go on. */
  ghost predicate History(m0: Moment, c: map<Oid, Entry>, rank: map<Oid, nat>, steps: seq<Step>,
          answers: seq<TypeInfo?>,
                          m: Moment, now: map<Oid, Entry>) {
    && now == CatalogAfter(c, steps) && AllFresh(c, rank, steps, answers)
    && NoneReturns(steps, answers) && ReplacedGone(steps, answers, m)
    && AnswersStay(c, steps, answers) && AnswersHeld(c, steps, answers, m, now)
    && FirstStay(m0, c, steps, answers) && FirstHeld(m0, c, steps, m, now)
  }

  lemma HistoryStarts(m0: Moment, c: map<Oid, Entry>, rank: map<Oid, nat>)
    ensures History(m0, c, rank, [], [], m0, c)
  {
    forall t | t in m0.all && Intact(t, m0.types, c) ensures Holding(t, c, m0, c) { TreeKnown(t, m0.types, c); }
  }

  lemma HistoryOne(m0: Moment, c: map<Oid, Entry>, rank: map<Oid, nat>, steps: seq<Step>, answers: seq<TypeInfo?>,
                   step: Step, r: TypeInfo?, m: Moment, m': Moment, now: map<Oid, Entry>, now': map<Oid, Entry>)
    requires History(m0, c, rank, steps, answers, m, now) && Stepped(step, r, m, m', now, now')
    requires step.Ask? ==> Shows(r, step.oid, now, RankAfter(rank, steps))
    ensures History(m0, c, rank, steps + [step], answers + [r], m', now')
  {
    assert (steps + [step])[..|steps|] == steps;
    FreshOne(c, rank, steps, answers, step, r);
    forall i | 0 <= i < |steps| && steps[i].Ask? && answers[i] != null ensures answers[i] in m.all {
      assert HeldFrom(c, steps, answers, m, now, i);
    }
    GoneOne(steps, answers, step, r, m, m', now, now');
    HeldOne(c, steps, answers, step, r, m, m', now, now');
    FirstOne(m0, c, steps, answers, step, r, m, m', now, now');
  }

  lemma FirstOne(m0: Moment, c: map<Oid, Entry>, steps: seq<Step>, answers: seq<TypeInfo?>, step: Step, r: TypeInfo?,
                 m: Moment, m': Moment, now: map<Oid, Entry>, now': map<Oid, Entry>)
    requires Stepped(step, r, m, m', now, now')
    requires FirstStay(m0, c, steps, answers) && FirstHeld(m0, c, steps, m, now)
    ensures FirstStay(m0, c, steps + [step], answers + [r]) && FirstHeld(m0, c, steps + [step], m', now')
  {
    var steps', answers', n := steps + [step], answers + [r], |steps|;
    assert steps'[..n] == steps;
    forall t | t in m0.all && Intact(t, m0.types, c) && Untouched(t, c, steps', 0) ensures Holding(t, c, m', now') {
      assert Untouched(t, c, steps, 0) by {
        forall j | 0 <= j < n && steps[j].Change?
          ensures SameDefs(t, c, steps[j].catalog)
        {
          assert steps'[j] == steps[j];
        }
      }
      assert steps'[n] == step;
      HoldingStep(t, c, step, r, m, m', now, now');
    }
    forall t, k | t in m0.all && 0 <= k < |steps'| && steps'[k] == Ask(t.oid)
      ensures FirstStaysTo(m0, c, steps', answers', t, k)
    {
      if k < n {
        assert FirstStaysTo(m0, c, steps, answers, t, k) && steps'[..k] == steps[..k];
      } else if Intact(t, m0.types, c) && Untouched(t, c, steps, 0) {
        HoldingStep(t, c, step, r, m, m', now, now');
      }
    }
  }

  lemma FreshOne(c: map<Oid, Entry>, rank: map<Oid, nat>, steps: seq<Step>, answers: seq<TypeInfo?>,
          step: Step, r: TypeInfo?)
    requires AllFresh(c, rank, steps, answers)
    requires step.Ask? ==> Shows(r, step.oid, CatalogAfter(c, steps), RankAfter(rank, steps))
    ensures AllFresh(c, rank, steps + [step], answers + [r])
  {
    var steps', answers' := steps + [step], answers + [r];
    assert steps'[..|steps|] == steps;
    forall i | 0 <= i < |steps'| && steps'[i].Ask?
      ensures Shows(answers'[i], steps'[i].oid, CatalogAfter(c, steps'[..i]), RankAfter(rank, steps'[..i]))
    {
      if i < |steps| { assert steps'[..i] == steps[..i]; }
    }
  }

  lemma GoneOne(steps: seq<Step>, answers: seq<TypeInfo?>, step: Step, r: TypeInfo?, m: Moment, m': Moment,
                now: map<Oid, Entry>, now': map<Oid, Entry>)
    requires |answers| == |steps| && Stepped(step, r, m, m', now, now')
    requires NoneReturns(steps, answers) && ReplacedGone(steps, answers, m)
    requires forall i | 0 <= i < |steps| && steps[i].Ask? && answers[i] != null :: answers[i] in m.all
    ensures NoneReturns(steps + [step], answers + [r]) && ReplacedGone(steps + [step], answers + [r], m')
  {
    var steps', answers', n := steps + [step], answers + [r], |steps|;
    forall i, j | Replaces(steps', answers', i, j)
      ensures Gone(answers'[i], steps'[i].oid, m')
      ensures j < n && steps'[n] == steps'[i] ==> answers'[n] != answers'[i]
    {
      if j < n {
        assert Replaces(steps, answers, i, j);
        GoneStep(answers[i], steps[i].oid, step, r, m, m', now, now');
      }
    }
    forall i, j, k | Replaces(steps', answers', i, j) && j < k < |steps'| && steps'[k] == steps'[i]
      ensures answers'[k] != answers'[i]
    {
      if k < n { assert Replaces(steps, answers, i, j) && steps[k] == steps[i]; }
    }
  }

  lemma HeldOne(c: map<Oid, Entry>, steps: seq<Step>, answers: seq<TypeInfo?>, step: Step,
          r: TypeInfo?, m: Moment, m': Moment,
                now: map<Oid, Entry>, now': map<Oid, Entry>)
    requires Stepped(step, r, m, m', now, now') && now == CatalogAfter(c, steps)
    requires AnswersHeld(c, steps, answers, m, now) && AnswersStay(c, steps, answers)
    ensures AnswersHeld(c, steps + [step], answers + [r], m', now') && AnswersStay(c, steps + [step], answers + [r])
  {
    var steps', answers', n := steps + [step], answers + [r], |steps|;
    assert steps'[..n] == steps;
    forall i | 0 <= i < n && steps'[i].Ask?
      ensures HeldFrom(c, steps', answers', m', now', i)
      ensures steps'[n] == steps'[i] ==> StaysFrom(c, steps', answers', i, n)
    {
      StillHeld(c, steps, answers, step, r, m, m', now, now', i);
    }
    if step.Ask? && r != null { TreeKnown(r, m'.types, now); }
    assert step.Ask? ==> HeldFrom(c, steps', answers', m', now', n);
    forall i, k | 0 <= i < k < |steps'| && steps'[i].Ask? && steps'[k] == steps'[i]
      ensures StaysFrom(c, steps', answers', i, k)
    {
      if k < n {
        assert StaysFrom(c, steps, answers, i, k);
        assert steps'[..i] == steps[..i] && steps'[..k] == steps[..k];
      }
    }
  }

  lemma StillHeld(c: map<Oid, Entry>, steps: seq<Step>, answers: seq<TypeInfo?>, step: Step,
          r: TypeInfo?, m: Moment, m': Moment,
                  now: map<Oid, Entry>, now': map<Oid, Entry>, i: nat)
    requires Stepped(step, r, m, m', now, now') && |answers| == |steps|
    requires i < |steps| && steps[i].Ask? && HeldFrom(c, steps, answers, m, now, i)
    ensures HeldFrom(c, steps + [step], answers + [r], m', now', i)
    ensures step == steps[i] ==> StaysFrom(c, steps + [step], answers + [r], i, |steps|)
  {
    var steps', n := steps + [step], |steps|;
    assert steps'[..n] == steps && steps'[..i] == steps[..i];
    var before := CatalogAfter(c, steps[..i]);
    if answers[i] != null && Untouched(answers[i], before, steps, i + 1)
      && (step.Change? ==> SameDefs(answers[i], before, step.catalog)) {
      HoldingStep(answers[i], before, step, r, m, m', now, now');
    }
    if answers[i] != null && Untouched(answers[i], before, steps', i + 1) {
      forall j | i + 1 <= j < n && steps[j].Change? ensures SameDefs(answers[i], before, steps[j].catalog) {
        assert steps'[j] == steps[j];
      }
      assert step.Change? ==> steps'[n] == step;
    }
  }

  /** Over any run from any sound state of the cache: every answer shows the catalog of its time; what is
      cached, or has been answered, stays the answer while no change touches its tree; and an answer that
      has been replaced never returns. */
  method Run(cache: Cache, steps: seq<Step>) returns (answers: seq<TypeInfo?>)
    requires cache.Valid() && forall i | 0 <= i < |steps| && steps[i].Change? :: Ranked(steps[i].catalog, steps[i].rank)
    modifies cache, cache.all
    ensures cache.Valid()
    ensures AllFresh(old(cache.catalog), old(cache.rank), steps, answers)
    ensures FirstStay(old(cache.Now()), old(cache.catalog), steps, answers)
    ensures AnswersStay(old(cache.catalog), steps, answers)
    ensures NoneReturns(steps, answers)
  {
    answers := [];
    ghost var m0, c0, r0, all0 := cache.Now(), cache.catalog, cache.rank, cache.all;
    HistoryStarts(m0, c0, r0);
    for n := 0 to |steps|
      invariant cache.Valid() && forall t | t in cache.all && t !in all0 :: fresh(t)
      invariant cache.rank == RankAfter(r0, steps[..n])
      invariant History(m0, c0, r0, steps[..n], answers, cache.Now(), cache.catalog)
    {
      answers := Turn(cache, steps, n, answers, m0, c0, r0);
    }
    assert steps[..|steps|] == steps;
  }

  /** One turn of a run. */
  method Turn(cache: Cache, steps: seq<Step>, n: nat, answers: seq<TypeInfo?>,
              ghost m0: Moment, ghost c0: map<Oid, Entry>, ghost r0: map<Oid, nat>) returns (answers': seq<TypeInfo?>)
    requires cache.Valid() && n < |steps| && (steps[n].Change? ==> Ranked(steps[n].catalog, steps[n].rank))
    requires cache.rank == RankAfter(r0, steps[..n])
    requires History(m0, c0, r0, steps[..n], answers, cache.Now(), cache.catalog)
    modifies cache, cache.all
    ensures cache.Valid() && forall t | t in cache.all && t !in old(cache.all) :: fresh(t)
    ensures cache.rank == RankAfter(r0, steps[..n + 1])
    ensures History(m0, c0, r0, steps[..n + 1], answers', cache.Now(), cache.catalog)
  {
    ghost var m, now := cache.Now(), cache.catalog;
    var r := One(cache, steps[n]);
    assert steps[..n + 1] == steps[..n] + [steps[n]];
    assert steps[..n + 1][..n] == steps[..n];
    HistoryOne(m0, c0, r0, steps[..n], answers, steps[n], r, m, cache.Now(), now, cache.catalog);
    answers' := answers + [r];
  }
}
