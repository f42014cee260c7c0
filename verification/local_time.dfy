/** Which UTC offset a local time has, and the carry between fields of a broken-down time. */
module LocalTime {
  import opened Options

  const SECS_PER_DAY := 86400

  /** The offset from UTC, in seconds, and whether it is daylight saving time (1 or 0). */
  datatype Rule = Rule(gmtoff: int, isdst: int)

  datatype Transition = Transition(at: int, rule: Rule)

  /** A time zone: the rule in force before its first transition, and its transitions in order. */
  datatype Zone = Zone(first: Rule, transitions: seq<Transition>)

  /** The rule in force before the i-th transition. */
  function Before(tz: Zone, i: nat): Rule
    requires i <= |tz.transitions|
  {
    if i == 0 then tz.first else tz.transitions[i - 1].rule
  }

  /** How many transitions have happened by time t. */
  function Passed(tz: Zone, t: int, n: nat): (i: nat)
    requires n <= |tz.transitions|
    ensures i <= n && (i > 0 ==> tz.transitions[i - 1].at <= t)
            && (i < n ==> forall j | i <= j < n :: tz.transitions[j].at > t)
  {
    if n == 0 then 0
    else if tz.transitions[n - 1].at <= t then n
    else Passed(tz, t, n - 1)
  }

  function RuleAt(tz: Zone, t: int): Rule {
    Before(tz, Passed(tz, t, |tz.transitions|))
  }

  /** Between two transitions the rule of the earlier is in force, before the first the zone's own. */
  lemma RuleInForce(tz: Zone, t: int, i: nat)
    requires Regular(tz) && i <= |tz.transitions|
    requires (i > 0 ==> tz.transitions[i - 1].at <= t) && (i < |tz.transitions| ==> t < tz.transitions[i].at)
    ensures RuleAt(tz, t) == if i == 0 then tz.first else tz.transitions[i - 1].rule
  {
    PassedIs(tz, t, |tz.transitions|, i);
  }

  /** What the resolution relies on: offsets under a day, transitions two days apart or more, each of
      them changing between standard and daylight saving time. */
  ghost predicate Regular(tz: Zone) {
    && (forall i | 0 <= i <= |tz.transitions| ::
          -SECS_PER_DAY < Before(tz, i).gmtoff < SECS_PER_DAY && Before(tz, i).isdst in {0, 1})
    && (forall i, j | 0 <= i < j < |tz.transitions| :: tz.transitions[i].at + 2 * SECS_PER_DAY <= tz.transitions[j].at)
    && forall i {:trigger Before(tz, i)} | 0 <= i < |tz.transitions| ::
         Before(tz, i).isdst != tz.transitions[i].rule.isdst
  }

  /** The next boundary after a time, as PostgreSQL's own function reports it. */
  datatype Boundary = NoBoundary(before: Rule) | NextBoundary(before: Rule, at: int, after: Rule)

  function NextDstBoundary(tz: Zone, t: int): Boundary {
    var i := Passed(tz, t, |tz.transitions|);
    if i == |tz.transitions| then NoBoundary(Before(tz, i))
    else NextBoundary(Before(tz, i), tz.transitions[i].at, tz.transitions[i].rule)
  }

  /** Clocks show `local` at the instant u. */
  ghost predicate Shows(tz: Zone, u: int, local: int) { u + RuleAt(tz, u).gmtoff == local }

  /** Clocks are set forward past `local` at the i-th transition. */
  ghost predicate Skips(tz: Zone, i: int, local: int) {
    0 <= i < |tz.transitions|
    && tz.transitions[i].at + Before(tz, i).gmtoff <= local < tz.transitions[i].at + tz.transitions[i].rule.gmtoff
  }

  lemma {:induction false} PassedIs(tz: Zone, t: int, n: nat, i: nat)
    requires Regular(tz) && i <= n <= |tz.transitions|
    requires (i > 0 ==> tz.transitions[i - 1].at <= t) && (i < n ==> t < tz.transitions[i].at)
    ensures Passed(tz, t, n) == i
  {
    if n > i {
      assert n > i + 1 ==> tz.transitions[i].at < tz.transitions[n - 1].at;
      PassedIs(tz, t, n - 1, i);
    }
  }

  /** Within two days of a time there is one boundary at most: the rule is the one before it or the one
      after it. */
  lemma NearBoundary(tz: Zone, prev: int, u: int)
    requires Regular(tz) && prev <= u < prev + 2 * SECS_PER_DAY
    ensures match NextDstBoundary(tz, prev)
            case NoBoundary(before) => RuleAt(tz, u) == before
            case NextBoundary(before, at, after) => prev < at && RuleAt(tz, u) == if u < at then before else after
  {
    var n := |tz.transitions|;
    var i := Passed(tz, prev, n);
    if i < n {
      assert tz.transitions[i].at > prev;
      assert i + 1 < n ==> tz.transitions[i].at + 2 * SECS_PER_DAY <= tz.transitions[i + 1].at;
      PassedIs(tz, u, n, if u < tz.transitions[i].at then i else i + 1);
    } else {
      PassedIs(tz, u, n, n);
    }
  }

  /** The rule in force at an instant near a boundary. */
  function RuleNear(b: Boundary, u: int): Rule {
    if b.NextBoundary? && u >= b.at then b.after else b.before
  }

  /** Clocks show `local` at the instant u, going by the rules around a boundary. */
  ghost predicate Candidate(b: Boundary, u: int, local: int) { u + RuleNear(b, u).gmtoff == local }

  /** The boundary found from a day before tells all the instants at which clocks show a local time. */
  lemma ShowsIsCandidate(tz: Zone, u: int, local: int)
    requires Regular(tz)
    ensures var b := NextDstBoundary(tz, local - SECS_PER_DAY);
            && (Shows(tz, u, local) <==> Candidate(b, u, local))
            && (Shows(tz, u, local) ==> RuleAt(tz, u) == RuleNear(b, u))
  {
    var prev := local - SECS_PER_DAY;
    var b := NextDstBoundary(tz, prev);
    var i := Passed(tz, prev, |tz.transitions|);
    assert b.before == Before(tz, i) && (b.NextBoundary? ==> b.after == Before(tz, i + 1));
    assert -SECS_PER_DAY < RuleAt(tz, u).gmtoff < SECS_PER_DAY;
    if prev <= u < prev + 2 * SECS_PER_DAY { NearBoundary(tz, prev, u); }
  }

  // ---- Resolving a local time ----

  /** A broken-down time; `day` counts days from the epoch, None if the date is out of range. */
  class Tm {
    var day: Option<int>
    var hour: int
    var min: int
    var sec: int
    var isdst: int

    ghost function Local(): int
      requires day.Some?
      reads this
    {
      day.value * SECS_PER_DAY + (hour * 60 + min) * 60 + sec
    }
  }

  /** A minute is 60 seconds, an hour 60 minutes, a day 24 hours, and the first day begins at 0. */
  lemma LocalCounts(a: Tm, b: Tm)
    requires a.day.Some? && b.day.Some?
    ensures a.day == Some(0) && a.hour == a.min == a.sec == 0 ==> a.Local() == 0
    ensures b.day == a.day && b.hour == a.hour && b.min == a.min ==> b.Local() - a.Local() == b.sec - a.sec
    ensures b.day == a.day && b.hour == a.hour && b.min == a.min + 1 && b.sec == a.sec - 60 ==> b.Local() == a.Local()
    ensures b.day == a.day && b.hour == a.hour + 1 && b.min == a.min - 60 && b.sec == a.sec ==> b.Local() == a.Local()
    ensures b.day.value == a.day.value + 1 && b.hour == a.hour - 24 && b.min == a.min && b.sec == a.sec ==>
              b.Local() == a.Local()
  {}

  ghost predicate OnlyCandidate(b: Boundary, u: int, local: int) {
    Candidate(b, u, local) && forall w | Candidate(b, w, local) :: w == u
  }

  ghost predicate NoCandidate(b: Boundary, local: int) { forall u :: !Candidate(b, u, local) }

  ghost predicate LastCandidate(b: Boundary, u: int, local: int) {
    Candidate(b, u, local) && forall w | Candidate(b, w, local) :: w <= u
  }

  /** The rule changed, clocks not being set forward, just when they would have come to `local`; and the
      flag is not that of the new rule. */
  ghost predicate StaleNear(b: Boundary, local: int, flag: int) {
    b.NextBoundary? && local == b.at + b.before.gmtoff && b.after.gmtoff <= b.before.gmtoff
    && flag != -1 && flag != b.after.isdst
  }

  /** The rule that a flag calls for; without a flag the earlier. */
  function ByFlag(before: Rule, after: Rule, flag: int): Rule {
    if flag == -1 || flag == before.isdst then before else after
  }

  /** The choice between the rules around a boundary that a local time and a flag call for. */
  ghost predicate Chosen(b: Boundary, local: int, flag: int, r: Rule, isdst: int) {
    && (flag != -1 ==> forall u {:trigger Candidate(b, u, local)} | Candidate(b, u, local) ::
          RuleNear(b, u).isdst == flag ==> r == RuleNear(b, u) && isdst == flag)
    && (flag != -1 ==> forall u {:trigger OnlyCandidate(b, u, local)} | OnlyCandidate(b, u, local) ::
          r.gmtoff == RuleNear(b, u).gmtoff && isdst == RuleNear(b, u).isdst <==> !StaleNear(b, local, flag))
    && (flag == -1 ==> forall u {:trigger LastCandidate(b, u, local)} | LastCandidate(b, u, local) ::
          r == RuleNear(b, u) && isdst == r.isdst)
    && (StaleNear(b, local, flag) ==> r == ByFlag(b.before, b.after, flag) && isdst == flag)
    && (NoCandidate(b, local) ==>
          b.NextBoundary? && b.at + b.before.gmtoff <= local < b.at + b.after.gmtoff
          && r == ByFlag(b.before, b.after, flag) && isdst == if flag == -1 then r.isdst else flag)
  }

  /** Chooses between the rules around a boundary. */
  method Choose(b: Boundary, mytime: int, flag: int) returns (r: Rule, isdst: int)
    requires b.NextBoundary? ==> b.before.isdst != b.after.isdst
    ensures Chosen(b, mytime, flag, r, isdst)
  {
    if b.NoBoundary? {
      assert Candidate(b, mytime - b.before.gmtoff, mytime);
      return b.before, b.before.isdst;
    }
    var beforetime := mytime - b.before.gmtoff;
    var aftertime := mytime - b.after.gmtoff;
    assert beforetime < b.at ==> Candidate(b, beforetime, mytime);
    assert aftertime >= b.at ==> Candidate(b, aftertime, mytime);
    if beforetime < b.at && aftertime < b.at {
      r, isdst := b.before, b.before.isdst;
    } else if beforetime > b.at && aftertime >= b.at {
      r, isdst := b.after, b.after.isdst;
    } else if flag == -1 {
      r := if beforetime > aftertime then b.before else b.after;
      isdst := r.isdst;
    } else {
      r, isdst := if flag == b.before.isdst then b.before else b.after, flag;
    }
  }

  ghost predicate OnlyShown(tz: Zone, u: int, local: int) {
    Shows(tz, u, local) && forall w | Shows(tz, w, local) :: w == u
  }

  ghost predicate LastShown(tz: Zone, u: int, local: int) {
    Shows(tz, u, local) && forall w | Shows(tz, w, local) :: w <= u
  }

  /** The rule changed at the i-th transition, clocks not being set forward, just when they would have come
      to `local`; and the flag is not that of the new rule. */
  ghost predicate StaleAt(tz: Zone, i: int, local: int, flag: int) {
    0 <= i < |tz.transitions| && local == tz.transitions[i].at + Before(tz, i).gmtoff
    && tz.transitions[i].rule.gmtoff <= Before(tz, i).gmtoff
    && flag != -1 && flag != tz.transitions[i].rule.isdst
  }

  ghost predicate Stale(tz: Zone, local: int, flag: int) { exists i :: StaleAt(tz, i, local, flag) }

  ghost predicate NeverShown(tz: Zone, local: int) { forall u :: !Shows(tz, u, local) }

  /** Clocks are set forward past `local` at the i-th transition, and it is read by the rule called for. */
  ghost predicate SkippedAt(tz: Zone, i: int, local: int, flag: int, offset: int, isdst: int) {
    && Skips(tz, i, local)
    && var r := ByFlag(Before(tz, i), tz.transitions[i].rule, flag);
       offset == -r.gmtoff && isdst == if flag == -1 then r.isdst else flag
  }

  /** What is asked of a time that clocks show. */
  ghost predicate ResolvedShown(tz: Zone, local: int, flag: int, offset: int, isdst: int) {
    // Any instant is found again from its local time and flag.
    && (flag != -1 ==> forall u {:trigger Shows(tz, u, local)} | Shows(tz, u, local) ::
          RuleAt(tz, u).isdst == flag ==> offset == -RuleAt(tz, u).gmtoff && isdst == flag)
    // Whatever the flag, a time shown once is taken for its instant unless the flag is stale.
    && (flag != -1 ==> forall u {:trigger OnlyShown(tz, u, local)} | OnlyShown(tz, u, local) ::
          offset == -RuleAt(tz, u).gmtoff && isdst == RuleAt(tz, u).isdst <==> !Stale(tz, local, flag))
    // Without a flag, a time shown twice is taken for the later instant, a time shown once for the only one.
    && (flag == -1 ==> forall u {:trigger LastShown(tz, u, local)} | LastShown(tz, u, local) ::
          offset == -RuleAt(tz, u).gmtoff && isdst == RuleAt(tz, u).isdst)
  }

  /** A stale flag is left as it is: with the flag of before, the offset of before is returned. */
  ghost predicate ResolvedStale(tz: Zone, local: int, flag: int, offset: int, isdst: int) {
    forall i {:trigger StaleAt(tz, i, local, flag)} | StaleAt(tz, i, local, flag) ::
      offset == -ByFlag(Before(tz, i), tz.transitions[i].rule, flag).gmtoff && isdst == flag
  }

  /** A time never shown is read by the rule of its flag; without one, as if clocks had not been changed. */
  ghost predicate ResolvedSkipped(tz: Zone, local: int, flag: int, offset: int, isdst: int) {
    NeverShown(tz, local) ==> exists i :: SkippedAt(tz, i, local, flag, offset, isdst)
  }

  /** What is asked of resolving a local time with a flag, -1 for none. */
  ghost predicate Resolved(tz: Zone, local: int, flag: int, offset: int, isdst: int) {
    && ResolvedShown(tz, local, flag, offset, isdst)
    && ResolvedStale(tz, local, flag, offset, isdst)
    && ResolvedSkipped(tz, local, flag, offset, isdst)
  }

  lemma ChosenResolves(tz: Zone, local: int, flag: int, r: Rule, isdst: int)
    requires Regular(tz) && Chosen(NextDstBoundary(tz, local - SECS_PER_DAY), local, flag, r, isdst)
    ensures Resolved(tz, local, flag, -r.gmtoff, isdst)
  {
    ChosenShown(tz, local, flag, r, isdst);
    ChosenSkipped(tz, local, flag, r, isdst);
    forall j | StaleAt(tz, j, local, flag)
      ensures r == ByFlag(Before(tz, j), tz.transitions[j].rule, flag) && isdst == flag
    {
      StaleIsNext(tz, j, local, flag);
    }
  }

  lemma ChosenShown(tz: Zone, local: int, flag: int, r: Rule, isdst: int)
    requires Regular(tz) && Chosen(NextDstBoundary(tz, local - SECS_PER_DAY), local, flag, r, isdst)
    ensures ResolvedShown(tz, local, flag, -r.gmtoff, isdst)
  {
    var b := NextDstBoundary(tz, local - SECS_PER_DAY);
    forall u {:trigger Shows(tz, u, local)} {:trigger Candidate(b, u, local)}
      ensures Shows(tz, u, local) <==> Candidate(b, u, local)
      ensures Shows(tz, u, local) ==> RuleAt(tz, u) == RuleNear(b, u)
    {
      ShowsIsCandidate(tz, u, local);
    }
    StaleIsNear(tz, local, flag);
    forall u | OnlyShown(tz, u, local) ensures OnlyCandidate(b, u, local) {}
    forall u | LastShown(tz, u, local) ensures LastCandidate(b, u, local) {}
  }

  lemma ChosenSkipped(tz: Zone, local: int, flag: int, r: Rule, isdst: int)
    requires Regular(tz) && Chosen(NextDstBoundary(tz, local - SECS_PER_DAY), local, flag, r, isdst)
    ensures ResolvedSkipped(tz, local, flag, -r.gmtoff, isdst)
  {
    if NeverShown(tz, local) {
      var b := NextDstBoundary(tz, local - SECS_PER_DAY);
      forall u ensures !Candidate(b, u, local) { ShowsIsCandidate(tz, u, local); }
      assert NoCandidate(b, local);
      assert SkippedAt(tz, Passed(tz, local - SECS_PER_DAY, |tz.transitions|), local, flag, -r.gmtoff, isdst);
    }
  }

  lemma StaleIsNear(tz: Zone, local: int, flag: int)
    requires Regular(tz)
    ensures Stale(tz, local, flag) <==> StaleNear(NextDstBoundary(tz, local - SECS_PER_DAY), local, flag)
  {
    var prev := local - SECS_PER_DAY;
    var k := Passed(tz, prev, |tz.transitions|);
    var b := NextDstBoundary(tz, prev);
    if Stale(tz, local, flag) {
      var i :| StaleAt(tz, i, local, flag);
      StaleIsNext(tz, i, local, flag);
    }
    if StaleNear(b, local, flag) { assert StaleAt(tz, k, local, flag); }
  }

  lemma StaleIsNext(tz: Zone, i: int, local: int, flag: int)
    requires Regular(tz) && StaleAt(tz, i, local, flag)
    ensures Passed(tz, local - SECS_PER_DAY, |tz.transitions|) == i
  {
    assert -SECS_PER_DAY < Before(tz, i).gmtoff < SECS_PER_DAY;
    assert i > 0 ==> tz.transitions[i - 1].at + 2 * SECS_PER_DAY <= tz.transitions[i].at;
    PassedIs(tz, local - SECS_PER_DAY, |tz.transitions|, i);
  }

  /** Such a second exists: clocks an hour ahead are set back at 1000000, so that 1003600 is shown only an
      hour later. With the flag of before it is still resolved to the offset of before, that is to the
      instant of the change, at which clocks already showed 1000000. */
  lemma StaleExample(tz: Zone)
    requires tz == Zone(Rule(3600, 1), [Transition(1000000, Rule(0, 0))])
    ensures Regular(tz) && OnlyShown(tz, 1003600, 1003600) && Stale(tz, 1003600, 1)
    ensures forall offset, isdst | Resolved(tz, 1003600, 1, offset, isdst) ::
            offset == -3600 != -RuleAt(tz, 1003600).gmtoff
  {
    forall t ensures RuleAt(tz, t) == if t < 1000000 then Rule(3600, 1) else Rule(0, 0) {
      assert Passed(tz, t, 0) == 0;
      assert Passed(tz, t, 1) == if t < 1000000 then 0 else 1;
    }
    assert Before(tz, 0) == Rule(3600, 1) && Before(tz, 1) == Rule(0, 0);
    assert StaleAt(tz, 0, 1003600, 1);
  }

  /** Clocks are set forward by an hour at 1000000, past 1001800. Without a flag that time is read by the
      rule of before; with one, by the rule of the flag. */
  lemma SkippedExample(tz: Zone, flag: int, offset: int, isdst: int)
    requires tz == Zone(Rule(0, 0), [Transition(1000000, Rule(3600, 1))])
    requires flag in {-1, 0, 1} && Resolved(tz, 1001800, flag, offset, isdst)
    ensures Regular(tz) && NeverShown(tz, 1001800)
    ensures if flag == 1 then offset == -3600 && isdst == 1 else offset == 0 && isdst == 0
  {
    assert Before(tz, 0) == Rule(0, 0) && Before(tz, 1) == Rule(3600, 1);
    forall t ensures RuleAt(tz, t) == if t < 1000000 then Rule(0, 0) else Rule(3600, 1) {
      RuleInForce(tz, t, if t < 1000000 then 0 else 1);
    }
  }

  /** Clocks are set back by an hour at 1000000, so that 1001800 is shown twice. Without a flag the later
      instant is taken; with one, the instant at which the flag is right. */
  lemma RepeatedExample(tz: Zone, flag: int, offset: int, isdst: int)
    requires tz == Zone(Rule(3600, 1), [Transition(1000000, Rule(0, 0))])
    requires flag in {-1, 0, 1} && Resolved(tz, 1001800, flag, offset, isdst)
    ensures Regular(tz) && Shows(tz, 998200, 1001800) && Shows(tz, 1001800, 1001800)
    ensures if flag == 1 then offset == -3600 && isdst == 1 else offset == 0 && isdst == 0
  {
    assert Before(tz, 0) == Rule(3600, 1) && Before(tz, 1) == Rule(0, 0);
    forall t ensures RuleAt(tz, t) == if t < 1000000 then Rule(3600, 1) else Rule(0, 0) {
      RuleInForce(tz, t, if t < 1000000 then 0 else 1);
    }
    assert ResolvedShown(tz, 1001800, flag, offset, isdst);
    assert RuleAt(tz, 998200) == Rule(3600, 1) && RuleAt(tz, 1001800) == Rule(0, 0);
    assert Shows(tz, 998200, 1001800) && Shows(tz, 1001800, 1001800);
    forall w | Shows(tz, w, 1001800) ensures w <= 1001800 { assert w + RuleAt(tz, w).gmtoff == 1001800; }
    assert LastShown(tz, 1001800, 1001800);
  }

  /** The offset to add to the local time to get UTC; the flag is set where it does not decide. */
  method DetermineTimezoneOffset(tm: Tm, tz: Zone) returns (offset: int)
    requires Regular(tz)
    modifies tm`isdst
    ensures if tm.day.None? then offset == 0 && tm.isdst == 0
            else Resolved(tz, tm.Local(), old(tm.isdst), offset, tm.isdst)
  {
    if tm.day.None? {
      tm.isdst := 0;
      return 0;
    }
    var day := tm.day.value * SECS_PER_DAY;
    var sec := tm.sec + (tm.min + tm.hour * 60) * 60;
    var mytime := day + sec;
    var b := NextDstBoundary(tz, mytime - SECS_PER_DAY);
    ghost var flag := tm.isdst;
    var r, isdst := Choose(b, mytime, tm.isdst);
    ChosenResolves(tz, mytime, flag, r, isdst);
    tm.isdst, offset := isdst, -r.gmtoff;
    assert mytime == tm.Local();
  }
}
