/** Where an error happened, for each function on a call stack shared by nested calls. */
module ContextScan {

  /** One level of the Lua stack: whether it is one of the entry points through which PostgreSQL calls
      Lua, and the current line of a Lua function (less than 1 for others). */
  datatype Frame = Frame(barrier: bool, line: int)

  /** The levels are taken from the top of the stack, the first one the callback itself. */
  ghost predicate Stack(frames: seq<Frame>) {
    && frames != [] && frames[0] == Frame(false, -1)
    && forall i | 0 <= i < |frames| :: frames[i].barrier ==> frames[i].line < 1
  }

  /** Where the segment that begins at a level ends: after the first barrier, or where the stack ends. */
  function End(frames: seq<Frame>, level: nat): (end: nat)
    requires level <= |frames|
    ensures level <= end <= |frames| && (level < |frames| ==> level < end)
    decreases |frames| - level
  {
    if level == |frames| then level
    else if frames[level].barrier then level + 1
    else End(frames, level + 1)
  }

  /** The line of the innermost Lua function of a segment, 0 if there is none. */
  function Innermost(frames: seq<Frame>, level: nat): int
    requires level <= |frames|
    decreases |frames| - level
  {
    if level == |frames| then 0
    else if frames[level].line > 0 then frames[level].line
    else if frames[level].barrier then 0
    else Innermost(frames, level + 1)
  }

  /** `line` is that of the first level between two that is in a Lua function, 0 if none is. */
  ghost predicate FirstLine(frames: seq<Frame>, level: nat, end: nat, line: int)
    requires level <= end <= |frames|
  {
    if line == 0 then forall i | level <= i < end :: frames[i].line < 1
    else exists i | level <= i < end ::
           frames[i].line == line > 0 && forall k | level <= k < i :: frames[k].line < 1
  }

  lemma {:induction false} InnermostFirst(frames: seq<Frame>, level: nat)
    requires level <= |frames| && forall i | 0 <= i < |frames| :: frames[i].barrier ==> frames[i].line < 1
    ensures FirstLine(frames, level, End(frames, level), Innermost(frames, level))
    decreases |frames| - level
  {
    if level < |frames| && frames[level].line <= 0 && !frames[level].barrier {
      InnermostFirst(frames, level + 1);
    }
  }

  /** What the callbacks report, from a level on: for each segment the line of its innermost Lua function. */
  function Reports(frames: seq<Frame>, level: nat): seq<int>
    requires level <= |frames|
    decreases |frames| - level
  {
    if level == |frames| then []
    else [Innermost(frames, level)] + Reports(frames, End(frames, level))
  }

  class Interp {
    var errdepth: nat
    var currentline: int

    /** Scans one segment: from where the last scan stopped or, on a private stack, from the first level
        on. The scan goes on to the barrier even when the line has been found. */
    method CallbackLocation(frames: seq<Frame>, updateErrdepth: bool)
      requires Stack(frames) && (updateErrdepth ==> errdepth < |frames|)
      modifies this
      ensures var start := if updateErrdepth then old(errdepth) else 1;
              && (if currentline > 0 then currentline else 0) == Innermost(frames, start)
              && errdepth == if !updateErrdepth then old(errdepth)
                             else if End(frames, start) == |frames| then 0 else End(frames, start)
      // The line is that of the first level of the segment that has one.
      ensures var start := if updateErrdepth then old(errdepth) else 1;
              FirstLine(frames, start, End(frames, start), if currentline > 0 then currentline else 0)
    {
      var level := if updateErrdepth then errdepth else 1;
      ghost var start := level;
      InnermostFirst(frames, start);
      var found := false;
      while level < |frames|
        invariant start <= level <= |frames| && errdepth == old(errdepth) && End(frames, start) == End(frames, level)
        invariant if found then currentline > 0 && currentline == Innermost(frames, start)
                  else Innermost(frames, start) == Innermost(frames, level)
      {
        var ar := frames[level];
        if !found { currentline := ar.line; }
        if ar.barrier {
          if updateErrdepth {
            level := level + 1;
            if level >= |frames| { errdepth := 0; } else { errdepth := level; }
          }
          return;
        }
        if !found && ar.line > 0 { found := true; }
        level := level + 1;
      }
      if !found { currentline := 0; }
      if updateErrdepth { errdepth := 0; }
    }

    /** One error: a callback for each entry point on the stack, the outermost level being one, from the
        innermost function out. Together they report on the whole stack and leave everything ready for the
        next error. */
    method Context(frames: seq<Frame>, callbacks: nat) returns (lines: seq<int>)
      requires Stack(frames) && errdepth == 0 && frames[|frames| - 1].barrier
               && callbacks == Barriers(frames, 0, |frames|)
      modifies this
      ensures lines == Reports(frames, 0) && errdepth == 0
    {
      lines := [];
      OneReportPerEntry(frames, 0);
      assert Reports(frames, 0) == lines + Left(frames, 0, false);
      for k := 0 to callbacks
        invariant |lines| == k && UpTo(frames, errdepth, lines)
      {
        NextUpTo(frames, errdepth, lines);
        CallbackLocation(frames, true);
        lines := lines + [if currentline > 0 then currentline else 0];
      }
    }
  }

  /** What is left to report when scanning is to go on at `depth`, unless it is over. */
  function Left(frames: seq<Frame>, depth: nat, over: bool): seq<int>
    requires depth <= |frames|
  {
    if over then [] else Reports(frames, depth)
  }

  /** `lines` are the reports on the levels before `depth`; or on all, and depth is 0 again. */
  ghost predicate UpTo(frames: seq<Frame>, depth: nat, lines: seq<int>) {
    depth < |frames| && exists over :: Reports(frames, 0) == lines + Left(frames, depth, over) && (over ==> depth == 0)
  }

  /** One more segment's report. */
  lemma NextUpTo(frames: seq<Frame>, depth: nat, lines: seq<int>)
    requires UpTo(frames, depth, lines) && |lines| < |Reports(frames, 0)|
    ensures var end := End(frames, depth);
            UpTo(frames, if end == |frames| then 0 else end, lines + [Innermost(frames, depth)])
  {
    var end, here := End(frames, depth), Innermost(frames, depth);
    var over :| Reports(frames, 0) == lines + Left(frames, depth, over) && (over ==> depth == 0);
    assert !over;
    Regroup(lines, here, Reports(frames, end));
    if end == |frames| {
      assert Reports(frames, 0) == (lines + [here]) + Left(frames, 0, true);
    } else {
      assert Reports(frames, 0) == (lines + [here]) + Left(frames, end, false);
    }
  }

  lemma Regroup(a: seq<int>, x: int, b: seq<int>)
    ensures a + ([x] + b) == (a + [x]) + b
  {}

  /** There is one report for each barrier, and one more if the stack does not end with a barrier: each
      level belongs to one segment. */
  lemma {:induction false} OneReportPerEntry(frames: seq<Frame>, level: nat)
    requires level <= |frames|
    ensures |Reports(frames, level)| ==
            Barriers(frames, level, |frames|) + if level < |frames| && !frames[|frames| - 1].barrier then 1 else 0
    decreases |frames| - level
  {
    if level < |frames| {
      var end := End(frames, level);
      SegmentEnds(frames, level);
      BarriersSplit(frames, level, end, |frames|);
      OneReportPerEntry(frames, end);
    }
  }

  /** The barriers between two levels. */
  function Barriers(frames: seq<Frame>, lo: nat, hi: nat): nat
    requires lo <= hi <= |frames|
    decreases hi - lo
  {
    if lo == hi then 0 else (if frames[lo].barrier then 1 else 0) + Barriers(frames, lo + 1, hi)
  }

  lemma {:induction false} BarriersSplit(frames: seq<Frame>, a: nat, b: nat, c: nat)
    requires a <= b <= c <= |frames|
    ensures Barriers(frames, a, c) == Barriers(frames, a, b) + Barriers(frames, b, c)
    decreases b - a
  {
    if a < b { BarriersSplit(frames, a + 1, b, c); }
  }

  /** A segment has no barrier but its last level, which is one unless the stack ends there. */
  lemma {:induction false} SegmentEnds(frames: seq<Frame>, level: nat)
    requires level < |frames|
    ensures var end := End(frames, level);
            && (forall i | level <= i < end - 1 :: !frames[i].barrier)
            && (end < |frames| ==> frames[end - 1].barrier)
            && Barriers(frames, level, end) == if frames[end - 1].barrier then 1 else 0
    decreases |frames| - level
  {
    if !frames[level].barrier && level + 1 < |frames| { SegmentEnds(frames, level + 1); }
  }
}
