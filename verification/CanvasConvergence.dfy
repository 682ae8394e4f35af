/**
 The drawer's replica edits optimistically and later receives its own operations
 back from the server. This module compares such a run with one replay of the log.
 */
module CanvasConvergence {
  import opened Wrappers
  import opened CanvasReplay
  import opened EchoedTrace

  type Step = EchoedTrace.Step<Operation>

  /** A finished stroke's End is emitted but not applied locally. */
  function AfterStep(p: Picture, step: Step): Picture {
    match step
    case Local(op) => if op.Draw? && op.kind == End then p else Applied(p, op)
    case Echo(op) => Applied(p, op)
  }

  function RunTrace(p: Picture, trace: seq<Step>): Picture {
    if trace == [] then p
    else AfterStep(RunTrace(p, trace[..|trace| - 1]), trace[|trace| - 1])
  }

  predicate IsBegin(op: Operation, s: StrokeId) {
    op.Draw? && op.kind == Begin && op.stroke == s
  }

  predicate IsDraw(op: Operation, s: StrokeId) {
    op.Draw? && op.stroke == s
  }

  predicate DrawsIn(log: seq<Operation>, s: StrokeId) {
    exists i :: 0 <= i < |log| && IsDraw(log[i], s)
  }

  predicate BeginsIn(log: seq<Operation>, s: StrokeId) {
    exists i :: 0 <= i < |log| && IsBegin(log[i], s)
  }

  /** Nothing is cleared, and an undone stroke is not drawn again. */
  ghost predicate SettledLog(log: seq<Operation>) {
    Clear !in log && forall j :: 0 <= j < |log| ==> SettledAt(log, j)
  }

  ghost predicate SettledAt(log: seq<Operation>, j: nat)
    requires j < |log|
  {
    log[j].Draw? ==> Undo(log[j].stroke) !in log[..j]
  }

  /** Besides, an End has its stroke. */
  ghost predicate OrderlyLog(base: Picture, log: seq<Operation>) {
    SettledLog(log) && forall j :: 0 <= j < |log| ==> EndHasStroke(base, log, j)
  }

  ghost predicate EndHasStroke(base: Picture, log: seq<Operation>, j: nat)
    requires j < |log|
  {
    log[j].Draw? && log[j].kind == End ==>
      log[j].stroke in base.strokes || DrawsIn(log[..j], log[j].stroke)
  }

  /**
   Points a board draws locally on a stroke at moments when no Begin and no removal
   of that stroke is left to be echoed, so nothing will reset them.
   */
  function LateInk(trace: seq<Step>, log: seq<Operation>, s: StrokeId): nat
    requires |Echoes(trace)| <= |log|
    decreases |trace|
  {
    if trace == [] then 0
    else
      var before, last := trace[..|trace| - 1], trace[|trace| - 1];
      LateInk(before, log, s) + LateInkOf(last, log[|Echoes(before)|..], s)
  }

  function LateInkOf(step: Step, left: seq<Operation>, s: StrokeId): nat {
    if step.Local? && IsDraw(step.op, s) && step.op.kind != End && !ResetIn(left, s) then |step.op.points| else 0
  }

  predicate ResetIn(left: seq<Operation>, s: StrokeId) {
    BeginsIn(left, s) || RemovedIn(left, s)
  }

  // ---------- Prefixes of a trace ----------

  lemma {:induction false} RunTraceWellFormed(p: Picture, trace: seq<Step>)
    requires p.WellFormed()
    ensures RunTrace(p, trace).WellFormed()
  {
    if trace != [] {
      RunTraceWellFormed(p, trace[..|trace| - 1]);
      AppliedWellFormed(RunTrace(p, trace[..|trace| - 1]), trace[|trace| - 1].op);
    }
  }

  lemma {:induction false} RunTraceAppend(p: Picture, a: seq<Step>, b: seq<Step>)
    ensures RunTrace(p, a + b) == RunTrace(RunTrace(p, a), b)
  {
    if b == [] {
      assert a + b == a;
    } else {
      var front := b[..|b| - 1];
      assert (a + b)[..|a + b| - 1] == a + front;
      RunTraceAppend(p, a, front);
    }
  }

  lemma ReplaySnoc(p: Picture, log: seq<Operation>, n: nat)
    requires n < |log|
    ensures Replay(p, log[..n + 1]) == Applied(Replay(p, log[..n]), log[n])
  {
    assert log[..n + 1][..n] == log[..n];
  }

  lemma TraceSnoc(p: Picture, trace: seq<Step>, step: Step)
    ensures RunTrace(p, trace + [step]) == AfterStep(RunTrace(p, trace), step)
  {
    assert (trace + [step])[..|trace|] == trace;
  }

  // ---------- Strokes and paint order ----------

  /** A drawn stroke that no undo names is in the picture of the log. */
  lemma {:induction false} DrawnStays(p: Picture, ops: seq<Operation>, s: StrokeId)
    requires Clear !in ops && Undo(s) !in ops
    requires s in p.strokes || DrawsIn(ops, s)
    ensures s in Replay(p, ops).strokes
  {
    if ops != [] {
      var front, last := ops[..|ops| - 1], ops[|ops| - 1];
      assert ops == front + [last];
      StyleAfter(Replay(p, front), last, s);
      if s in p.strokes || DrawsIn(front, s) {
        DrawnStays(p, front, s);
      }
    }
  }

  lemma {:induction false} NotDrawnNotShown(p: Picture, ops: seq<Operation>, s: StrokeId)
    requires s !in p.strokes && !DrawsIn(ops, s)
    ensures s !in Replay(p, ops).strokes
  {
    if ops != [] {
      var front, last := ops[..|ops| - 1], ops[|ops| - 1];
      assert ops == front + [last];
      assert last == ops[|ops| - 1] && forall i :: 0 <= i < |front| ==> front[i] == ops[i];
      NotDrawnNotShown(p, front, s);
    }
  }

  lemma AbsentAfter(p: Picture, op: Operation, s: StrokeId)
    requires op == Undo(s) || (s !in p.strokes && !IsDraw(op, s))
    ensures s !in Applied(p, op).strokes
  {
  }

  /** An undone stroke is absent from the replay of a settled log. */
  lemma {:induction false} UndoneAbsent(p: Picture, log: seq<Operation>, n: nat, s: StrokeId)
    requires SettledLog(log) && n <= |log| && Undo(s) in log[..n]
    ensures s !in Replay(p, log[..n]).strokes
  {
    assert log[..n] == log[..n - 1] + [log[n - 1]];
    ReplaySnoc(p, log, n - 1);
    if Undo(s) in log[..n - 1] {
      assert SettledAt(log, n - 1);
      UndoneAbsent(p, log, n - 1, s);
    }
    AbsentAfter(Replay(p, log[..n - 1]), log[n - 1], s);
  }

  ghost predicate UndoneGone(p: Picture, trace: seq<Step>, s: StrokeId) {
    Undo(s) in Echoes(trace) ==> s !in RunTrace(p, trace).strokes
  }

  lemma UndoneStep(p: Picture, before: seq<Step>, step: Step, log: seq<Operation>, e: nat, s: StrokeId)
    requires SettledLog(log) && StepAt(before, step, log, e) && UndoneGone(p, before, s)
    ensures UndoneGone(p, before + [step], s)
  {
    LogsSnoc(before, step);
    TraceSnoc(p, before, step);
    if Undo(s) in Echoes(before) {
      var j := if step.Local? then e + |Locals(before)| else |Echoes(before)|;
      assert SettledAt(log, j) && Undo(s) in log[..j];
    }
  }

  /** Undone strokes stay away from the replica once their undo has been echoed. */
  lemma {:induction false} UndoneAbsentInTrace(
    p: Picture, trace: seq<Step>, log: seq<Operation>, e: nat, k: nat, s: StrokeId)
    requires Follows(trace, log, e) && k <= |trace| && SettledLog(log)
    ensures UndoneGone(p, trace[..k], s)
  {
    if k == 0 {
      assert trace[..0] == [];
    } else {
      UndoneAbsentInTrace(p, trace, log, e, k - 1, s);
      StepOf(trace, log, e, k - 1);
      UndoneStep(p, trace[..k - 1], trace[k - 1], log, e, s);
    }
  }

  lemma ErasedAfterRemoval(order: seq<StrokeId>, s: StrokeId, gone: set<StrokeId>)
    requires s in gone
    ensures Erased(Erased(order, {s}), gone) == Erased(order, gone)
  {
    ErasedTwice(order, {s}, gone);
    assert {s} + gone == gone;
  }

  /** Two pictures paint the strokes that are never undone in the same order. */
  ghost predicate SameSurvivors(r: Picture, q: Picture, gone: set<StrokeId>) {
    r.WellFormed() && q.WellFormed() && Erased(r.order, gone) == Erased(q.order, gone)
  }

  lemma SurvivorInBoth(r: Picture, q: Picture, gone: set<StrokeId>, s: StrokeId)
    requires SameSurvivors(r, q, gone) && s !in gone
    ensures s in r.strokes <==> s in q.strokes
  {
    ErasedMembers(r.order, gone);
    ErasedMembers(q.order, gone);
  }

  lemma SurvivingEdit(p: Picture, r: Picture, log: seq<Operation>, a: nat)
    requires p.WellFormed() && OrderlyLog(p, log) && a < |log|
    requires SameSurvivors(r, Replay(p, log[..a]), UndoneIn(log))
    ensures SameSurvivors(AfterStep(r, Local(log[a])), Replay(p, log[..a + 1]), UndoneIn(log))
  {
    var gone, q, op := UndoneIn(log), Replay(p, log[..a]), log[a];
    ReplaySnoc(p, log, a);
    assert op in log;
    AppliedWellFormed(r, op);
    AppliedWellFormed(q, op);
    SameOrderAfter(r, op, gone);
    SameOrderAfter(q, op, gone);
    if op.Draw? && op.stroke !in gone {
      SurvivorInBoth(r, q, gone, op.stroke);
      if op.kind == End {
        assert EndHasStroke(p, log, a);
        DrawnStays(p, log[..a], op.stroke);
      }
    }
  }

  lemma SurvivingEcho(p: Picture, r: Picture, log: seq<Operation>, a: nat, b: nat)
    requires Clear !in log && b < a <= |log|
    requires SameSurvivors(r, Replay(p, log[..a]), UndoneIn(log))
    ensures SameSurvivors(Applied(r, log[b]), Replay(p, log[..a]), UndoneIn(log))
  {
    var gone, op := UndoneIn(log), log[b];
    assert op in log;
    AppliedWellFormed(r, op);
    SameOrderAfter(r, op, gone);
    if op.Draw? && op.stroke !in gone {
      assert log[..a][b] == op;
      DrawnStays(p, log[..a], op.stroke);
      SurvivorInBoth(r, Replay(p, log[..a]), gone, op.stroke);
    }
  }

  /** Apart from undone strokes, the replica paints in the order of its own edits so far. */
  lemma {:induction false} SurvivorOrder(p: Picture, trace: seq<Step>, log: seq<Operation>, k: nat)
    requires Causal(trace) && log == Locals(trace) && k <= |trace|
    requires p.WellFormed() && OrderlyLog(p, log)
    ensures SameSurvivors(RunTrace(p, trace[..k]), Replay(p, Locals(trace[..k])), UndoneIn(log))
  {
    if k == 0 {
      assert trace[..0] == [];
    } else {
      var before, step := trace[..k - 1], trace[k - 1];
      SurvivorOrder(p, trace, log, k - 1);
      CausalFollows(trace);
      StepOf(trace, log, 0, k - 1);
      assert trace[..k] == before + [step];
      if step.Local? {
        SurvivorLocal(p, before, step.op, log);
      } else {
        SurvivorEcho(p, before, step.op, log);
      }
    }
  }

  lemma SurvivorLocal(p: Picture, before: seq<Step>, op: Operation, log: seq<Operation>)
    requires p.WellFormed() && OrderlyLog(p, log) && StepAt(before, Local(op), log, 0)
    requires SameSurvivors(RunTrace(p, before), Replay(p, Locals(before)), UndoneIn(log))
    ensures SameSurvivors(RunTrace(p, before + [Local(op)]), Replay(p, Locals(before + [Local(op)])), UndoneIn(log))
  {
    var a := |Locals(before)|;
    LocalsAt(before, Local(op), log, a + 1);
    assert Locals(before) == log[..a] && op == log[a];
    SurvivingEdit(p, RunTrace(p, before), log, a);
    TraceSnoc(p, before, Local(op));
  }

  lemma SurvivorEcho(p: Picture, before: seq<Step>, op: Operation, log: seq<Operation>)
    requires p.WellFormed() && OrderlyLog(p, log) && StepAt(before, Echo(op), log, 0)
    requires SameSurvivors(RunTrace(p, before), Replay(p, Locals(before)), UndoneIn(log))
    ensures SameSurvivors(RunTrace(p, before + [Echo(op)]), Replay(p, Locals(before + [Echo(op)])), UndoneIn(log))
  {
    var a, b := |Locals(before)|, |Echoes(before)|;
    LocalsAt(before, Echo(op), log, a);
    assert Locals(before) == log[..a] && op == log[b];
    SurvivingEcho(p, RunTrace(p, before), log, a, b);
    TraceSnoc(p, before, Echo(op));
  }

  /** What one operation does to the order of the strokes that are never undone. */
  lemma SameOrderAfter(p: Picture, op: Operation, gone: set<StrokeId>)
    requires p.WellFormed() && !op.Clear? && (op.Undo? ==> op.stroke in gone)
    ensures Erased(Applied(p, op).order, gone)
         == if op.Draw? && op.stroke !in gone && op.stroke !in p.strokes then Erased(p.order, gone) + [op.stroke]
            else Erased(p.order, gone)
  {
    if op.Undo? {
      ErasedAfterRemoval(p.order, op.stroke, gone);
    } else {
      ErasedAppend(p.order, op.stroke, gone);
    }
  }

  /** Once every echo has arrived, the replica shows the log's strokes in the log's paint order. */
  lemma {:induction false} OrderConverges(p: Picture, trace: seq<Step>)
    requires Causal(trace) && Complete(trace) && p.WellFormed() && OrderlyLog(p, Locals(trace))
    ensures RunTrace(p, trace).order == Replay(p, Locals(trace)).order
    ensures RunTrace(p, trace).strokes.Keys == Replay(p, Locals(trace)).strokes.Keys
  {
    var log, gone := Locals(trace), UndoneIn(Locals(trace));
    assert trace[..|trace|] == trace && log[..|log|] == log;
    SurvivorOrder(p, trace, log, |trace|);
    var r, q := RunTrace(p, trace), Replay(p, log);
    RunTraceWellFormed(p, trace);
    ReplayWellFormed(p, log);
    forall s | s in gone ensures s !in r.strokes && s !in q.strokes {
      UndoneAbsent(p, log, |log|, s);
      CausalFollows(trace);
      UndoneAbsentInTrace(p, trace, log, 0, |trace|, s);
    }
    ErasedNothing(r.order, gone);
    ErasedNothing(q.order, gone);
    forall s ensures s in r.strokes.Keys <==> s in q.strokes.Keys {
      assert s in r.order <==> s in q.order;
    }
  }

  // ---------- Styles ----------

  function StyleOf(p: Picture, s: StrokeId): Option<Style> {
    if s in p.strokes then Some(p.strokes[s].style) else None
  }

  function PointsOf(p: Picture, s: StrokeId): seq<Point> {
    if s in p.strokes then p.strokes[s].points else []
  }

  /** Peeling one operation off what is left to be echoed. */
  lemma LeftToEcho(log: seq<Operation>, b: nat, s: StrokeId)
    requires b < |log|
    ensures DrawsIn(log[b..], s) <==> IsDraw(log[b], s) || DrawsIn(log[b + 1..], s)
    ensures BeginsIn(log[b..], s) <==> IsBegin(log[b], s) || BeginsIn(log[b + 1..], s)
    ensures RemovedIn(log[b..], s) <==> Removes(log[b], s) || RemovedIn(log[b + 1..], s)
  {
    var left, fewer := log[b..], log[b + 1..];
    assert left[0] == log[b];
    assert forall i :: 0 <= i < |fewer| ==> fewer[i] == left[i + 1];
    assert forall i :: 0 < i < |left| ==> left[i] == fewer[i - 1];
  }

  /** An operation edited locally is still to be echoed. */
  lemma EditsAreLeft(log: seq<Operation>, b: nat, a: nat, s: StrokeId)
    requires b <= a < |log|
    ensures IsDraw(log[a], s) ==> DrawsIn(log[b..], s)
    ensures IsBegin(log[a], s) ==> BeginsIn(log[b..], s)
    ensures Removes(log[a], s) ==> RemovedIn(log[b..], s)
  {
    assert log[b..][a - b] == log[a];
  }

  lemma StyleAfter(p: Picture, op: Operation, s: StrokeId)
    ensures StyleOf(Applied(p, op), s)
         == if Removes(op, s) then None else if IsDraw(op, s) then Some(op.style) else StyleOf(p, s)
  {
  }

  /** While no drawing and no removal of a stroke is left to be echoed, replica and log agree on its style. */
  ghost predicate StyleAgrees(r: Picture, q: Picture, left: seq<Operation>, s: StrokeId) {
    DrawsIn(left, s) || RemovedIn(left, s) || StyleOf(r, s) == StyleOf(q, s)
  }

  ghost predicate StyleSettled(p: Picture, trace: seq<Step>, log: seq<Operation>, s: StrokeId)
    requires |Echoes(trace)| <= |log|
  {
    StyleAgrees(RunTrace(p, trace), Replay(p, Echoes(trace)), log[|Echoes(trace)|..], s)
  }

  lemma StyleLocal(r: Picture, q: Picture, op: Operation, log: seq<Operation>, b: nat, a: nat, s: StrokeId)
    requires b <= a < |log| && log[a] == op
    requires StyleAgrees(r, q, log[b..], s)
    ensures StyleAgrees(AfterStep(r, Local(op)), q, log[b..], s)
  {
    StyleAfter(r, op, s);
    EditsAreLeft(log, b, a, s);
  }

  lemma StyleEcho(r: Picture, q: Picture, op: Operation, log: seq<Operation>, b: nat, s: StrokeId)
    requires b < |log| && log[b] == op
    requires StyleAgrees(r, q, log[b..], s)
    ensures StyleAgrees(Applied(r, op), Applied(q, op), log[b + 1..], s)
  {
    StyleAfter(r, op, s);
    StyleAfter(q, op, s);
    LeftToEcho(log, b, s);
  }

  /** An edit takes the replica on and leaves the echoed log. */
  lemma EditAlone(p: Picture, before: seq<Step>, op: Operation, log: seq<Operation>, e: nat)
    requires StepAt(before, Local(op), log, e)
    ensures var a := e + |Locals(before)|;
      && |Echoes(before)| <= a < |log| && log[a] == op && Echoes(before + [Local(op)]) == Echoes(before)
      && RunTrace(p, before + [Local(op)]) == AfterStep(RunTrace(p, before), Local(op))
  {
    assert log[e + |Locals(before)|] == op;
    EchoesNext(before, Local(op), log);
    TraceSnoc(p, before, Local(op));
  }

  /** An echo takes replica and log on by the same operation. */
  lemma EchoTogether(p: Picture, before: seq<Step>, op: Operation, log: seq<Operation>, e: nat)
    requires StepAt(before, Echo(op), log, e)
    ensures var b := |Echoes(before)|;
      && b < |log| && log[b] == op && |Echoes(before + [Echo(op)])| == b + 1
      && RunTrace(p, before + [Echo(op)]) == Applied(RunTrace(p, before), op)
      && Replay(p, Echoes(before + [Echo(op)])) == Applied(Replay(p, Echoes(before)), op)
  {
    EchoesNext(before, Echo(op), log);
    TraceSnoc(p, before, Echo(op));
    ReplaySnoc(p, log, |Echoes(before)|);
  }

  lemma StyleStepLocal(p: Picture, before: seq<Step>, op: Operation, log: seq<Operation>, e: nat, s: StrokeId)
    requires StepAt(before, Local(op), log, e)
    requires StyleSettled(p, before, log, s)
    ensures |Echoes(before + [Local(op)])| <= |log| && StyleSettled(p, before + [Local(op)], log, s)
  {
    var a, b := e + |Locals(before)|, |Echoes(before)|;
    EditAlone(p, before, op, log, e);
    StyleLocal(RunTrace(p, before), Replay(p, Echoes(before)), op, log, b, a, s);
  }

  lemma StyleStepEcho(p: Picture, before: seq<Step>, op: Operation, log: seq<Operation>, e: nat, s: StrokeId)
    requires StepAt(before, Echo(op), log, e)
    requires StyleSettled(p, before, log, s)
    ensures |Echoes(before + [Echo(op)])| <= |log| && StyleSettled(p, before + [Echo(op)], log, s)
  {
    EchoTogether(p, before, op, log, e);
    StyleEcho(RunTrace(p, before), Replay(p, Echoes(before)), op, log, |Echoes(before)|, s);
  }

  lemma {:induction false} StyleInTrace(
    p: Picture, trace: seq<Step>, log: seq<Operation>, e: nat, k: nat, s: StrokeId)
    requires Follows(trace, log, e) && k <= |trace|
    ensures |Echoes(trace[..k])| <= |log| && StyleSettled(p, trace[..k], log, s)
  {
    if k == 0 {
      assert trace[..0] == [];
    } else {
      StyleInTrace(p, trace, log, e, k - 1, s);
      StepOf(trace, log, e, k - 1);
      var step := trace[k - 1];
      if step.Local? {
        StyleStepLocal(p, trace[..k - 1], step.op, log, e, s);
      } else {
        StyleStepEcho(p, trace[..k - 1], step.op, log, e, s);
      }
    }
  }

  // ---------- Points ----------

  lemma {:induction false} LateInkBeforeReset(trace: seq<Step>, log: seq<Operation>, s: StrokeId)
    requires |Echoes(trace)| <= |log| && ResetIn(log[|Echoes(trace)|..], s)
    ensures LateInk(trace, log, s) == 0
    decreases |trace|
  {
    if trace != [] {
      var before := trace[..|trace| - 1];
      if trace[|trace| - 1].Echo? {
        LeftToEcho(log, |Echoes(before)|, s);
      }
      LateInkBeforeReset(before, log, s);
    }
  }

  lemma PointsAfter(p: Picture, op: Operation, s: StrokeId)
    ensures PointsOf(Applied(p, op), s)
         == if Removes(op, s) then []
            else if !op.Draw? || op.stroke != s then PointsOf(p, s)
            else if op.kind == Begin then op.points
            else PointsOf(p, s) + op.points
  {
  }

  predicate Exceeds(mine: seq<Point>, logged: seq<Point>, excess: nat) {
    |mine| == |logged| + excess && (excess == 0 ==> mine == logged)
  }

  /** While nothing that resets a stroke is left to be echoed, the late ink is what the replica has too much. */
  ghost predicate InkAgrees(r: Picture, q: Picture, left: seq<Operation>, late: nat, s: StrokeId) {
    ResetIn(left, s) || Exceeds(PointsOf(r, s), PointsOf(q, s), late)
  }

  ghost predicate InkAccounted(p: Picture, trace: seq<Step>, log: seq<Operation>, s: StrokeId)
    requires |Echoes(trace)| <= |log|
  {
    InkAgrees(RunTrace(p, trace), Replay(p, Echoes(trace)), log[|Echoes(trace)|..], LateInk(trace, log, s), s)
  }

  lemma LocalInk(
    r: Picture, q: Picture, op: Operation, log: seq<Operation>, b: nat, a: nat, late: nat, s: StrokeId)
    requires b <= a < |log| && log[a] == op
    requires InkAgrees(r, q, log[b..], late, s)
    ensures InkAgrees(AfterStep(r, Local(op)), q, log[b..], late + LateInkOf(Local(op), log[b..], s), s)
  {
    PointsAfter(r, op, s);
    EditsAreLeft(log, b, a, s);
  }

  /** An echoed Begin or removal starts the stroke over, so nothing may have been too much before it. */
  lemma EchoInk(r: Picture, q: Picture, op: Operation, log: seq<Operation>, b: nat, late: nat, s: StrokeId)
    requires b < |log| && log[b] == op
    requires InkAgrees(r, q, log[b..], late, s) && (IsBegin(op, s) || Removes(op, s) ==> late == 0)
    ensures InkAgrees(Applied(r, op), Applied(q, op), log[b + 1..], late, s)
  {
    PointsAfter(r, op, s);
    PointsAfter(q, op, s);
    LeftToEcho(log, b, s);
  }

  lemma LateInkSnoc(before: seq<Step>, step: Step, log: seq<Operation>, s: StrokeId)
    requires |Echoes(before)| + (if step.Echo? then 1 else 0) <= |log|
    ensures |Echoes(before + [step])| == |Echoes(before)| + if step.Echo? then 1 else 0
    ensures LateInk(before + [step], log, s)
         == LateInk(before, log, s) + LateInkOf(step, log[|Echoes(before)|..], s)
  {
    LogsSnoc(before, step);
    assert (before + [step])[..|before|] == before;
  }

  lemma PointsLocal(p: Picture, before: seq<Step>, op: Operation, log: seq<Operation>, e: nat, s: StrokeId)
    requires StepAt(before, Local(op), log, e)
    requires InkAccounted(p, before, log, s)
    ensures |Echoes(before + [Local(op)])| <= |log| && InkAccounted(p, before + [Local(op)], log, s)
  {
    var a, b, late := e + |Locals(before)|, |Echoes(before)|, LateInk(before, log, s);
    EditAlone(p, before, op, log, e);
    LocalInk(RunTrace(p, before), Replay(p, Echoes(before)), op, log, b, a, late, s);
    LateInkSnoc(before, Local(op), log, s);
  }

  lemma PointsEcho(p: Picture, before: seq<Step>, op: Operation, log: seq<Operation>, e: nat, s: StrokeId)
    requires StepAt(before, Echo(op), log, e)
    requires InkAccounted(p, before, log, s)
    ensures |Echoes(before + [Echo(op)])| <= |log| && InkAccounted(p, before + [Echo(op)], log, s)
  {
    var b, late := |Echoes(before)|, LateInk(before, log, s);
    EchoTogether(p, before, op, log, e);
    if IsBegin(op, s) || Removes(op, s) {
      LeftToEcho(log, b, s);
      LateInkBeforeReset(before, log, s);
    }
    EchoInk(RunTrace(p, before), Replay(p, Echoes(before)), op, log, b, late, s);
    LateInkSnoc(before, Echo(op), log, s);
  }

  /**
   When nothing that resets a stroke is left to be echoed, the replica's stroke exceeds
   the log's by exactly the late ink, and equals it when there is none.
   */
  lemma {:induction false} PointsInTrace(
    p: Picture, trace: seq<Step>, log: seq<Operation>, e: nat, k: nat, s: StrokeId)
    requires Follows(trace, log, e) && k <= |trace|
    ensures |Echoes(trace[..k])| <= |log| && InkAccounted(p, trace[..k], log, s)
  {
    if k == 0 {
      assert trace[..0] == [];
    } else {
      PointsInTrace(p, trace, log, e, k - 1, s);
      StepOf(trace, log, e, k - 1);
      var step := trace[k - 1];
      if step.Local? {
        PointsLocal(p, trace[..k - 1], step.op, log, e, s);
      } else {
        PointsEcho(p, trace[..k - 1], step.op, log, e, s);
      }
    }
  }

  // ---------- One log on two pictures ----------

  /** The style is right exactly when the pictures before agreed on it, or the operations since renew it. */
  ghost predicate StyleRightIff(
    mine: Picture, right: Picture, stale: Picture, current: Picture, since: seq<Operation>, s: StrokeId)
  {
    StyleOf(mine, s) == StyleOf(right, s) <==>
      DrawsIn(since, s) || RemovedIn(since, s) || StyleOf(stale, s) == StyleOf(current, s)
  }

  /** Likewise the points, which only a Begin or a removal renews. */
  ghost predicate PointsRightIff(
    mine: Picture, right: Picture, stale: Picture, current: Picture, since: seq<Operation>, s: StrokeId)
  {
    PointsOf(mine, s) == PointsOf(right, s) <==> ResetIn(since, s) || PointsOf(stale, s) == PointsOf(current, s)
  }

  lemma InSnoc(front: seq<Operation>, op: Operation, s: StrokeId)
    ensures DrawsIn(front + [op], s) <==> DrawsIn(front, s) || IsDraw(op, s)
    ensures BeginsIn(front + [op], s) <==> BeginsIn(front, s) || IsBegin(op, s)
    ensures RemovedIn(front + [op], s) <==> RemovedIn(front, s) || Removes(op, s)
  {
    var ops := front + [op];
    assert ops[|front|] == op && forall i :: 0 <= i < |front| ==> ops[i] == front[i];
  }

  /** A log brings a style together exactly when it draws or removes the stroke, or the styles agreed before. */
  lemma {:induction false} StylesMeet(r: Picture, q: Picture, ops: seq<Operation>, s: StrokeId)
    ensures StyleRightIff(Replay(r, ops), Replay(q, ops), r, q, ops, s)
  {
    if ops != [] {
      var front, op := ops[..|ops| - 1], ops[|ops| - 1];
      assert ops == front + [op];
      StylesMeet(r, q, front, s);
      InSnoc(front, op, s);
      StyleAfter(Replay(r, front), op, s);
      StyleAfter(Replay(q, front), op, s);
    }
  }

  /** It brings the points together exactly when it begins or removes the stroke, or the points agreed before. */
  lemma {:induction false} PointsMeet(r: Picture, q: Picture, ops: seq<Operation>, s: StrokeId)
    ensures PointsRightIff(Replay(r, ops), Replay(q, ops), r, q, ops, s)
  {
    if ops != [] {
      var front, op := ops[..|ops| - 1], ops[|ops| - 1];
      assert ops == front + [op];
      PointsMeet(r, q, front, s);
      InSnoc(front, op, s);
      PointsAfter(Replay(r, front), op, s);
      PointsAfter(Replay(q, front), op, s);
      if op.Draw? {
        SameAppended(PointsOf(Replay(r, front), s), PointsOf(Replay(q, front), s), op.points);
      }
    }
  }

  lemma SameAppended(a: seq<Point>, b: seq<Point>, c: seq<Point>)
    ensures a + c == b + c <==> a == b
  {
    if a + c == b + c {
      assert a == (a + c)[..|a|] && b == (b + c)[..|b|];
    }
  }

  // ---------- Convergence ----------

  /**
   Whatever was under way at the start: once the whole log has been echoed, the replica
   has the log's strokes and styles, and every stroke exceeds the log's by its late ink.
   */
  lemma {:induction false} StrokesConverge(p: Picture, trace: seq<Step>, log: seq<Operation>, e: nat, s: StrokeId)
    requires Follows(trace, log, e) && Echoes(trace) == log
    ensures StyleOf(RunTrace(p, trace), s) == StyleOf(Replay(p, log), s)
    ensures Exceeds(PointsOf(RunTrace(p, trace), s), PointsOf(Replay(p, log), s), LateInk(trace, log, s))
  {
    assert trace[..|trace|] == trace && log[|log|..] == [];
    StyleInTrace(p, trace, log, e, |trace|, s);
    PointsInTrace(p, trace, log, e, |trace|, s);
  }

  /** Two pictures with the same strokes and styles are equal if order and points are. */
  lemma SamePictures(mine: Picture, logged: Picture)
    requires forall s :: StyleOf(mine, s) == StyleOf(logged, s)
    ensures mine.strokes.Keys == logged.strokes.Keys
    ensures mine == logged <==>
      mine.order == logged.order && forall s :: s in mine.strokes ==> PointsOf(mine, s) == PointsOf(logged, s)
  {
    forall s ensures s in mine.strokes <==> s in logged.strokes {
      assert StyleOf(mine, s) == StyleOf(logged, s);
    }
    if forall s :: s in mine.strokes ==> PointsOf(mine, s) == PointsOf(logged, s) {
      forall s | s in mine.strokes ensures mine.strokes[s] == logged.strokes[s] {
        assert StyleOf(mine, s) == StyleOf(logged, s) && PointsOf(mine, s) == PointsOf(logged, s);
      }
      assert mine.strokes == logged.strokes;
    }
  }

  ghost predicate NoLateInk(mine: Picture, trace: seq<Step>, log: seq<Operation>)
    requires |Echoes(trace)| <= |log|
  {
    forall s :: s in mine.strokes ==> LateInk(trace, log, s) == 0
  }

  /** The replica is the replay exactly when the paint orders agree and no stroke on it has late ink. */
  lemma {:induction false} ConvergesIff(p: Picture, trace: seq<Step>, log: seq<Operation>, e: nat)
    requires Follows(trace, log, e) && Echoes(trace) == log
    ensures var mine, logged := RunTrace(p, trace), Replay(p, log);
      && mine.strokes.Keys == logged.strokes.Keys
      && (forall s :: s in mine.strokes ==> mine.strokes[s].style == logged.strokes[s].style)
      && (mine == logged <==> mine.order == logged.order && NoLateInk(mine, trace, log))
  {
    var mine, logged := RunTrace(p, trace), Replay(p, log);
    forall s ensures StyleOf(mine, s) == StyleOf(logged, s) {
      StrokesConverge(p, trace, log, e, s);
    }
    SamePictures(mine, logged);
    forall s | s in mine.strokes
      ensures mine.strokes[s].style == logged.strokes[s].style
      ensures PointsOf(mine, s) == PointsOf(logged, s) <==> LateInk(trace, log, s) == 0
    {
      assert StyleOf(mine, s) == StyleOf(logged, s);
      StrokesConverge(p, trace, log, e, s);
    }
  }

  /**
   After all echoes, the drawer's replica has the log's strokes, paint order and
   styles; it is the replay of the log exactly when no stroke on it has late ink.
   */
  lemma {:induction false} EchoConvergence(p: Picture, trace: seq<Step>)
    requires Causal(trace) && Complete(trace) && p.WellFormed() && OrderlyLog(p, Locals(trace))
    ensures var mine, logged := RunTrace(p, trace), Replay(p, Locals(trace));
      && mine.order == logged.order
      && mine.strokes.Keys == logged.strokes.Keys
      && (forall s :: s in mine.strokes ==> mine.strokes[s].style == logged.strokes[s].style)
      && (mine == logged <==> NoLateInk(mine, trace, Locals(trace)))
  {
    CausalFollows(trace);
    OrderConverges(p, trace);
    ConvergesIff(p, trace, Locals(trace), 0);
  }

  // ---------- All edits first, then all echoes ----------

  /** Editing before any echo leaves no late ink on a stroke whose Begin is in the log. */
  lemma {:induction false} EarlyEditsNotLate(log: seq<Operation>, s: StrokeId, k: nat)
    requires k <= 2 * |log| && (DrawsIn(log, s) ==> BeginsIn(log, s))
    requires |Echoes(EditsThenEchoes(log)[..k])| <= |log|
    ensures LateInk(EditsThenEchoes(log)[..k], log, s) == 0
  {
    if k > 0 {
      var trace := EditsThenEchoes(log)[..k];
      EditsThenEchoesPrefix(log, k - 1);
      assert trace[..k - 1] == EditsThenEchoes(log)[..k - 1];
      EarlyEditsNotLate(log, s, k - 1);
      if k <= |log| {
        assert log[0..] == log && trace[k - 1] == Local(log[k - 1]);
      } else {
        assert trace[k - 1].Echo?;
      }
    }
  }

  function RunEdits(p: Picture, log: seq<Operation>): Picture {
    RunTrace(p, Edits(log))
  }

  lemma {:induction false} ReturnedIsReplay(p: Picture, log: seq<Operation>)
    ensures RunTrace(p, Returned(log)) == Replay(p, log)
  {
    if log != [] {
      var front := log[..|log| - 1];
      ReturnedIsReplay(p, front);
      assert Returned(log)[..|log| - 1] == Returned(front);
    }
  }

  /**
   All edits followed by the whole echoed log give the replay of the log, if a
   clear wipes the edits or every stroke of an orderly log has its Begin in it.
   */
  lemma {:induction false} EditsThenEchoesConverge(p: Picture, log: seq<Operation>)
    requires p.WellFormed()
    requires Clear in log || (OrderlyLog(p, log) && forall s :: DrawsIn(log, s) ==> BeginsIn(log, s))
    ensures Replay(RunEdits(p, log), log) == Replay(p, log)
  {
    if Clear in log {
      ReplayForgetsBeforeClear(RunEdits(p, log), p, log);
    } else {
      var trace := EditsThenEchoes(log);
      assert trace[..2 * |log|] == trace && log[..|log|] == log;
      EditsThenEchoesCausal(log);
      RunTraceAppend(p, Edits(log), Returned(log));
      ReturnedIsReplay(RunEdits(p, log), log);
      forall s ensures LateInk(trace, log, s) == 0 {
        EarlyEditsNotLate(log, s, 2 * |log|);
      }
      EchoConvergence(p, trace);
    }
  }

  lemma {:induction false} ReplayForgetsBeforeClear(p: Picture, q: Picture, log: seq<Operation>)
    requires Clear in log
    ensures Replay(p, log) == Replay(q, log)
  {
    var front, last := log[..|log| - 1], log[|log| - 1];
    assert log == front + [last];
    if !last.Clear? {
      ReplayForgetsBeforeClear(p, q, front);
    }
  }

  /** Appending instead of ending: the same picture, but nothing is skipped locally. */
  function EndsAsAppends(log: seq<Operation>): seq<Operation> {
    seq(|log|, i requires 0 <= i < |log| =>
      if log[i].Draw? && log[i].kind == End then log[i].(kind := Append) else log[i])
  }

  lemma {:induction false} EndsAsAppendsReplay(p: Picture, log: seq<Operation>)
    ensures Replay(p, EndsAsAppends(log)) == Replay(p, log)
    ensures RunEdits(p, EndsAsAppends(log)) == Replay(p, log)
  {
    if log != [] {
      var front, other := log[..|log| - 1], EndsAsAppends(log);
      EndsAsAppendsReplay(p, front);
      assert other[..|other| - 1] == EndsAsAppends(front);
      assert Edits(other)[..|other| - 1] == Edits(EndsAsAppends(front));
    }
  }

  lemma EndsAsAppendsOrderly(p: Picture, log: seq<Operation>, j: nat)
    requires j < |log| && SettledAt(log, j)
    ensures SettledAt(EndsAsAppends(log), j) && EndHasStroke(p, EndsAsAppends(log), j)
  {
    var other := EndsAsAppends(log);
    assert forall i :: 0 <= i < j ==> (other[i].Undo? ==> other[i] == log[i]);
  }

  /** Replaying a whole log on top of its own result changes nothing, under the same conditions. */
  lemma {:induction false} ReplayIdempotent(p: Picture, log: seq<Operation>)
    requires p.WellFormed()
    requires Clear in log || (OrderlyLog(p, log) && forall s :: DrawsIn(log, s) ==> BeginsIn(log, s))
    ensures Replay(Replay(p, log), log) == Replay(p, log)
  {
    if Clear in log {
      ReplayForgetsBeforeClear(Replay(p, log), p, log);
    } else {
      var other := EndsAsAppends(log);
      assert forall i :: 0 <= i < |log| ==> (other[i].Clear? <==> log[i].Clear?);
      forall s | DrawsIn(other, s) ensures BeginsIn(other, s) {
        var i :| 0 <= i < |other| && IsDraw(other[i], s);
        assert IsDraw(log[i], s);
        assert DrawsIn(log, s);
        var j :| 0 <= j < |log| && IsBegin(log[j], s);
        assert other[j] == log[j];
      }
      forall j | 0 <= j < |other| ensures SettledAt(other, j) && EndHasStroke(p, other, j) {
        EndsAsAppendsOrderly(p, log, j);
      }
      EditsThenEchoesConverge(p, other);
      EndsAsAppendsReplay(p, log);
      EndsAsAppendsReplay(Replay(p, log), log);
    }
  }

  // ---------- Two runs that do not converge ----------

  lemma RunRoundTrip(p: Picture, before: seq<Step>, op: Operation)
    ensures RunTrace(p, RoundTrip(before, op)) == Applied(AfterStep(RunTrace(p, before), Local(op)), op)
  {
    TraceSnoc(p, before, Local(op));
    TraceSnoc(p, before + [Local(op)], Echo(op));
  }

  lemma LateInkOfRoundTrip(before: seq<Step>, op: Operation, log: seq<Operation>, s: StrokeId)
    requires |Echoes(before)| < |log|
    ensures |Echoes(RoundTrip(before, op))| <= |log|
    ensures LateInk(RoundTrip(before, op), log, s)
         == LateInk(before, log, s) + LateInkOf(Local(op), log[|Echoes(before)|..], s)
  {
    var middle := before + [Local(op)];
    LogsSnoc(before, Local(op));
    RoundTripLogs(before, op);
    assert middle[..|before|] == before && RoundTrip(before, op)[..|middle|] == middle;
  }

  lemma ReplayTwo(p: Picture, x: Operation, y: Operation)
    ensures Replay(p, [x] + [y]) == Applied(Applied(p, x), y)
  {
    assert [x][..0] == [];
    ReplayAppend(p, [x], [y]);
  }

  /** A point added after the Begin came back is kept twice, though the log has it once. */
  lemma LateInkDoublesPoints(ink: Style, x: Point, y: Point)
    ensures var down, along := Draw(Begin, "s", [x], ink), Draw(Append, "s", [y], ink);
      var trace := RoundTrip(RoundTrip([], down), along);
      && Causal(trace) && Complete(trace) && Locals(trace) == [down] + [along]
      && OrderlyLog(EMPTY_PICTURE, Locals(trace))
      && LateInk(trace, Locals(trace), "s") == 1
      && PointsOf(RunTrace(EMPTY_PICTURE, trace), "s") == [x, y, y]
      && PointsOf(Replay(EMPTY_PICTURE, Locals(trace)), "s") == [x, y]
  {
    var down, along := Draw(Begin, "s", [x], ink), Draw(Append, "s", [y], ink);
    var first := RoundTrip([], down);
    RoundTripLogs([], down);
    RoundTripLogs(first, along);
    assert [] + [down] == [down];
    assert CausalAt<Operation>([], 0);
    RoundTripCausal([], down);
    RoundTripCausal(first, along);
    RunRoundTrip(EMPTY_PICTURE, [], down);
    RunRoundTrip(EMPTY_PICTURE, first, along);
    ReplayTwo(EMPTY_PICTURE, down, along);
    TwicePoints(EMPTY_PICTURE, down, along, x, y);
    assert SettledAt([down] + [along], 0) && SettledAt([down] + [along], 1);
    OneDotLate(down, along);
  }

  lemma TwicePoints(p: Picture, down: Operation, along: Operation, x: Point, y: Point)
    requires IsBegin(down, "s") && IsDraw(along, "s") && along.kind == Append
    requires down.points == [x] && along.points == [y]
    ensures PointsOf(Applied(Applied(p, down), along), "s") == [x, y]
    ensures PointsOf(Applied(Applied(Applied(Applied(p, down), down), along), along), "s") == [x, y, y]
  {
    var p1 := Applied(p, down);
    var p2 := Applied(p1, down);
    var p3 := Applied(p2, along);
    PointsAfter(p, down, "s");
    PointsAfter(p1, down, "s");
    PointsAfter(p1, along, "s");
    PointsAfter(p2, along, "s");
    PointsAfter(p3, along, "s");
    assert [x] + [y] == [x, y] && [x, y] + [y] == [x, y, y];
  }

  /** The late ink of the run above: the Begin is echoed before the point is added. */
  lemma OneDotLate(down: Operation, along: Operation)
    requires IsBegin(down, "s") && IsDraw(along, "s") && along.kind == Append && |along.points| == 1
    ensures |Echoes(RoundTrip(RoundTrip([], down), along))| == 2
    ensures LateInk(RoundTrip(RoundTrip([], down), along), [down] + [along], "s") == 1
  {
    var log, first := [down] + [along], RoundTrip([], down);
    RoundTripLogs([], down);
    RoundTripLogs(first, along);
    LateInkOfRoundTrip([], down, log, "s");
    LateInkOfRoundTrip(first, along, log, "s");
    assert log[0..][0] == down && BeginsIn(log[0..], "s");
    assert log[1..] == [along] && !BeginsIn([along], "s");
  }
}
