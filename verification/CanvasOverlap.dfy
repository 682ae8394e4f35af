/**
 Runs of any log, with undos and clears, that may start with operations under way:
 after a restore, or after a clear, some of the drawer's operations are not on the
 picture and still to be echoed.
 */
module CanvasOverlap {
  import opened Wrappers
  import opened CanvasReplay
  import opened EchoedTrace
  import opened CanvasConvergence

  type Step = EchoedTrace.Step<Operation>

  // ---------- Orders without repetition ----------

  lemma PrefixPrecedes(front: seq<StrokeId>, order: seq<StrokeId>, s: StrokeId, t: StrokeId)
    requires front <= order && s in front && t !in front && t in order
    ensures Precedes(order, s, t)
  {
    var i :| 0 <= i < |front| && front[i] == s;
    var j :| 0 <= j < |order| && order[j] == t;
    assert forall k :: 0 <= k < |front| ==> order[k] == front[k];
    assert order[i] == s && j >= |front|;
  }

  lemma PrecedesOneWay(order: seq<StrokeId>, s: StrokeId, t: StrokeId)
    requires NoDups(order) && Precedes(order, s, t)
    ensures !Precedes(order, t, s)
  {
  }

  lemma PrefixWithAll(front: seq<StrokeId>, order: seq<StrokeId>)
    requires front <= order && NoDups(order) && forall s :: s in order ==> s in front
    ensures front == order
  {
    if |front| < |order| {
      FreshInOrder(front, order);
      assert false;
    }
  }

  // ---------- Strokes that are there for good ----------

  /** The strokes of a picture that nothing still to come removes, in paint order. */
  function Lasting(p: Picture, left: seq<Operation>): seq<StrokeId> {
    if Clear in left then [] else Erased(p.order, UndoneIn(left))
  }

  lemma RemovedByName(left: seq<Operation>, s: StrokeId)
    ensures RemovedIn(left, s) <==> Clear in left || Undo(s) in left
  {
    if Clear in left {
      var i :| 0 <= i < |left| && left[i] == Clear;
      assert Removes(left[i], s);
    }
    if Undo(s) in left {
      var i :| 0 <= i < |left| && left[i] == Undo(s);
      assert Removes(left[i], s);
    }
  }

  lemma LastingMembers(p: Picture, left: seq<Operation>, s: StrokeId)
    requires p.WellFormed()
    ensures NoDups(Lasting(p, left)) && (s in Lasting(p, left) <==> s in p.strokes && !RemovedIn(left, s))
  {
    RemovedByName(left, s);
    ErasedMembers(p.order, UndoneIn(left));
    ErasedNoDups(p.order, UndoneIn(left));
  }

  lemma LastingAtEnd(p: Picture)
    ensures Lasting(p, []) == p.order
  {
    ErasedNothing(p.order, UndoneIn([]));
  }

  /** A step that brings a stroke to the picture for good. */
  predicate Shows(p: Picture, step: Step, left: seq<Operation>) {
    && step.op.Draw? && !(step.Local? && step.op.kind == End)
    && !RemovedIn(left, step.op.stroke) && step.op.stroke !in p.strokes
  }

  function WithShown(p: Picture, step: Step, left: seq<Operation>): seq<StrokeId> {
    if Shows(p, step, left) then Lasting(p, left) + [step.op.stroke] else Lasting(p, left)
  }

  lemma DrawLasting(p: Picture, op: Operation, left: seq<Operation>)
    requires p.WellFormed() && op.Draw?
    ensures Lasting(Applied(p, op), left) == WithShown(p, Echo(op), left)
  {
    RemovedByName(left, op.stroke);
    ErasedAppend(p.order, op.stroke, UndoneIn(left));
  }

  lemma LocalLasting(p: Picture, op: Operation, left: seq<Operation>)
    requires p.WellFormed() && op in left
    ensures Lasting(AfterStep(p, Local(op)), left) == WithShown(p, Local(op), left)
  {
    if op.Draw? {
      DrawLasting(p, op, left);
    } else if op.Undo? {
      ErasedAfterRemoval(p.order, op.stroke, UndoneIn(left));
    }
  }

  lemma EchoLasting(p: Picture, op: Operation, left: seq<Operation>, fewer: seq<Operation>)
    requires p.WellFormed() && left == [op] + fewer
    ensures Lasting(Applied(p, op), fewer) == WithShown(p, Echo(op), left)
  {
    assert Clear in left <==> op.Clear? || Clear in fewer;
    assert forall s :: Undo(s) in left <==> op == Undo(s) || Undo(s) in fewer;
    if op.Draw? {
      assert UndoneIn(left) == UndoneIn(fewer);
      DrawLasting(p, op, fewer);
      RemovedByName(left, op.stroke);
      RemovedByName(fewer, op.stroke);
    } else if op.Undo? {
      ErasedTwice(p.order, {op.stroke}, UndoneIn(fewer));
      assert {op.stroke} + UndoneIn(fewer) == UndoneIn(left);
    }
  }

  lemma LeftAfter(log: seq<Operation>, n: nat)
    requires n < |log|
    ensures log[n..] == [log[n]] + log[n + 1..]
  {
  }

  // ---------- They only move up ----------

  function LastingInLog(p: Picture, log: seq<Operation>, n: nat): seq<StrokeId>
    requires n <= |log|
  {
    Lasting(Replay(p, log[..n]), log[n..])
  }

  function LastingInTrace(p: Picture, trace: seq<Step>, log: seq<Operation>, k: nat): seq<StrokeId>
    requires k <= |trace| && |Echoes(trace[..k])| <= |log|
  {
    Lasting(RunTrace(p, trace[..k]), log[|Echoes(trace[..k])|..])
  }

  lemma {:induction false} LogGrows(p: Picture, log: seq<Operation>, n: nat)
    requires p.WellFormed() && n <= |log|
    ensures LastingInLog(p, log, n) <= Replay(p, log).order
    decreases |log| - n
  {
    if n == |log| {
      assert log[..n] == log && log[n..] == [];
      LastingAtEnd(Replay(p, log));
    } else {
      ReplaySnoc(p, log, n);
      ReplayWellFormed(p, log[..n]);
      LeftAfter(log, n);
      EchoLasting(Replay(p, log[..n]), log[n], log[n..], log[n + 1..]);
      LogGrows(p, log, n + 1);
    }
  }

  lemma LocalStep(p: Picture, before: seq<Step>, op: Operation, log: seq<Operation>, e: nat)
    requires p.WellFormed() && StepAt(before, Local(op), log, e)
    ensures |Echoes(before + [Local(op)])| == |Echoes(before)|
    ensures var r, left := RunTrace(p, before), log[|Echoes(before)|..];
      Lasting(RunTrace(p, before + [Local(op)]), left) == WithShown(r, Local(op), left)
  {
    var a, b := e + |Locals(before)|, |Echoes(before)|;
    EditAlone(p, before, op, log, e);
    MemberOfRest(log, b, a);
    RunTraceWellFormed(p, before);
    LocalLasting(RunTrace(p, before), op, log[b..]);
  }

  lemma MemberOfRest(log: seq<Operation>, b: nat, a: nat)
    requires b <= a < |log|
    ensures log[a] in log[b..]
  {
    assert log[b..][a - b] == log[a];
  }

  lemma EchoStep(p: Picture, before: seq<Step>, op: Operation, log: seq<Operation>, e: nat)
    requires p.WellFormed() && StepAt(before, Echo(op), log, e)
    ensures |Echoes(before + [Echo(op)])| == |Echoes(before)| + 1 <= |log|
    ensures var r, b := RunTrace(p, before), |Echoes(before)|;
      Lasting(RunTrace(p, before + [Echo(op)]), log[b + 1..]) == WithShown(r, Echo(op), log[b..])
  {
    var b := |Echoes(before)|;
    EchoTogether(p, before, op, log, e);
    RunTraceWellFormed(p, before);
    LeftAfter(log, b);
    EchoLasting(RunTrace(p, before), op, log[b..], log[b + 1..]);
  }

  lemma LastingStep(p: Picture, trace: seq<Step>, log: seq<Operation>, e: nat, k: nat)
    requires p.WellFormed() && Follows(trace, log, e) && k < |trace|
    ensures |Echoes(trace[..k])| <= |Echoes(trace[..k + 1])| <= |log|
    ensures LastingInTrace(p, trace, log, k + 1)
         == WithShown(RunTrace(p, trace[..k]), trace[k], log[|Echoes(trace[..k])|..])
  {
    StepOf(trace, log, e, k);
    if trace[k].Local? {
      LocalStep(p, trace[..k], trace[k].op, log, e);
    } else {
      EchoStep(p, trace[..k], trace[k].op, log, e);
    }
  }

  lemma {:induction false} TraceGrows(p: Picture, trace: seq<Step>, log: seq<Operation>, e: nat, k: nat)
    requires p.WellFormed() && Follows(trace, log, e) && Echoes(trace) == log && k <= |trace|
    ensures |Echoes(trace[..k])| <= |log| && LastingInTrace(p, trace, log, k) <= RunTrace(p, trace).order
    decreases |trace| - k
  {
    if k == |trace| {
      assert trace[..k] == trace && log[|log|..] == [];
      LastingAtEnd(RunTrace(p, trace));
    } else {
      LastingStep(p, trace, log, e, k);
      TraceGrows(p, trace, log, e, k + 1);
    }
  }

  // ---------- The log's own order ----------

  /** A drawing that no later operation of the log removes. */
  predicate Enters(log: seq<Operation>, d: nat, s: StrokeId) {
    d < |log| && IsDraw(log[d], s) && !RemovedIn(log[d..], s)
  }

  /** The first drawing of a stroke after its last removal, or the length if there is none. */
  function Entry(log: seq<Operation>, s: StrokeId): (n: nat)
    ensures n <= |log| && (n < |log| ==> Enters(log, n, s))
    ensures forall d: nat :: Enters(log, d, s) ==> n <= d
  {
    EntryFrom(log, 0, s)
  }

  function EntryFrom(log: seq<Operation>, i: nat, s: StrokeId): (n: nat)
    requires i <= |log|
    ensures i <= n <= |log| && (n < |log| ==> Enters(log, n, s))
    ensures forall d: nat :: i <= d && Enters(log, d, s) ==> n <= d
    decreases |log| - i
  {
    if i == |log| || Enters(log, i, s) then i else EntryFrom(log, i + 1, s)
  }

  /** A stroke that is on the log's picture, and not from the start on. */
  predicate NewIn(p: Picture, log: seq<Operation>, s: StrokeId) {
    Entry(log, s) < |log| && (s in p.strokes ==> RemovedIn(log, s))
  }

  predicate Kept(p: Picture, log: seq<Operation>, s: StrokeId) {
    s in p.strokes && !RemovedIn(log, s)
  }

  lemma EntersSnoc(front: seq<Operation>, op: Operation, d: nat, s: StrokeId)
    requires d < |front|
    ensures Enters(front + [op], d, s) <==> Enters(front, d, s) && !Removes(op, s)
  {
    var log := front + [op];
    assert log[d..] == front[d..] + [op];
    RemovedSnoc(front[d..], op, s);
  }

  lemma RemovedSnoc(front: seq<Operation>, op: Operation, s: StrokeId)
    ensures RemovedIn(front + [op], s) <==> RemovedIn(front, s) || Removes(op, s)
  {
    RemovedByName(front, s);
    RemovedByName(front + [op], s);
  }

  /** A stroke is on the log's picture exactly when it was kept or has entered. */
  lemma {:induction false} PresentIff(p: Picture, log: seq<Operation>, s: StrokeId)
    ensures s in Replay(p, log).strokes <==> Kept(p, log, s) || Entry(log, s) < |log|
  {
    if log == [] {
      assert !RemovedIn(log, s);
    } else {
      var front, op := log[..|log| - 1], log[|log| - 1];
      assert log == front + [op];
      PresentIff(p, front, s);
      RemovedSnoc(front, op, s);
      EntrySnoc(front, op, s);
    }
  }

  lemma EntrySnoc(front: seq<Operation>, op: Operation, s: StrokeId)
    ensures Entry(front + [op], s) < |front| + 1 <==>
      IsDraw(op, s) || (Entry(front, s) < |front| && !Removes(op, s))
  {
    var log := front + [op];
    if Entry(front, s) < |front| {
      EntersSnoc(front, op, Entry(front, s), s);
    }
    if Entry(log, s) < |front| {
      EntersSnoc(front, op, Entry(log, s), s);
    }
    assert log[|front|..] == [op];
    assert Enters(log, |front|, s) <==> IsDraw(op, s);
  }

  /** A stroke enters a beginning of the log, unless a removal is still to come, when it enters the log. */
  lemma EntryInFront(log: seq<Operation>, n: nat, s: StrokeId)
    requires n <= |log|
    ensures RemovedIn(log, s) <==> RemovedIn(log[..n], s) || RemovedIn(log[n..], s)
    ensures !RemovedIn(log[n..], s) ==> (Entry(log[..n], s) < n <==> Entry(log, s) < n)
    ensures Entry(log, s) < n ==> !RemovedIn(log[n..], s)
  {
    var front, rear := log[..n], log[n..];
    assert log == front + rear;
    RemovedConcat(front, rear, s);
    if Entry(log, s) < n {
      EntersFront(log, n, Entry(log, s), s);
    }
    if !RemovedIn(rear, s) && Entry(front, s) < n {
      EntersFront(log, n, Entry(front, s), s);
    }
  }

  lemma RemovedConcat(front: seq<Operation>, rear: seq<Operation>, s: StrokeId)
    ensures RemovedIn(front + rear, s) <==> RemovedIn(front, s) || RemovedIn(rear, s)
  {
    RemovedByName(front, s);
    RemovedByName(rear, s);
    RemovedByName(front + rear, s);
  }

  lemma EntersFront(log: seq<Operation>, n: nat, d: nat, s: StrokeId)
    requires d < n <= |log|
    ensures Enters(log, d, s) <==> Enters(log[..n], d, s) && !RemovedIn(log[n..], s)
  {
    assert log[d..] == log[..n][d..] + log[n..];
    RemovedConcat(log[..n][d..], log[n..], s);
  }

  /** Strokes new to the picture are painted in the order in which they enter the log. */
  lemma NewInOrder(p: Picture, log: seq<Operation>, s: StrokeId, t: StrokeId)
    requires p.WellFormed() && NewIn(p, log, s) && NewIn(p, log, t) && Entry(log, s) < Entry(log, t)
    ensures Precedes(Replay(p, log).order, s, t)
  {
    var n := Entry(log, t);
    var q := Replay(p, log[..n]);
    EntryInFront(log, n, s);
    EntryInFront(log, n, t);
    PresentIff(p, log[..n], s);
    PresentIff(p, log[..n], t);
    PresentIff(p, log, t);
    ReplayWellFormed(p, log[..n]);
    ReplayWellFormed(p, log);
    LastingMembers(q, log[n..], s);
    LastingMembers(q, log[n..], t);
    LogGrows(p, log, n);
    PrefixPrecedes(LastingInLog(p, log, n), Replay(p, log).order, s, t);
  }

  // ---------- When the paint order is lost ----------

  /**
   The drawer adds to stroke t, which nothing still to be echoed removes, while s, which
   enters the log before it, is not on the picture for good.
   */
  ghost predicate Overtakes(p: Picture, trace: seq<Step>, log: seq<Operation>, k: nat, s: StrokeId)
    requires k < |trace| && |Echoes(trace[..k])| <= |log|
  {
    && trace[k].Local? && trace[k].op.Draw? && trace[k].op.kind != End
    && !RemovedIn(log[|Echoes(trace[..k])|..], trace[k].op.stroke)
    && NewIn(p, log, s) && NewIn(p, log, trace[k].op.stroke)
    && Entry(log, s) < Entry(log, trace[k].op.stroke)
    && s !in LastingInTrace(p, trace, log, k)
  }

  ghost predicate Overtaken(p: Picture, trace: seq<Step>, log: seq<Operation>) {
    exists k, s :: 0 <= k < |trace| && |Echoes(trace[..k])| <= |log| && Overtakes(p, trace, log, k, s)
  }

  /** What was kept, or has entered by what has been echoed, is on the replica. */
  ghost predicate EchoesShown(p: Picture, trace: seq<Step>, log: seq<Operation>, s: StrokeId) {
    Kept(p, log, s) || Entry(log, s) < |Echoes(trace)| ==> s in RunTrace(p, trace).strokes
  }

  lemma NeverRemovedAgain(p: Picture, log: seq<Operation>, b: nat, i: nat, s: StrokeId)
    requires b <= i < |log| && (Kept(p, log, s) || Entry(log, s) < b)
    ensures !Removes(log[i], s) && !RemovedIn(log[b..], s)
  {
    EntryInFront(log, b, s);
    assert log[b..][i - b] == log[i];
  }

  lemma EchoesShownLocal(
    p: Picture, before: seq<Step>, op: Operation, log: seq<Operation>, e: nat, s: StrokeId)
    requires StepAt(before, Local(op), log, e) && EchoesShown(p, before, log, s)
    ensures EchoesShown(p, before + [Local(op)], log, s)
  {
    var a, b := e + |Locals(before)|, |Echoes(before)|;
    EditAlone(p, before, op, log, e);
    if Kept(p, log, s) || Entry(log, s) < b {
      NeverRemovedAgain(p, log, b, a, s);
      StyleAfter(RunTrace(p, before), op, s);
    }
  }

  lemma EchoesShownEcho(
    p: Picture, before: seq<Step>, op: Operation, log: seq<Operation>, e: nat, s: StrokeId)
    requires StepAt(before, Echo(op), log, e) && EchoesShown(p, before, log, s)
    ensures EchoesShown(p, before + [Echo(op)], log, s)
  {
    var b := |Echoes(before)|;
    EchoTogether(p, before, op, log, e);
    StyleAfter(RunTrace(p, before), op, s);
    if Kept(p, log, s) || Entry(log, s) < b {
      NeverRemovedAgain(p, log, b, b, s);
    }
  }

  lemma {:induction false} EchoedIsShown(
    p: Picture, trace: seq<Step>, log: seq<Operation>, e: nat, k: nat, s: StrokeId)
    requires Follows(trace, log, e) && k <= |trace|
    ensures EchoesShown(p, trace[..k], log, s)
  {
    if k == 0 {
      assert trace[..0] == [];
    } else {
      EchoedIsShown(p, trace, log, e, k - 1, s);
      StepOf(trace, log, e, k - 1);
      if trace[k - 1].Local? {
        EchoesShownLocal(p, trace[..k - 1], trace[k - 1].op, log, e, s);
      } else {
        EchoesShownEcho(p, trace[..k - 1], trace[k - 1].op, log, e, s);
      }
    }
  }

  /** A stroke that a step brings to the picture for good is new, and enters the log no later than there. */
  lemma ShownIsNew(p: Picture, trace: seq<Step>, log: seq<Operation>, e: nat, k: nat)
    requires Follows(trace, log, e) && k < |trace| && |Echoes(trace[..k])| <= |log|
    requires Shows(RunTrace(p, trace[..k]), trace[k], log[|Echoes(trace[..k])|..])
    ensures NewIn(p, log, trace[k].op.stroke)
    ensures trace[k].Echo? ==> Entry(log, trace[k].op.stroke) <= |Echoes(trace[..k])|
  {
    var b, t := |Echoes(trace[..k])|, trace[k].op.stroke;
    StepOf(trace, log, e, k);
    var d := if trace[k].Local? then e + |Locals(trace[..k])| else b;
    assert log[d] == trace[k].op;
    assert log[b..] == log[b..d] + log[d..];
    RemovedConcat(log[b..d], log[d..], t);
    assert Enters(log, d, t);
    EchoedIsShown(p, trace, log, e, k, t);
  }

  /** A stroke of the log's picture that is still missing is new, and has not been echoed. */
  lemma MissingIsNew(p: Picture, trace: seq<Step>, log: seq<Operation>, e: nat, k: nat, s: StrokeId)
    requires p.WellFormed() && Follows(trace, log, e) && k <= |trace| && |Echoes(trace[..k])| <= |log|
    requires s in Replay(p, log).order && s !in LastingInTrace(p, trace, log, k)
    ensures NewIn(p, log, s) && |Echoes(trace[..k])| <= Entry(log, s)
  {
    var b := |Echoes(trace[..k])|;
    RunTraceWellFormed(p, trace[..k]);
    ReplayWellFormed(p, log);
    LastingMembers(RunTrace(p, trace[..k]), log[b..], s);
    PresentIff(p, log, s);
    EchoedIsShown(p, trace, log, e, k, s);
    EntryInFront(log, b, s);
  }

  /** The next stroke that comes to the picture for good is the next one of the log's order. */
  lemma NextIsNext(p: Picture, trace: seq<Step>, log: seq<Operation>, e: nat, k: nat, s: StrokeId)
    requires p.WellFormed() && Follows(trace, log, e) && k < |trace| && |Echoes(trace[..k])| <= |log|
    requires !Overtaken(p, trace, log)
    requires Shows(RunTrace(p, trace[..k]), trace[k], log[|Echoes(trace[..k])|..])
    requires s in Replay(p, log).order && s !in LastingInTrace(p, trace, log, k)
    ensures s == trace[k].op.stroke || Precedes(Replay(p, log).order, trace[k].op.stroke, s)
  {
    var t := trace[k].op.stroke;
    ShownIsNew(p, trace, log, e, k);
    MissingIsNew(p, trace, log, e, k, s);
    assert !Overtakes(p, trace, log, k, s);
    if s != t {
      assert Enters(log, Entry(log, s), s) && Enters(log, Entry(log, t), t);
      NewInOrder(p, log, t, s);
    }
  }

  /** Without overtaking, the strokes on the replica for good are at every moment the first of the log's. */
  lemma {:induction false} InOrderUnlessOvertaken(p: Picture, trace: seq<Step>, log: seq<Operation>, e: nat, k: nat)
    requires p.WellFormed() && Follows(trace, log, e) && k <= |trace| && !Overtaken(p, trace, log)
    ensures |Echoes(trace[..k])| <= |log| && LastingInTrace(p, trace, log, k) <= Replay(p, log).order
  {
    if k == 0 {
      assert trace[..0] == [] && log[..0] == [] && log[0..] == log;
      LogGrows(p, log, 0);
    } else {
      InOrderUnlessOvertaken(p, trace, log, e, k - 1);
      LastingStep(p, trace, log, e, k - 1);
      if Shows(RunTrace(p, trace[..k - 1]), trace[k - 1], log[|Echoes(trace[..k - 1])|..]) {
        NextStroke(p, trace, log, e, k - 1);
      }
    }
  }

  lemma NextStroke(p: Picture, trace: seq<Step>, log: seq<Operation>, e: nat, k: nat)
    requires p.WellFormed() && Follows(trace, log, e) && k < |trace| && |Echoes(trace[..k])| <= |log|
    requires !Overtaken(p, trace, log)
    requires Shows(RunTrace(p, trace[..k]), trace[k], log[|Echoes(trace[..k])|..])
    requires LastingInTrace(p, trace, log, k) <= Replay(p, log).order
    ensures LastingInTrace(p, trace, log, k) + [trace[k].op.stroke] <= Replay(p, log).order
  {
    var shown, order, t := LastingInTrace(p, trace, log, k), Replay(p, log).order, trace[k].op.stroke;
    RunTraceWellFormed(p, trace[..k]);
    ReplayWellFormed(p, log);
    LastingMembers(RunTrace(p, trace[..k]), log[|Echoes(trace[..k])|..], t);
    ShownIsNew(p, trace, log, e, k);
    PresentIff(p, log, t);
    ShorterPrefix(shown, order, t);
    var s := order[|shown|];
    FreshInOrder(shown, order);
    NextIsNext(p, trace, log, e, k, s);
    if s != t {
      FirstMissing(shown, order, t);
    }
  }

  lemma ShorterPrefix(front: seq<StrokeId>, order: seq<StrokeId>, t: StrokeId)
    requires front <= order && t in order && t !in front
    ensures |front| < |order|
  {
  }

  lemma FreshInOrder(front: seq<StrokeId>, order: seq<StrokeId>)
    requires front <= order && |front| < |order| && NoDups(order)
    ensures order[|front|] in order && order[|front|] !in front
  {
  }

  /** Nothing outside a prefix comes before the stroke that follows it. */
  lemma FirstMissing(front: seq<StrokeId>, order: seq<StrokeId>, t: StrokeId)
    requires front <= order && |front| < |order| && NoDups(order) && t !in front
    ensures !Precedes(order, t, order[|front|])
  {
    assert forall i :: 0 <= i < |front| ==> order[i] == front[i] && order[i] != t;
  }

  /** A drawing that overtakes puts its stroke on the picture for good, without the other one. */
  lemma OvertakingPaints(p: Picture, trace: seq<Step>, log: seq<Operation>, e: nat, k: nat, s: StrokeId)
    requires p.WellFormed() && Follows(trace, log, e) && k < |trace| && |Echoes(trace[..k])| <= |log|
    requires Overtakes(p, trace, log, k, s)
    ensures |Echoes(trace[..k + 1])| <= |log|
    ensures trace[k].op.stroke in LastingInTrace(p, trace, log, k + 1) && s !in LastingInTrace(p, trace, log, k + 1)
  {
    var t, r, left := trace[k].op.stroke, RunTrace(p, trace[..k]), log[|Echoes(trace[..k])|..];
    RunTraceWellFormed(p, trace[..k]);
    LastingMembers(r, left, t);
    LastingStep(p, trace, log, e, k);
  }

  /** Overtaking shows in the final order. */
  lemma OvertakingShows(p: Picture, trace: seq<Step>, log: seq<Operation>, e: nat, k: nat, s: StrokeId)
    requires p.WellFormed() && Follows(trace, log, e) && Echoes(trace) == log
    requires k < |trace| && |Echoes(trace[..k])| <= |log| && Overtakes(p, trace, log, k, s)
    ensures RunTrace(p, trace).order != Replay(p, log).order
  {
    var t, mine := trace[k].op.stroke, RunTrace(p, trace);
    assert trace[..|trace|] == trace;
    OvertakingPaints(p, trace, log, e, k, s);
    TraceGrows(p, trace, log, e, k + 1);
    EchoedIsShown(p, trace, log, e, |trace|, s);
    RunTraceWellFormed(p, trace);
    PrefixPrecedes(LastingInTrace(p, trace, log, k + 1), mine.order, t, s);
    PrecedesOneWay(mine.order, t, s);
    NewInOrder(p, log, s, t);
  }

  /**
   Operations may be under way at the start, and strokes may be undone and cleared. Once
   the log has been echoed, the replica's paint order is the log's exactly when the
   drawer never overtook a stroke under way.
   */
  lemma {:induction false} OrderConvergesIff(p: Picture, trace: seq<Step>, log: seq<Operation>, e: nat)
    requires p.WellFormed() && Follows(trace, log, e) && Echoes(trace) == log
    ensures RunTrace(p, trace).order == Replay(p, log).order <==> !Overtaken(p, trace, log)
  {
    var mine, logged := RunTrace(p, trace), Replay(p, log);
    if Overtaken(p, trace, log) {
      var k, s :| 0 <= k < |trace| && |Echoes(trace[..k])| <= |log| && Overtakes(p, trace, log, k, s);
      OvertakingShows(p, trace, log, e, k, s);
    } else {
      assert trace[..|trace|] == trace && log[|log|..] == [];
      InOrderUnlessOvertaken(p, trace, log, e, |trace|);
      LastingAtEnd(mine);
      ConvergesIff(p, trace, log, e);
      RunTraceWellFormed(p, trace);
      ReplayWellFormed(p, log);
      assert forall s :: s in logged.order ==> s in logged.strokes.Keys;
      PrefixWithAll(mine.order, logged.order);
    }
  }

  /**
   Strokes and styles agree; the paint orders agree exactly when the drawer overtook nothing,
   and the pictures exactly when, besides, no stroke has late ink.
   */
  ghost predicate AgreeUnless(mine: Picture, logged: Picture, base: Picture, trace: seq<Step>, log: seq<Operation>)
    requires |Echoes(trace)| <= |log|
  {
    && mine.strokes.Keys == logged.strokes.Keys
    && (forall s :: s in mine.strokes ==> mine.strokes[s].style == logged.strokes[s].style)
    && (mine.order == logged.order <==> !Overtaken(base, trace, log))
    && (mine == logged <==> !Overtaken(base, trace, log) && NoLateInk(mine, trace, log))
  }

  /**
   Strokes and styles always converge, whatever the log. The replica is the replay of the
   log if and only if the drawer never overtook a stroke under way and no stroke has late ink.
   */
  lemma {:induction false} OverlapConvergence(p: Picture, trace: seq<Step>, log: seq<Operation>, e: nat)
    requires p.WellFormed() && Follows(trace, log, e) && Echoes(trace) == log
    ensures AgreeUnless(RunTrace(p, trace), Replay(p, log), p, trace, log)
  {
    OrderConvergesIff(p, trace, log, e);
    ConvergesIff(p, trace, log, e);
  }

  // ---------- Nothing under way ----------

  /**
   A drawer who starts with nothing under way, clears nothing, draws no stroke again after
   its undo and ends only strokes it drew, overtakes nothing.
   */
  lemma {:induction false} QuietNotOvertaken(p: Picture, trace: seq<Step>)
    requires Causal(trace) && Complete(trace) && p.WellFormed() && OrderlyLog(p, Locals(trace))
    ensures Follows(trace, Locals(trace), 0) && !Overtaken(p, trace, Locals(trace))
  {
    CausalFollows(trace);
    EchoConvergence(p, trace);
    OrderConvergesIff(p, trace, Locals(trace), 0);
  }

  // ---------- Restore ----------

  /** A board restored from a snapshot of an earlier log, with e operations not in it yet. */
  lemma {:induction false} RestoreConverges(prior: seq<Operation>, trace: seq<Step>, log: seq<Operation>, e: nat)
    requires Follows(trace, log, e) && Echoes(trace) == log
    ensures var base := Replay(EMPTY_PICTURE, prior);
      AgreeUnless(RunTrace(base, trace), Replay(EMPTY_PICTURE, prior + log), base, trace, log)
  {
    ReplayWellFormed(EMPTY_PICTURE, prior);
    ReplayAppend(EMPTY_PICTURE, prior, log);
    OverlapConvergence(Replay(EMPTY_PICTURE, prior), trace, log, e);
  }

  /**
   A board restored behind its own stream: the operations of the gap have been echoed already
   and do not come again. At the end a stroke without late ink is right exactly as far as the
   snapshot had it right, or the rest of the log renews it.
   */
  lemma {:induction false} RestoreBehindStrokes(
    prior: seq<Operation>, gap: seq<Operation>, trace: seq<Step>, log: seq<Operation>, e: nat, s: StrokeId)
    requires Follows(trace, log, e) && Echoes(trace) == log
    ensures var base, full := Replay(EMPTY_PICTURE, prior), Replay(EMPTY_PICTURE, prior + gap);
      var mine, logged := RunTrace(base, trace), Replay(EMPTY_PICTURE, prior + gap + log);
      && StyleRightIff(mine, logged, base, full, log, s)
      && (LateInk(trace, log, s) == 0 ==> PointsRightIff(mine, logged, base, full, log, s))
  {
    var base, full := Replay(EMPTY_PICTURE, prior), Replay(EMPTY_PICTURE, prior + gap);
    ReplayAppend(EMPTY_PICTURE, prior + gap, log);
    StrokesConverge(base, trace, log, e, s);
    StylesMeet(base, full, log, s);
    PointsMeet(base, full, log, s);
  }

  /** Every run from the one picture agrees with the log from the other, but for overtaking and late ink. */
  ghost predicate AlwaysAgree(base: Picture, full: Picture) {
    forall trace: seq<Step>, log: seq<Operation>, e: nat :: Follows(trace, log, e) && Echoes(trace) == log ==>
      AgreeUnless(RunTrace(base, trace), Replay(full, log), base, trace, log)
  }

  /** So the drawer's board converges after the restore exactly when the gap leaves the snapshot's picture as it is. */
  lemma {:induction false} RestoreBehindConvergesIff(prior: seq<Operation>, gap: seq<Operation>)
    ensures var base, full := Replay(EMPTY_PICTURE, prior), Replay(EMPTY_PICTURE, prior + gap);
      && full == Replay(base, gap)
      && (AlwaysAgree(base, full) <==> Replay(base, gap) == base)
  {
    var base, full := Replay(EMPTY_PICTURE, prior), Replay(EMPTY_PICTURE, prior + gap);
    ReplayAppend(EMPTY_PICTURE, prior, gap);
    ReplayWellFormed(EMPTY_PICTURE, prior);
    if base == full {
      forall trace: seq<Step>, log: seq<Operation>, e: nat | Follows(trace, log, e) && Echoes(trace) == log
        ensures AgreeUnless(RunTrace(base, trace), Replay(full, log), base, trace, log)
      {
        OverlapConvergence(base, trace, log, e);
      }
    }
    if AlwaysAgree(base, full) {
      var none: seq<Step> := [];
      assert Follows(none, [], 0) && Echoes(none) == [];
      assert AgreeUnless(RunTrace(base, none), Replay(full, []), base, none, []);
    }
  }

  // ---------- Clear ----------

  lemma ReplayAfterClear(p: Picture, log: seq<Operation>, c: nat)
    requires c < |log| && log[c] == Clear
    ensures Replay(p, log) == Replay(EMPTY_PICTURE, log[c + 1..])
  {
    ReplaySnoc(p, log, c);
    assert log == log[..c + 1] + log[c + 1..];
    ReplayAppend(p, log[..c + 1], log[c + 1..]);
  }

  lemma RunAfterClear(p: Picture, trace: seq<Step>, n: nat)
    requires n < |trace| && trace[n] == Echo(Clear)
    ensures RunTrace(p, trace) == RunTrace(EMPTY_PICTURE, trace[n + 1..])
  {
    assert trace[..n + 1] == trace[..n] + [trace[n]];
    TraceSnoc(p, trace[..n], trace[n]);
    assert trace == trace[..n + 1] + trace[n + 1..];
    RunTraceAppend(p, trace[..n + 1], trace[n + 1..]);
  }

  /**
   From the echo of a clear on, a run is one that starts with an empty picture and with
   whatever was drawn while the clear was under way. The clear is the log's c-th operation.
   */
  lemma {:induction false} ClearConverges(
    p: Picture, trace: seq<Step>, log: seq<Operation>, e: nat, n: nat, c: nat)
    requires Follows(trace, log, e) && Echoes(trace) == log && n < |trace| && trace[n] == Echo(Clear)
    requires c == |Echoes(trace[..n])| && c < |log|
    ensures Echoes(trace[n + 1..]) == log[c + 1..]
    ensures AgreeUnless(RunTrace(p, trace), Replay(p, log), EMPTY_PICTURE, trace[n + 1..], log[c + 1..])
  {
    AfterEcho(trace, log, e, n, c);
    var after, rest, left := trace[n + 1..], log[c + 1..], e + |Locals(trace[..n + 1])| - (c + 1);
    OverlapConvergence(EMPTY_PICTURE, after, rest, left);
    assert RunTrace(p, trace) == RunTrace(EMPTY_PICTURE, after) by {
      RunAfterClear(p, trace, n);
    }
    assert Replay(p, log) == Replay(EMPTY_PICTURE, rest) by {
      ReplayAfterClear(p, log, c);
    }
  }

  /** If nothing is drawn while a clear is under way, the run after it converges on its own. */
  lemma {:induction false} QuietClearConverges(p: Picture, before: seq<Step>, after: seq<Step>)
    requires |before| > 0 && before[|before| - 1] == Echo(Clear) && Complete(before)
    requires Causal(after) && Complete(after) && OrderlyLog(EMPTY_PICTURE, Locals(after))
    ensures var mine, logged := RunTrace(p, before + after), Replay(p, Locals(before) + Locals(after));
      && mine.order == logged.order
      && mine.strokes.Keys == logged.strokes.Keys
      && (mine == logged <==> NoLateInk(mine, after, Locals(after)))
  {
    assert Echoes(before)[|Echoes(before)| - 1] == Clear;
    RunTraceAppend(p, before, after);
    assert RunTrace(p, before) == EMPTY_PICTURE;
    var log := Locals(before);
    assert Replay(p, log) == EMPTY_PICTURE;
    ReplayAppend(p, log, Locals(after));
    QuietNotOvertaken(EMPTY_PICTURE, after);
    OverlapConvergence(EMPTY_PICTURE, after, Locals(after), 0);
  }

  // ---------- Two runs that do not converge ----------

  lemma FourSteps(p: Picture, a: Step, b: Step, c: Step, d: Step)
    ensures RunTrace(p, [a] + [b] + ([c] + [d])) == AfterStep(AfterStep(AfterStep(AfterStep(p, a), b), c), d)
  {
    RunTraceAppend(p, [a] + [b], [c] + [d]);
    TwoSteps(p, a, b);
    TwoSteps(RunTrace(p, [a] + [b]), c, d);
  }

  lemma TwoSteps(p: Picture, a: Step, b: Step)
    ensures RunTrace(p, [a] + [b]) == AfterStep(AfterStep(p, a), b)
  {
    assert [] + [a] == [a];
    TraceSnoc(p, [], a);
    TraceSnoc(p, [a], b);
  }

  lemma ReplayFour(p: Picture, a: Operation, b: Operation, c: Operation, d: Operation)
    ensures Replay(p, [a] + [b] + ([c] + [d])) == Applied(Applied(Applied(Applied(p, a), b), c), d)
  {
    ReplayAppend(p, [a] + [b], [c] + [d]);
    ReplayTwo(p, a, b);
    ReplayTwo(Replay(p, [a] + [b]), c, d);
  }

  function BusyClearEdits(a: Operation, b: Operation): seq<Step> {
    [Local(Clear)] + [Local(a)] + [Local(b)]
  }

  function BusyClear(a: Operation, b: Operation, more: Operation): seq<Step> {
    BusyClearEdits(a, b) + [Echo(Clear)] + [Local(more)] + [Echo(a)] + [Echo(b)] + [Echo(more)]
  }

  lemma BusyClearBegins(a: Operation, b: Operation)
    ensures Causal(BusyClearEdits(a, b))
    ensures Locals(BusyClearEdits(a, b)) == [Clear, a, b] && Echoes(BusyClearEdits(a, b)) == []
  {
    var none: seq<Step> := [];
    assert CausalAt(none, 0);
    EditOnTop(none, Clear);
    assert none + [Local(Clear)] == [Local(Clear)];
    EditOnTop([Local(Clear)], a);
    EditOnTop([Local(Clear)] + [Local(a)], b);
  }

  lemma BusyClearCausal(a: Operation, b: Operation, more: Operation)
    ensures Causal(BusyClear(a, b, more)) && Complete(BusyClear(a, b, more))
    ensures Locals(BusyClear(a, b, more)) == [Clear] + [a] + ([b] + [more])
  {
    BusyClearBegins(a, b);
    var trace := BusyClearEdits(a, b);
    EchoOnTop(trace, Clear);
    EditOnTop(trace + [Echo(Clear)], more);
    trace := trace + [Echo(Clear)] + [Local(more)];
    EchoOnTop(trace, a);
    EchoOnTop(trace + [Echo(a)], b);
    EchoOnTop(trace + [Echo(a)] + [Echo(b)], more);
    assert [Clear, a, b] + [more] == [Clear] + [a] + ([b] + [more]);
  }

  lemma BusyClearRun(a: Operation, b: Operation, more: Operation)
    requires more.Draw? && more.kind != End
    ensures RunTrace(EMPTY_PICTURE, BusyClear(a, b, more))
         == Applied(Applied(Applied(Applied(EMPTY_PICTURE, more), a), b), more)
  {
    var trace := BusyClearEdits(a, b) + [Echo(Clear)];
    TraceSnoc(EMPTY_PICTURE, BusyClearEdits(a, b), Echo(Clear));
    TraceSnoc(EMPTY_PICTURE, trace, Local(more));
    TraceSnoc(EMPTY_PICTURE, trace + [Local(more)], Echo(a));
    TraceSnoc(EMPTY_PICTURE, trace + [Local(more)] + [Echo(a)], Echo(b));
    TraceSnoc(EMPTY_PICTURE, trace + [Local(more)] + [Echo(a)] + [Echo(b)], Echo(more));
  }

  /** Drawing on while a clear is under way can leave the strokes in another paint order. */
  lemma BusyClearReorders(ink: Style, x: Point)
    ensures var a, b, more := Draw(Begin, "a", [x], ink), Draw(Begin, "b", [x], ink), Draw(Append, "b", [x], ink);
      var trace := BusyClear(a, b, more);
      && Causal(trace) && Complete(trace)
      && RunTrace(EMPTY_PICTURE, trace).order == ["b", "a"]
      && Replay(EMPTY_PICTURE, Locals(trace)).order == ["a", "b"]
  {
    var a, b, more := Draw(Begin, "a", [x], ink), Draw(Begin, "b", [x], ink), Draw(Append, "b", [x], ink);
    BusyClearCausal(a, b, more);
    BusyClearRun(a, b, more);
    ReplayFour(EMPTY_PICTURE, Clear, a, b, more);
    OrdersOfBusyClear(a, b, more);
  }

  /**
   Undoing a stroke with the pen still on it, with nothing under way: the pen's lifting brings
   it back when it is echoed, behind a stroke that the log draws after it.
   */
  lemma UndoUnderPenReorders(ink: Style, x: Point)
    ensures var a, up, b := Draw(Begin, "a", [x], ink), Draw(End, "a", [x], ink), Draw(Begin, "b", [x], ink);
      var trace := EditsThenEchoes([a] + [Undo("a")] + ([up] + [b]));
      && Causal(trace) && Complete(trace)
      && RunTrace(EMPTY_PICTURE, trace).order == ["b", "a"]
      && Replay(EMPTY_PICTURE, Locals(trace)).order == ["a", "b"]
  {
    var a, up, b := Draw(Begin, "a", [x], ink), Draw(End, "a", [x], ink), Draw(Begin, "b", [x], ink);
    var mine := Applied(Undrawn(EMPTY_PICTURE, a), b);
    EditsThenEchoesCausal([a] + [Undo("a")] + ([up] + [b]));
    UndoUnderPenRun(a, up, b);
    ReplayFour(EMPTY_PICTURE, a, Undo("a"), up, b);
    OrderOfUndoLog(a, up, b);
    OnlyTheOther(a, b);
    OrderOfUndoEchoes(mine, a, up, b);
  }

  lemma UndoUnderPenEdits(a: Operation, up: Operation, b: Operation)
    requires IsBegin(a, "a") && IsBegin(b, "b") && IsDraw(up, "a") && up.kind == End
    ensures RunEdits(EMPTY_PICTURE, [a] + [Undo("a")] + ([up] + [b])) == Applied(Undrawn(EMPTY_PICTURE, a), b)
  {
    var log := [a] + [Undo("a")] + ([up] + [b]);
    FourSteps(EMPTY_PICTURE, Local(a), Local(Undo("a")), Local(up), Local(b));
    EditsOfFour(a, Undo("a"), up, b);
  }

  lemma EditsOfFour(a: Operation, b: Operation, c: Operation, d: Operation)
    ensures Edits([a] + [b] + ([c] + [d])) == [Local(a)] + [Local(b)] + ([Local(c)] + [Local(d)])
  {
  }

  lemma UndoUnderPenRun(a: Operation, up: Operation, b: Operation)
    requires IsBegin(a, "a") && IsBegin(b, "b") && IsDraw(up, "a") && up.kind == End
    ensures var mine := Applied(Undrawn(EMPTY_PICTURE, a), b);
      RunTrace(EMPTY_PICTURE, EditsThenEchoes([a] + [Undo("a")] + ([up] + [b])))
      == Applied(Applied(Undrawn(mine, a), up), b)
  {
    var log := [a] + [Undo("a")] + ([up] + [b]);
    UndoUnderPenEdits(a, up, b);
    RunTraceAppend(EMPTY_PICTURE, Edits(log), Returned(log));
    ReturnedIsReplay(RunEdits(EMPTY_PICTURE, log), log);
    ReplayFour(RunEdits(EMPTY_PICTURE, log), a, Undo("a"), up, b);
  }

  function Undrawn(p: Picture, a: Operation): Picture {
    Applied(Applied(p, a), Undo("a"))
  }

  lemma OrderOfUndoLog(a: Operation, up: Operation, b: Operation)
    requires IsDraw(a, "a") && IsDraw(up, "a") && IsDraw(b, "b")
    ensures Applied(Applied(Undrawn(EMPTY_PICTURE, a), up), b).order == ["a", "b"]
  {
    RedrawnThen(EMPTY_PICTURE, a, up, b);
  }

  lemma OrderOfUndoEchoes(mine: Picture, a: Operation, up: Operation, b: Operation)
    requires mine.WellFormed() && mine.order == ["b"] && "a" !in mine.order
    requires IsDraw(a, "a") && IsDraw(up, "a") && IsDraw(b, "b")
    ensures Applied(Applied(Undrawn(mine, a), up), b).order == ["b", "a"]
  {
    RedrawnThen(mine, a, up, b);
  }

  lemma OnlyTheOther(a: Operation, b: Operation)
    requires IsDraw(a, "a") && IsDraw(b, "b")
    ensures var mine := Applied(Undrawn(EMPTY_PICTURE, a), b);
      mine.WellFormed() && mine.order == ["b"] && "a" !in mine.order
  {
    Redrawn(EMPTY_PICTURE, a, a);
    DrawOrder(Undrawn(EMPTY_PICTURE, a), b);
  }

  lemma RedrawnThen(p: Picture, a: Operation, up: Operation, b: Operation)
    requires p.WellFormed() && "a" !in p.order && IsDraw(a, "a") && IsDraw(up, "a") && IsDraw(b, "b")
    ensures Applied(Applied(Undrawn(p, a), up), b).order == p.order + ["a"] + if "b" in p.order then [] else ["b"]
  {
    Redrawn(p, a, up);
    DrawOrder(Applied(Undrawn(p, a), up), b);
  }

  /** A stroke undone and drawn on is painted behind what was there. */
  lemma Redrawn(p: Picture, a: Operation, up: Operation)
    requires p.WellFormed() && "a" !in p.order && IsDraw(a, "a") && IsDraw(up, "a")
    ensures var gone := Undrawn(p, a);
      gone.WellFormed() && gone.order == p.order
      && Applied(gone, up).WellFormed() && Applied(gone, up).order == p.order + ["a"]
  {
    DrawOrder(p, a);
    AppliedWellFormed(Applied(p, a), Undo("a"));
    ErasedAppend(p.order, "a", {"a"});
    ErasedNothing(p.order, {"a"});
    DrawOrder(Undrawn(p, a), up);
  }

  lemma OrdersOfBusyClear(a: Operation, b: Operation, more: Operation)
    requires IsDraw(a, "a") && IsDraw(b, "b") && IsDraw(more, "b")
    ensures Applied(Applied(Applied(Applied(EMPTY_PICTURE, more), a), b), more).order == ["b", "a"]
    ensures Applied(Applied(Applied(EMPTY_PICTURE, a), b), more).order == ["a", "b"]
  {
    FirstStroke(more);
    FirstStroke(a);
    OrderOfThree(Applied(EMPTY_PICTURE, more), a, b, more);
    OrderOfTwo(Applied(EMPTY_PICTURE, a), b, more);
  }

  lemma FirstStroke(op: Operation)
    requires op.Draw?
    ensures Applied(EMPTY_PICTURE, op).WellFormed() && Applied(EMPTY_PICTURE, op).order == [op.stroke]
  {
    DrawOrder(EMPTY_PICTURE, op);
  }

  lemma OrderOfTwo(p: Picture, b: Operation, more: Operation)
    requires p.WellFormed() && p.order == ["a"]
    requires IsDraw(b, "b") && IsDraw(more, "b")
    ensures Applied(Applied(p, b), more).order == ["a", "b"]
  {
    DrawOrder(p, b);
    DrawOrder(Applied(p, b), more);
  }

  lemma OrderOfThree(p: Picture, a: Operation, b: Operation, more: Operation)
    requires p.WellFormed() && p.order == ["b"]
    requires IsDraw(a, "a") && IsDraw(b, "b") && IsDraw(more, "b")
    ensures Applied(Applied(Applied(p, a), b), more).order == ["b", "a"]
  {
    DrawOrder(p, a);
    DrawOrder(Applied(p, a), b);
    DrawOrder(Applied(Applied(p, a), b), more);
  }

  lemma DrawOrder(p: Picture, op: Operation)
    requires op.Draw? && p.WellFormed()
    ensures Applied(p, op).WellFormed()
    ensures Applied(p, op).order == if op.stroke in p.order then p.order else p.order + [op.stroke]
  {
    AppliedWellFormed(p, op);
  }
}
