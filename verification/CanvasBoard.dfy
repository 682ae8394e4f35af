/**
 The drawing board of one player: stroke map, paint order, outgoing queue with
 its flush timer, and the filter that admits events of the current turn.
 */
module CanvasBoard {
  import opened Wrappers
  import opened CanvasReplay
  import opened CanvasConvergence
  import opened CanvasOverlap
  import opened EchoedTrace

  type Step = EchoedTrace.Step<Operation>

  const COLORS: set<string> := {"#222222", "#ef5b5b", "#f59e0b", "#22a06b", "#3b82f6", "#8b5cf6", "#ffffff"}
  const WIDTHS: set<real> := {0.003, 0.008, 0.016}
  const TOOLS: set<string> := {"pen", "eraser"}

  datatype Pressed = Pressed(pointer: int, stroke: StrokeId)

  // ---------- Which events a board admits ----------

  function HighSeq(events: seq<Event>, floor: nat): nat {
    if events == [] then floor else events[|events| - 1].seqNo
  }

  /** The events of a batch that pass the turn test and the sequence test. */
  function Admitted(events: seq<Event>, turn: int, floor: nat): seq<Event> {
    if events == [] then []
    else
      var before, e := Admitted(events[..|events| - 1], turn, floor), events[|events| - 1];
      if e.turn == turn && e.seqNo > HighSeq(before, floor) then before + [e] else before
  }

  /** Admitted sequence numbers strictly increase from the floor, and all belong to the turn. */
  lemma {:induction false} AdmittedIncrease(events: seq<Event>, turn: int, floor: nat)
    ensures var a := Admitted(events, turn, floor);
      && (forall i :: 0 <= i < |a| ==> a[i].turn == turn && a[i].seqNo > floor && a[i] in events)
      && (forall i, j :: 0 <= i < j < |a| ==> a[i].seqNo < a[j].seqNo)
      && HighSeq(a, floor) >= floor
  {
    if events != [] {
      AdmittedIncrease(events[..|events| - 1], turn, floor);
    }
  }

  /** An event is admitted exactly when it is the turn's and numbered above the floor and the turn's earlier ones. */
  lemma {:induction false} AdmittedIff(events: seq<Event>, turn: int, floor: nat, n: nat)
    requires n < |events|
    ensures Admitted(events[..n + 1], turn, floor)
         == Admitted(events[..n], turn, floor)
            + if events[n].turn == turn && events[n].seqNo > floor
                 && forall m :: 0 <= m < n && events[m].turn == turn ==> events[m].seqNo < events[n].seqNo
              then [events[n]] else []
  {
    assert events[..n + 1][..n] == events[..n];
    HighIsHighest(events[..n], turn, floor);
    assert forall m :: 0 <= m < n ==> events[..n][m] == events[m];
  }

  /** The number remembered is the highest of the turn's, or the floor. */
  lemma {:induction false} HighIsHighest(events: seq<Event>, turn: int, floor: nat)
    ensures var high := HighSeq(Admitted(events, turn, floor), floor);
      && high >= floor
      && (high == floor || exists i :: 0 <= i < |events| && events[i].turn == turn && events[i].seqNo == high)
      && forall i :: 0 <= i < |events| && events[i].turn == turn ==> events[i].seqNo <= high
  {
    if events != [] {
      var front, last := events[..|events| - 1], events[|events| - 1];
      HighIsHighest(front, turn, floor);
      var high := HighSeq(Admitted(front, turn, floor), floor);
      if last.turn == turn && last.seqNo > high {
        assert HighSeq(Admitted(events, turn, floor), floor) == last.seqNo;
      } else if high != floor {
        var i :| 0 <= i < |front| && front[i].turn == turn && front[i].seqNo == high;
        assert events[i] == front[i];
      }
    }
  }

  /** The number a canvas leaves behind is the highest on it. */
  lemma {:induction false} MaxSeqIsHighest(events: seq<Event>)
    ensures forall i :: 0 <= i < |events| ==> events[i].seqNo <= MaxSeq(events)
    ensures MaxSeq(events) == 0 || exists i :: 0 <= i < |events| && events[i].seqNo == MaxSeq(events)
  {
    if events != [] {
      var front, last := events[..|events| - 1], events[|events| - 1];
      MaxSeqIsHighest(front);
      if last.seqNo <= MaxSeq(front) && MaxSeq(front) != 0 {
        var i :| 0 <= i < |front| && front[i].seqNo == MaxSeq(front);
        assert events[i] == front[i];
      }
    }
  }

  lemma AdmittedSnoc(p: Picture, events: seq<Event>, n: nat, turn: int, floor: nat)
    requires n < |events|
    ensures var before, after, e :=
      Admitted(events[..n], turn, floor), Admitted(events[..n + 1], turn, floor), events[n];
      if e.turn == turn && e.seqNo > HighSeq(before, floor) then
        HighSeq(after, floor) == e.seqNo && Replay(p, Ops(after)) == Applied(Replay(p, Ops(before)), e.op)
      else after == before
  {
    assert events[..n + 1][..n] == events[..n];
    var before, e := Admitted(events[..n], turn, floor), events[n];
    if e.turn == turn && e.seqNo > HighSeq(before, floor) {
      ReplayAppend(p, Ops(before), [e.op]);
      assert Ops(before + [e]) == Ops(before) + [e.op];
      assert Replay(Replay(p, Ops(before)), [e.op]) == Applied(Replay(p, Ops(before)), e.op);
    }
  }

  lemma CanvasSnoc(canvas: seq<Event>, n: nat)
    requires n < |canvas|
    ensures MaxSeq(canvas[..n + 1])
         == if canvas[n].seqNo > MaxSeq(canvas[..n]) then canvas[n].seqNo else MaxSeq(canvas[..n])
    ensures Replay(EMPTY_PICTURE, Ops(canvas[..n + 1]))
         == Applied(Replay(EMPTY_PICTURE, Ops(canvas[..n])), canvas[n].op)
  {
    assert canvas[..n + 1][..n] == canvas[..n];
    assert Ops(canvas[..n + 1])[..n] == Ops(canvas[..n]);
  }

  function MaxSeq(events: seq<Event>): nat {
    if events == [] then 0
    else
      var before, e := MaxSeq(events[..|events| - 1]), events[|events| - 1];
      if e.seqNo > before then e.seqNo else before
  }

  function Flatten(batches: seq<seq<Operation>>): seq<Operation> {
    if batches == [] then []
    else Flatten(batches[..|batches| - 1]) + batches[|batches| - 1]
  }

  /** Cutting out one occurrence is erasing, because the paint order has no repetition. */
  lemma SpliceErases(order: seq<StrokeId>, i: nat)
    requires i < |order| && NoDups(order)
    ensures order[..i] + order[i + 1..] == Erased(order, {order[i]})
  {
    var front, rear := order[..i], order[i + 1..];
    assert order == (front + [order[i]]) + rear;
    ErasedConcat(front + [order[i]], rear, {order[i]});
    ErasedAppend(front, order[i], {order[i]});
    ErasedNothing(front, {order[i]});
    ErasedNothing(rear, {order[i]});
  }

  lemma {:induction false} ErasedConcat(a: seq<StrokeId>, b: seq<StrokeId>, gone: set<StrokeId>)
    ensures Erased(a + b, gone) == Erased(a, gone) + Erased(b, gone)
  {
    if b == [] {
      assert a + b == a;
    } else {
      assert (a + b)[..|a + b| - 1] == a + b[..|b| - 1];
      ErasedConcat(a, b[..|b| - 1], gone);
    }
  }

  /** The stroke is painted last if it was not painted, and gets the points, in the operation's style. */
  ghost predicate Inks(before: Picture, after: Picture, op: Operation)
    requires op.Draw?
  {
    var s := op.stroke;
    var kept := if op.kind == Begin || s !in before.strokes then [] else before.strokes[s].points;
    && after.order == before.order + (if s in before.order then [] else [s])
    && after.strokes == before.strokes[s := Stroke(if kept == [] then op.points else kept + op.points, op.style)]
  }

  lemma AppliedInks(p: Picture, op: Operation)
    requires p.WellFormed() && op.Draw?
    ensures Inks(p, Applied(p, op), op)
  {
    assert [] + op.points == op.points;
  }

  /** The stroke is gone, and the others keep their places. */
  ghost predicate Undoes(before: Picture, after: Picture, s: StrokeId) {
    && after.strokes == before.strokes - {s}
    && (s !in before.order ==> after.order == before.order)
    && forall i :: 0 <= i < |before.order| && before.order[i] == s ==>
      after.order == before.order[..i] + before.order[i + 1..]
  }

  lemma AppliedUndoes(p: Picture, s: StrokeId)
    requires p.WellFormed()
    ensures Undoes(p, Applied(p, Undo(s)), s)
  {
    forall i | 0 <= i < |p.order| && p.order[i] == s
      ensures Erased(p.order, {s}) == p.order[..i] + p.order[i + 1..]
    {
      SpliceErases(p.order, i);
    }
    if s !in p.order {
      ErasedNothing(p.order, {s});
    }
  }

  lemma FlattenSnoc(batches: seq<seq<Operation>>, batch: seq<Operation>)
    ensures Flatten(batches + [batch]) == Flatten(batches) + batch
  {
    assert (batches + [batch])[..|batches|] == batches;
  }

  /** Several echoes at the end of a run are a replay on top of it. */
  lemma EchoesAppend(p: Picture, trace: seq<Step>, ops: seq<Operation>)
    ensures RunTrace(p, trace + Returned(ops)) == Replay(RunTrace(p, trace), ops)
    ensures Locals(trace + Returned(ops)) == Locals(trace)
    ensures Echoes(trace + Returned(ops)) == Echoes(trace) + ops
  {
    LogsOfReturned(trace, ops);
    RunTraceAppend(p, trace, Returned(ops));
    ReturnedIsReplay(RunTrace(p, trace), ops);
  }

  /** A picture is the run since the last restore, whose local edits are what was emitted since. */
  ghost predicate Tracks(
    base: Picture, trace: seq<Step>, emitted: seq<Operation>, restoredAt: nat, shown: Picture)
  {
    && base.WellFormed()
    && shown == RunTrace(base, trace)
    && restoredAt <= |emitted| && Locals(trace) == emitted[restoredAt..]
  }

  lemma TracksEdit(
    base: Picture, trace: seq<Step>, emitted: seq<Operation>, restoredAt: nat, shown: Picture, op: Operation)
    requires Tracks(base, trace, emitted, restoredAt, shown)
    ensures Tracks(base, trace + [Local(op)], emitted + [op], restoredAt, AfterStep(shown, Local(op)))
  {
    TraceSnoc(base, trace, Local(op));
    assert (emitted + [op])[restoredAt..] == emitted[restoredAt..] + [op];
  }

  lemma TracksEchoes(
    base: Picture, trace: seq<Step>, emitted: seq<Operation>, restoredAt: nat, shown: Picture, ops: seq<Operation>)
    requires Tracks(base, trace, emitted, restoredAt, shown)
    ensures Tracks(base, trace + Returned(ops), emitted, restoredAt, Replay(shown, ops))
  {
    EchoesAppend(base, trace, ops);
  }

  lemma TracksRestore(shown: Picture, emitted: seq<Operation>)
    requires shown.WellFormed()
    ensures Tracks(shown, [], emitted, |emitted|, shown)
  {
    assert emitted[|emitted|..] == [];
  }

  /**
   A board whose last restore missed e of its operations: once all it emitted since then
   and those have come back, it shows the snapshot with them replayed on top if and only
   if its drawer overtook nothing and left no late ink.
   */
  lemma {:induction false} TrackedConverges(
    base: Picture, trace: seq<Step>, emitted: seq<Operation>, restoredAt: nat, shown: Picture, e: nat)
    requires Tracks(base, trace, emitted, restoredAt, shown) && e <= restoredAt
    requires var log := emitted[restoredAt - e..];
      Echoes(trace) == log && forall k :: 0 <= k <= |trace| ==> InStep(trace, e, k)
    ensures var log := emitted[restoredAt - e..];
      shown == Replay(base, log) <==> !Overtaken(base, trace, log) && NoLateInk(shown, trace, log)
  {
    var log := emitted[restoredAt - e..];
    assert log[e..] == emitted[restoredAt..];
    OverlapConvergence(base, trace, log, e);
  }

  class Board {
    var editable: bool
    var currentTurn: Option<int>
    var lastSeq: nat
    var active: Option<Pressed>
    var destroyed: bool
    var tool: Style
    var strokes: map<StrokeId, Stroke>
    var order: seq<StrokeId>
    var queue: seq<Operation>
    var timer: bool

    /** Everything emitted so far, and the batches handed to onBatch. */
    ghost var emitted: seq<Operation>
    ghost var delivered: seq<seq<Operation>>
    /** The picture of the last restore, the run since then, and what was emitted before it. */
    ghost var base: Picture
    ghost var trace: seq<Step>
    ghost var restoredAt: nat

    ghost function Shown(): Picture
      reads this`strokes, this`order
    {
      Picture(strokes, order)
    }

    ghost predicate Valid()
      reads this
    {
      && Shown().WellFormed()
      && Tracks(base, trace, emitted, restoredAt, Shown())
      && (timer <==> queue != [])
      && (!destroyed ==> Flatten(delivered) + queue == emitted)
      && tool.tool in TOOLS && tool.color in COLORS && tool.width in WIDTHS
    }

    constructor ()
      ensures Valid() && Shown() == EMPTY_PICTURE && base == EMPTY_PICTURE && trace == []
      ensures emitted == [] && delivered == [] && queue == [] && tool == Style("#222222", 0.008, "pen")
      ensures !editable && !destroyed && lastSeq == 0 && currentTurn == None && active == None
    {
      editable, currentTurn, lastSeq, active, destroyed := false, None, 0, None, false;
      tool := Style("#222222", 0.008, "pen");
      strokes, order, queue, timer := map[], [], [], false;
      emitted, delivered, base, trace, restoredAt := [], [], EMPTY_PICTURE, [], 0;
    }

    /** Changes the stroke map and the paint order by one operation. */
    method Apply(op: Operation)
      requires Shown().WellFormed()
      modifies this`strokes, this`order
      ensures Shown() == Applied(old(Shown()), op) && Shown().WellFormed()
      ensures op.Clear? ==> strokes == map[] && order == []
      ensures op.Undo? ==> Undoes(old(Shown()), Shown(), op.stroke)
      ensures op.Draw? ==> Inks(old(Shown()), Shown(), op)
    {
      ghost var before := Shown();
      match op {
        case Clear =>
          strokes, order := map[], [];
        case Undo(s) =>
          AppliedUndoes(before, s);
          strokes := strokes - {s};
          var index := IndexOf(order, s);
          if index >= 0 {
            order := order[..index] + order[index + 1..];
          }
        case Draw(kind, s, points, style) =>
          AppliedInks(before, op);
          var stroke := if s in strokes then strokes[s] else Stroke([], style);
          if kind == Begin || s !in strokes {
            stroke := Stroke([], style);
            var index := IndexOf(order, s);
            if index < 0 {
              order := order + [s];
            }
          }
          strokes := strokes[s := Stroke(stroke.points + points, style)];
      }
      AppliedWellFormed(before, op);
    }

    static method IndexOf(order: seq<StrokeId>, s: StrokeId) returns (index: int)
      ensures -1 <= index < |order|
      ensures index == -1 <==> s !in order
      ensures index >= 0 ==> order[index] == s && s !in order[..index]
    {
      for i := 0 to |order|
        invariant s !in order[..i]
      {
        if order[i] == s {
          return i;
        }
      }
      return -1;
    }

    /** Queues an operation for the server and starts the flush timer if none runs. */
    method Emit(op: Operation)
      modifies this`queue, this`timer, this`emitted
      ensures queue == old(queue) + [op] && timer && emitted == old(emitted) + [op]
    {
      queue := queue + [op];
      emitted := emitted + [op];
      if !timer {
        timer := true;
      }
    }

    /** A local edit: shown at once and queued. */
    method Perform(op: Operation)
      requires Valid() && !(op.Draw? && op.kind == End)
      modifies this`strokes, this`order, this`queue, this`timer, this`emitted, this`trace
      ensures Valid() && Shown() == Applied(old(Shown()), op) && trace == old(trace) + [Local(op)]
      ensures queue == old(queue) + [op] && emitted == old(emitted) + [op]
      ensures op.Draw? ==> Inks(old(Shown()), Shown(), op)
    {
      ghost var before := Shown();
      TracksEdit(base, trace, emitted, restoredAt, Shown(), op);
      Apply(op);
      Emit(op);
      trace := trace + [Local(op)];
      if op.Draw? {
        AppliedInks(before, op);
      }
    }

    /** pointerdown: starts a stroke of the chosen tool under a fresh id unless one is under way. */
    method Down(pointer: int, id: StrokeId, at: Point)
      requires Valid()
      modifies this`strokes, this`order, this`queue, this`timer, this`emitted, this`trace, this`active
      ensures old(editable && active.None?) ==>
        var op := Draw(Begin, id, [at], tool);
        && active == Some(Pressed(pointer, id)) && trace == old(trace) + [Local(op)]
        && queue == old(queue) + [op] && emitted == old(emitted) + [op]
        && strokes == old(strokes)[id := Stroke([at], tool)]
        && order == old(order) + (if id in old(order) then [] else [id])
      ensures !old(editable && active.None?) ==>
        active == old(active) && Shown() == old(Shown()) && trace == old(trace)
        && emitted == old(emitted) && queue == old(queue)
      ensures Valid()
    {
      if !editable || active.Some? {
        return;
      }
      active := Some(Pressed(pointer, id));
      Perform(Draw(Begin, id, [at], tool));
    }

    /** pointermove: extends the stroke of the pointer that is down, in the tool chosen now. */
    method Move(pointer: int, at: Point)
      requires Valid()
      modifies this`strokes, this`order, this`queue, this`timer, this`emitted, this`trace
      ensures editable && active.Some? && active.value.pointer == pointer ==>
        var s := active.value.stroke;
        var op := Draw(Append, s, [at], tool);
        && trace == old(trace) + [Local(op)]
        && queue == old(queue) + [op] && emitted == old(emitted) + [op]
        && strokes == old(strokes)[s :=
             Stroke((if s in old(strokes) then old(strokes)[s].points else []) + [at], tool)]
        && order == old(order) + (if s in old(order) then [] else [s])
      ensures !(editable && active.Some? && active.value.pointer == pointer) ==>
        Shown() == old(Shown()) && trace == old(trace) && emitted == old(emitted) && queue == old(queue)
      ensures Valid()
    {
      if !editable || active.None? || pointer != active.value.pointer {
        return;
      }
      Perform(Draw(Append, active.value.stroke, [at], tool));
    }

    /** pointerup and pointercancel: sends the End without showing it, and forgets the stroke. */
    method Finish(pointer: int, cancelled: bool, at: Point)
      requires Valid()
      modifies this`queue, this`timer, this`emitted, this`trace, this`active
      ensures Valid()
      ensures old(active).Some? && old(active).value.pointer == pointer ==>
        var op := Draw(End, old(active).value.stroke, if cancelled then [] else [at], tool);
        && active == None && trace == old(trace) + [Local(op)]
        && queue == old(queue) + [op] && emitted == old(emitted) + [op]
      ensures !(old(active).Some? && old(active).value.pointer == pointer) ==>
        active == old(active) && Shown() == old(Shown()) && trace == old(trace)
        && emitted == old(emitted) && queue == old(queue)
    {
      if active.None? || pointer != active.value.pointer {
        return;
      }
      var op := Draw(End, active.value.stroke, if cancelled then [] else [at], tool);
      active := None;
      EmitEnd(op);
    }

    /** The End of a stroke is queued but not shown. */
    method EmitEnd(op: Operation)
      requires Valid() && op.Draw? && op.kind == End
      modifies this`queue, this`timer, this`emitted, this`trace
      ensures Valid() && trace == old(trace) + [Local(op)]
      ensures queue == old(queue) + [op] && emitted == old(emitted) + [op]
    {
      TracksEdit(base, trace, emitted, restoredAt, Shown(), op);
      assert AfterStep(Shown(), Local(op)) == Shown();
      Emit(op);
      trace := trace + [Local(op)];
    }

    /** Removes the stroke painted last. */
    method UndoLast()
      requires Valid()
      modifies this`strokes, this`order, this`queue, this`timer, this`emitted, this`trace
      ensures editable && old(order) != [] ==>
        var last := old(order)[|old(order)| - 1];
        && trace == old(trace) + [Local(Undo(last))]
        && queue == old(queue) + [Undo(last)] && emitted == old(emitted) + [Undo(last)]
        && order == old(order)[..|old(order)| - 1] && strokes == old(strokes) - {last}
      ensures !editable || old(order) == [] ==>
        Shown() == old(Shown()) && trace == old(trace) && emitted == old(emitted) && queue == old(queue)
      ensures Valid()
    {
      if !editable || order == [] {
        return;
      }
      var last := order[|order| - 1];
      AppliedUndoes(Shown(), last);
      assert order[..|order| - 1] + order[|order|..] == order[..|order| - 1];
      Perform(Undo(last));
    }

    method ClearAll()
      requires Valid()
      modifies this`strokes, this`order, this`queue, this`timer, this`emitted, this`trace
      ensures editable ==>
        && trace == old(trace) + [Local(Clear)] && strokes == map[] && order == []
        && queue == old(queue) + [Clear] && emitted == old(emitted) + [Clear]
      ensures !editable ==>
        Shown() == old(Shown()) && trace == old(trace) && emitted == old(emitted) && queue == old(queue)
      ensures Valid()
    {
      if !editable {
        return;
      }
      Perform(Clear);
      assert Shown() == EMPTY_PICTURE;
    }

    method SetEditable(value: bool)
      requires Valid()
      modifies this`editable, this`active
      ensures Valid() && editable == value
      ensures active == if value then old(active) else None
    {
      editable := value;
      if !editable {
        active := None;
      }
    }

    /** Refuses a tool that is not on the palette and keeps the old one. */
    method SetTool(next: Style) returns (ok: bool)
      requires Valid()
      modifies this`tool
      ensures Valid()
      ensures ok <==>
        && next.tool in {"pen", "eraser"} && next.width in {0.003, 0.008, 0.016}
        && next.color in {"#222222", "#ef5b5b", "#f59e0b", "#22a06b", "#3b82f6", "#8b5cf6", "#ffffff"}
      ensures tool == if ok then next else old(tool)
    {
      if next.tool !in TOOLS || next.color !in COLORS || next.width !in WIDTHS {
        return false;
      }
      tool := next;
      return true;
    }

    /** The flush timer fires: the whole queue goes out as one batch, unless the board is destroyed. */
    method Flush() returns (sent: Option<seq<Operation>>)
      requires Valid() && timer
      modifies this`queue, this`timer, this`delivered
      ensures Valid() && queue == [] && !timer
      ensures sent == if destroyed then None else Some(old(queue))
      ensures delivered == if destroyed then old(delivered) else old(delivered) + [old(queue)]
    {
      var batch := queue;
      queue, timer := [], false;
      sent := None;
      if |batch| > 0 && !destroyed {
        FlattenSnoc(delivered, batch);
        delivered := delivered + [batch];
        sent := Some(batch);
      }
    }

    method Destroy()
      requires Valid()
      modifies this`destroyed, this`timer, this`queue
      ensures Valid() && destroyed && !timer && queue == []
    {
      destroyed, timer, queue := true, false, [];
    }

    /** Applies the admitted events of a batch, in order. */
    method ApplyEvents(events: seq<Event>, turn: int)
      requires Valid()
      modifies this`strokes, this`order, this`lastSeq, this`trace
      ensures Valid()
      ensures currentTurn != Some(turn) ==> Shown() == old(Shown()) && lastSeq == old(lastSeq) && trace == old(trace)
      ensures currentTurn == Some(turn) ==>
        var admitted := Admitted(events, turn, old(lastSeq));
        && Shown() == Replay(old(Shown()), Ops(admitted))
        && lastSeq == HighSeq(admitted, old(lastSeq))
        && trace == old(trace) + Returned(Ops(admitted))
      ensures currentTurn == Some(turn) ==>
        && old(lastSeq) <= lastSeq
        && (lastSeq == old(lastSeq) ||
            exists i :: 0 <= i < |events| && events[i].turn == turn && events[i].seqNo == lastSeq)
        && forall i :: 0 <= i < |events| && events[i].turn == turn ==> events[i].seqNo <= lastSeq
    {
      HighIsHighest(events, turn, lastSeq);
      if Some(turn) != currentTurn {
        return;
      }
      ghost var admitted := Admitted(events, turn, lastSeq);
      TracksEchoes(base, trace, emitted, restoredAt, Shown(), Ops(admitted));
      ApplyEach(events, turn);
      trace := trace + Returned(Ops(admitted));
    }

    /** The loop that skips events of another turn and events already seen. */
    method ApplyEach(events: seq<Event>, turn: int)
      requires Shown().WellFormed()
      modifies this`strokes, this`order, this`lastSeq
      ensures Shown().WellFormed()
      ensures Shown() == Replay(old(Shown()), Ops(Admitted(events, turn, old(lastSeq))))
      ensures lastSeq == HighSeq(Admitted(events, turn, old(lastSeq)), old(lastSeq))
    {
      for n := 0 to |events|
        invariant Shown().WellFormed()
        invariant Shown() == Replay(old(Shown()), Ops(Admitted(events[..n], turn, old(lastSeq))))
        invariant lastSeq == HighSeq(Admitted(events[..n], turn, old(lastSeq)), old(lastSeq))
      {
        var event := events[n];
        AdmittedSnoc(old(Shown()), events, n, turn, old(lastSeq));
        if event.turn != turn || event.seqNo <= lastSeq {
          continue;
        }
        lastSeq := event.seqNo;
        Apply(event.op);
      }
      assert events[..|events|] == events;
    }

    /** Starts over from a snapshot: its turn, its canvas, and the highest sequence number in it. */
    method Restore(turn: int, canvas: seq<Event>)
      requires Valid()
      modifies this`strokes, this`order, this`lastSeq, this`currentTurn, this`base, this`trace, this`restoredAt
      ensures Valid() && currentTurn == Some(turn)
      ensures Shown() == base == Replay(EMPTY_PICTURE, Ops(canvas)) && trace == []
      ensures lastSeq == MaxSeq(canvas)
      ensures forall i :: 0 <= i < |canvas| ==> canvas[i].seqNo <= lastSeq
      ensures lastSeq == 0 || exists i :: 0 <= i < |canvas| && canvas[i].seqNo == lastSeq
    {
      MaxSeqIsHighest(canvas);
      currentTurn := Some(turn);
      Paint(canvas);
      TracksRestore(Shown(), emitted);
      base, trace, restoredAt := Shown(), [], |emitted|;
      assert Tracks(base, trace, emitted, restoredAt, Shown());
    }

    /** Repaints from nothing and remembers the highest sequence number painted. */
    method Paint(canvas: seq<Event>)
      modifies this`strokes, this`order, this`lastSeq
      ensures Shown().WellFormed() && Shown() == Replay(EMPTY_PICTURE, Ops(canvas)) && lastSeq == MaxSeq(canvas)
    {
      lastSeq, strokes, order := 0, map[], [];
      for n := 0 to |canvas|
        invariant Shown().WellFormed()
        invariant Shown() == Replay(EMPTY_PICTURE, Ops(canvas[..n]))
        invariant lastSeq == MaxSeq(canvas[..n])
      {
        CanvasSnoc(canvas, n);
        lastSeq := if canvas[n].seqNo > lastSeq then canvas[n].seqNo else lastSeq;
        Apply(canvas[n].op);
      }
      assert canvas[..|canvas|] == canvas;
    }
  }
}
