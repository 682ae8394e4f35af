/**
 Drawing operations of a draw-and-guess turn, the picture a replica makes of
 them, and the compaction the server performs before it sends a snapshot.
 */
module CanvasReplay {
  import opened Wrappers

  type StrokeId = string

  datatype Point = Point(x: real, y: real)

  datatype Style = Style(color: string, width: real, tool: string)

  datatype DrawKind = Begin | Append | End

  datatype Operation =
    | Clear
    | Undo(stroke: StrokeId)
    | Draw(kind: DrawKind, stroke: StrokeId, points: seq<Point>, style: Style)

  datatype Stroke = Stroke(points: seq<Point>, style: Style)

  /** A numbered operation of the room log. */
  datatype Event = Event(seqNo: nat, turn: int, op: Operation)

  datatype Picture = Picture(strokes: map<StrokeId, Stroke>, order: seq<StrokeId>) {
    /** The paint order lists every stroke exactly once. */
    ghost predicate WellFormed() {
      NoDups(order) && forall s :: s in order <==> s in strokes
    }

    /** Removes a set of strokes from the picture. */
    function Erase(gone: set<StrokeId>): Picture {
      Picture(strokes - gone, Erased(order, gone))
    }
  }

  const EMPTY_PICTURE := Picture(map[], [])

  function Erased(order: seq<StrokeId>, gone: set<StrokeId>): seq<StrokeId> {
    if order == [] then []
    else
      var kept, last := Erased(order[..|order| - 1], gone), order[|order| - 1];
      if last in gone then kept else kept + [last]
  }

  /** The stroke a drawing operation leaves behind. */
  function Inked(p: Picture, op: Operation): Stroke
    requires op.Draw?
  {
    var base := if op.kind == Begin || op.stroke !in p.strokes then [] else p.strokes[op.stroke].points;
    Stroke(base + op.points, op.style)
  }

  /** One operation on a picture. */
  function Applied(p: Picture, op: Operation): Picture {
    match op
    case Clear => EMPTY_PICTURE
    case Undo(s) => p.Erase({s})
    case Draw(kind, s, points, style) =>
      var added := (kind == Begin || s !in p.strokes) && s !in p.order;
      Picture(p.strokes[s := Inked(p, op)], if added then p.order + [s] else p.order)
  }

  /** A whole log on a picture, oldest operation first. */
  function Replay(p: Picture, ops: seq<Operation>): Picture {
    if ops == [] then p
    else Applied(Replay(p, ops[..|ops| - 1]), ops[|ops| - 1])
  }

  // ---------- Erasing strokes from a paint order ----------

  lemma {:induction false} ErasedMembers(order: seq<StrokeId>, gone: set<StrokeId>)
    ensures forall s :: s in Erased(order, gone) <==> s in order && s !in gone
  {
    if order != [] {
      ErasedMembers(order[..|order| - 1], gone);
      assert order == order[..|order| - 1] + [order[|order| - 1]];
    }
  }

  lemma {:induction false} ErasedNoDups(order: seq<StrokeId>, gone: set<StrokeId>)
    requires NoDups(order)
    ensures NoDups(Erased(order, gone))
  {
    if order != [] {
      ErasedNoDups(order[..|order| - 1], gone);
      ErasedMembers(order[..|order| - 1], gone);
    }
  }

  lemma ErasedAppend(order: seq<StrokeId>, s: StrokeId, gone: set<StrokeId>)
    ensures Erased(order + [s], gone) == if s in gone then Erased(order, gone) else Erased(order, gone) + [s]
  {
    assert (order + [s])[..|order|] == order;
  }

  lemma {:induction false} ErasedTwice(order: seq<StrokeId>, gone: set<StrokeId>, more: set<StrokeId>)
    ensures Erased(Erased(order, gone), more) == Erased(order, gone + more)
  {
    if order != [] {
      var front, last := order[..|order| - 1], order[|order| - 1];
      ErasedTwice(front, gone, more);
      if last !in gone {
        ErasedAppend(Erased(front, gone), last, more);
      }
    }
  }

  lemma {:induction false} ErasedNothing(order: seq<StrokeId>, gone: set<StrokeId>)
    requires forall s :: s in order ==> s !in gone
    ensures Erased(order, gone) == order
  {
    if order != [] {
      ErasedNothing(order[..|order| - 1], gone);
      assert order == order[..|order| - 1] + [order[|order| - 1]];
    }
  }

  // ---------- The picture invariant ----------

  /** Every operation keeps the paint order a listing of the stroke map without repetition. */
  lemma AppliedWellFormed(p: Picture, op: Operation)
    requires p.WellFormed()
    ensures Applied(p, op).WellFormed()
  {
    if op.Undo? {
      ErasedMembers(p.order, {op.stroke});
      ErasedNoDups(p.order, {op.stroke});
    }
  }

  lemma {:induction false} ReplayWellFormed(p: Picture, ops: seq<Operation>)
    requires p.WellFormed()
    ensures Replay(p, ops).WellFormed()
  {
    if ops != [] {
      ReplayWellFormed(p, ops[..|ops| - 1]);
      AppliedWellFormed(Replay(p, ops[..|ops| - 1]), ops[|ops| - 1]);
    }
  }

  lemma {:induction false} ReplayAppend(p: Picture, a: seq<Operation>, b: seq<Operation>)
    ensures Replay(p, a + b) == Replay(Replay(p, a), b)
  {
    if b == [] {
      assert a + b == a;
    } else {
      var front := b[..|b| - 1];
      assert (a + b)[..|a + b| - 1] == a + front;
      ReplayAppend(p, a, front);
    }
  }

  // ---------- Which operations survive ----------

  predicate Removes(op: Operation, s: StrokeId) {
    op.Clear? || op == Undo(s)
  }

  predicate RemovedIn(ops: seq<Operation>, s: StrokeId) {
    exists i :: 0 <= i < |ops| && Removes(ops[i], s)
  }

  function Ops(events: seq<Event>): seq<Operation> {
    seq(|events|, i requires 0 <= i < |events| => events[i].op)
  }

  function EventsWithout(events: seq<Event>, s: StrokeId): seq<Event> {
    if events == [] then []
    else
      var kept, last := EventsWithout(events[..|events| - 1], s), events[|events| - 1];
      if last.op.Draw? && last.op.stroke == s then kept else kept + [last]
  }

  /** What the server's scan keeps of a turn: see ServerCanvas. */
  function Compacted(events: seq<Event>): seq<Event> {
    if events == [] then []
    else
      var kept, last := Compacted(events[..|events| - 1]), events[|events| - 1];
      match last.op
      case Clear => []
      case Undo(s) => EventsWithout(kept, s)
      case Draw(_, _, _, _) => kept + [last]
  }

  /** The events that are drawings and are not removed by anything after them. */
  function Surviving(events: seq<Event>): seq<Event> {
    if events == [] then []
    else
      var e, later := events[0], events[1..];
      if e.op.Draw? && !RemovedIn(Ops(later), e.op.stroke) then [e] + Surviving(later) else Surviving(later)
  }

  lemma OpsAppend(a: seq<Event>, b: seq<Event>)
    ensures Ops(a + b) == Ops(a) + Ops(b)
  {
  }

  lemma {:induction false} EventsWithoutHead(e: Event, rest: seq<Event>, s: StrokeId)
    ensures EventsWithout([e] + rest, s)
         == if e.op.Draw? && e.op.stroke == s then EventsWithout(rest, s) else [e] + EventsWithout(rest, s)
  {
    if rest != [] {
      assert ([e] + rest)[..|rest|] == [e] + rest[..|rest| - 1];
      assert ([e] + rest)[|rest|] == rest[|rest| - 1];
      EventsWithoutHead(e, rest[..|rest| - 1], s);
    }
  }

  lemma {:induction false} SurvivingAppend(events: seq<Event>, e: Event)
    ensures Surviving(events + [e])
         == match e.op
            case Clear => []
            case Undo(s) => EventsWithout(Surviving(events), s)
            case Draw(_, _, _, _) => Surviving(events) + [e]
  {
    if events == [] {
      assert events + [e] == [e];
      assert Surviving([e][1..]) == [];
    } else {
      var head, rest := events[0], events[1..];
      assert (events + [e])[1..] == rest + [e];
      SurvivingAppend(rest, e);
      OpsAppend(rest, [e]);
      assert Ops([e]) == [e.op];
      if head.op.Draw? {
        var s := head.op.stroke;
        assert RemovedIn(Ops(rest) + [e.op], s) <==> RemovedIn(Ops(rest), s) || Removes(e.op, s) by {
          assert forall i :: 0 <= i < |rest| ==> (Ops(rest) + [e.op])[i] == Ops(rest)[i];
          assert (Ops(rest) + [e.op])[|rest|] == e.op;
        }
      }
      if e.op.Undo? {
        EventsWithoutHead(head, Surviving(rest), e.op.stroke);
      }
    }
  }

  /** The server's scan keeps exactly the drawings that nothing later removes, in log order. */
  lemma {:induction false} CompactedIsSurviving(events: seq<Event>)
    ensures Compacted(events) == Surviving(events)
  {
    if events != [] {
      var front, last := events[..|events| - 1], events[|events| - 1];
      CompactedIsSurviving(front);
      SurvivingAppend(front, last);
      assert events == front + [last];
    }
  }

  /** The loop with which the server builds the canvas of a snapshot. */
  method ServerCanvas(rows: seq<Event>) returns (visible: seq<Event>)
    ensures visible == Surviving(rows)
  {
    visible := [];
    for n := 0 to |rows|
      invariant visible == Compacted(rows[..n])
    {
      var row := rows[n];
      assert rows[..n + 1][..n] == rows[..n];
      match row.op {
        case Clear => visible := [];
        case Undo(s) => visible := DropStroke(visible, s);
        case Draw(_, _, _, _) => visible := visible + [row];
      }
    }
    assert rows[..|rows|] == rows;
    CompactedIsSurviving(rows);
  }

  method DropStroke(items: seq<Event>, s: StrokeId) returns (kept: seq<Event>)
    ensures kept == EventsWithout(items, s)
  {
    kept := [];
    for n := 0 to |items|
      invariant kept == EventsWithout(items[..n], s)
    {
      assert items[..n + 1][..n] == items[..n];
      if !(items[n].op.Draw? && items[n].op.stroke == s) {
        kept := kept + [items[n]];
      }
    }
    assert items[..|items|] == items;
  }

  // ---------- Compaction preserves the picture ----------

  /** What the removals of a log leave of the picture it starts from. */
  function Remnant(p: Picture, ops: seq<Operation>): Picture {
    if ops == [] then p
    else
      var r := Remnant(p, ops[..|ops| - 1]);
      match ops[|ops| - 1]
      case Clear => EMPTY_PICTURE
      case Undo(s) => r.Erase({s})
      case Draw(_, _, _, _) => r
  }

  lemma {:induction false} RemnantWellFormed(p: Picture, ops: seq<Operation>)
    requires p.WellFormed()
    ensures Remnant(p, ops).WellFormed()
  {
    if ops != [] {
      RemnantWellFormed(p, ops[..|ops| - 1]);
      AppliedWellFormed(Remnant(p, ops[..|ops| - 1]), ops[|ops| - 1]);
    }
  }

  lemma EraseAfterOwnDraw(p: Picture, op: Operation)
    requires op.Draw? && p.WellFormed()
    ensures Applied(p, op).Erase({op.stroke}) == p.Erase({op.stroke})
  {
    var s := op.stroke;
    ErasedAppend(p.order, s, {s});
    assert p.strokes[s := Inked(p, op)] - {s} == p.strokes - {s};
  }

  lemma EraseAfterOtherDraw(p: Picture, op: Operation, s: StrokeId)
    requires op.Draw? && op.stroke != s && p.WellFormed()
    ensures Applied(p, op).Erase({s}) == Applied(p.Erase({s}), op)
  {
    ErasedAppend(p.order, op.stroke, {s});
    ErasedMembers(p.order, {s});
    var ink := Inked(p, op);
    assert ink == Inked(p.Erase({s}), op);
    assert p.strokes[op.stroke := ink] - {s} == (p.strokes - {s})[op.stroke := ink];
  }

  lemma {:induction false} EraseCommutes(p: Picture, drawn: seq<Event>, s: StrokeId)
    requires p.WellFormed() && forall e :: e in drawn ==> e.op.Draw?
    ensures Replay(p, Ops(drawn)).Erase({s}) == Replay(p.Erase({s}), Ops(EventsWithout(drawn, s)))
  {
    if drawn != [] {
      var front, last := drawn[..|drawn| - 1], drawn[|drawn| - 1];
      EraseCommutes(p, front, s);
      assert Ops(drawn)[..|drawn| - 1] == Ops(front);
      ReplayWellFormed(p, Ops(front));
      var q, kept := Replay(p, Ops(front)), EventsWithout(front, s);
      assert Replay(p, Ops(drawn)) == Applied(q, last.op);
      if last.op.stroke == s {
        EraseAfterOwnDraw(q, last.op);
      } else {
        EraseAfterOtherDraw(q, last.op, s);
        assert Ops(kept + [last])[..|kept|] == Ops(kept);
      }
    }
  }

  lemma {:induction false} CompactedDraws(events: seq<Event>)
    ensures forall e :: e in Compacted(events) ==> e in events && e.op.Draw?
  {
    if events != [] {
      var front, last := events[..|events| - 1], events[|events| - 1];
      CompactedDraws(front);
      if last.op.Undo? {
        EventsWithoutMembers(Compacted(front), last.op.stroke);
      }
    }
  }

  lemma {:induction false} EventsWithoutMembers(events: seq<Event>, s: StrokeId)
    ensures forall e :: e in EventsWithout(events, s) ==> e in events
  {
    if events != [] {
      EventsWithoutMembers(events[..|events| - 1], s);
    }
  }

  /** One operation more, on a log that is already compacted. */
  lemma CompactionStep(p: Picture, removals: seq<Operation>, kept: seq<Event>, e: Event)
    requires Remnant(p, removals).WellFormed() && forall k :: k in kept ==> k.op.Draw?
    ensures Applied(Replay(Remnant(p, removals), Ops(kept)), e.op)
         == if e.op.Clear? then EMPTY_PICTURE
            else if e.op.Undo? then
              Replay(Remnant(p, removals).Erase({e.op.stroke}), Ops(EventsWithout(kept, e.op.stroke)))
            else Replay(Remnant(p, removals), Ops(kept + [e]))
  {
    if e.op.Undo? {
      EraseCommutes(Remnant(p, removals), kept, e.op.stroke);
    } else if e.op.Draw? {
      assert Ops(kept + [e])[..|kept|] == Ops(kept);
    }
  }

  /**
   Replaying a log is replaying only its surviving drawings, on what the log's
   removals leave of the starting picture.
   */
  lemma {:induction false} ReplayByCompaction(p: Picture, events: seq<Event>)
    requires p.WellFormed()
    ensures Replay(p, Ops(events)) == Replay(Remnant(p, Ops(events)), Ops(Surviving(events)))
  {
    CompactedIsSurviving(events);
    if events != [] {
      var front, last := events[..|events| - 1], events[|events| - 1];
      CompactedIsSurviving(front);
      ReplayByCompaction(p, front);
      assert Ops(events)[..|events| - 1] == Ops(front);
      RemnantWellFormed(p, Ops(front));
      CompactedDraws(front);
      CompactionStep(p, Ops(front), Compacted(front), last);
    }
  }

  /** A compacted snapshot shows what the full log shows. */
  lemma {:induction false} SnapshotFaithful(events: seq<Event>)
    ensures Replay(EMPTY_PICTURE, Ops(Surviving(events))) == Replay(EMPTY_PICTURE, Ops(events))
  {
    ReplayByCompaction(EMPTY_PICTURE, events);
    RemnantOfEmpty(Ops(events));
  }

  lemma {:induction false} RemnantOfEmpty(ops: seq<Operation>)
    ensures Remnant(EMPTY_PICTURE, ops) == EMPTY_PICTURE
  {
    if ops != [] {
      RemnantOfEmpty(ops[..|ops| - 1]);
    }
  }

  /** Applying the same removals a second time changes nothing. */
  lemma {:induction false} RemnantTwice(p: Picture, ops: seq<Operation>)
    requires p.WellFormed()
    ensures Remnant(Remnant(p, ops), ops) == Remnant(p, ops)
  {
    RemnantForm(p, ops);
    RemnantWellFormed(p, ops);
    RemnantForm(Remnant(p, ops), ops);
    if !(Clear in ops) {
      ErasedTwice(p.order, UndoneIn(ops), UndoneIn(ops));
      assert UndoneIn(ops) + UndoneIn(ops) == UndoneIn(ops);
    }
  }

  function UndoneIn(ops: seq<Operation>): (gone: set<StrokeId>)
    ensures forall s :: s in gone <==> Undo(s) in ops
  {
    set op | op in ops && op.Undo? :: op.stroke
  }

  /** A log's removals either wipe the picture or erase the strokes it undoes. */
  lemma {:induction false} RemnantForm(p: Picture, ops: seq<Operation>)
    requires p.WellFormed()
    ensures Clear in ops ==> Remnant(p, ops) == EMPTY_PICTURE
    ensures !(Clear in ops) ==> Remnant(p, ops) == p.Erase(UndoneIn(ops))
  {
    if ops == [] {
      ErasedNothing(p.order, {});
      assert UndoneIn(ops) == {};
    } else {
      var front, last := ops[..|ops| - 1], ops[|ops| - 1];
      assert ops == front + [last];
      RemnantForm(p, front);
      assert Clear in ops <==> Clear in front || last.Clear?;
      if last.Undo? {
        ErasedTwice(p.order, UndoneIn(front), {last.stroke});
        UndoneSnoc(front, last);
        assert p.strokes - (UndoneIn(front) + {last.stroke}) == (p.strokes - UndoneIn(front)) - {last.stroke};
      } else {
        UndoneSnoc(front, last);
        assert UndoneIn(front) + {} == UndoneIn(front);
      }
    }
  }

  lemma UndoneSnoc(ops: seq<Operation>, op: Operation)
    ensures UndoneIn(ops + [op]) == UndoneIn(ops) + if op.Undo? then {op.stroke} else {}
  {
    assert forall s :: Undo(s) in ops + [op] <==> Undo(s) in ops || Undo(s) == op;
  }

  /** A stroke is on the canvas exactly when the log holds a surviving drawing of it. */
  lemma {:induction false} PresentIffSurviving(events: seq<Event>, s: StrokeId)
    ensures s in Replay(EMPTY_PICTURE, Ops(events)).strokes
       <==> exists e :: e in Surviving(events) && e.op.Draw? && e.op.stroke == s
  {
    SnapshotFaithful(events);
    CompactedIsSurviving(events);
    CompactedDraws(events);
    DrawnStrokes(Surviving(events), s);
  }

  lemma {:induction false} DrawnStrokes(drawn: seq<Event>, s: StrokeId)
    requires forall e :: e in drawn ==> e.op.Draw?
    ensures s in Replay(EMPTY_PICTURE, Ops(drawn)).strokes <==> exists e :: e in drawn && e.op.stroke == s
  {
    if drawn != [] {
      var front, last := drawn[..|drawn| - 1], drawn[|drawn| - 1];
      DrawnStrokes(front, s);
      assert Ops(drawn)[..|drawn| - 1] == Ops(front);
      assert drawn == front + [last];
    }
  }
}
