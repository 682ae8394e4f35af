/**
 What a canvas shows, said without replaying it: which strokes, in which paint
 order, with which points and which style.
 */
module CanvasMeaning {
  import opened CanvasReplay

  predicate Drawings(ops: seq<Operation>) {
    forall i :: 0 <= i < |ops| ==> ops[i].Draw?
  }

  function DrawsOf(ops: seq<Operation>, s: StrokeId): seq<Operation> {
    if ops == [] then []
    else
      var before, last := DrawsOf(ops[..|ops| - 1], s), ops[|ops| - 1];
      if last.Draw? && last.stroke == s then before + [last] else before
  }

  /** The position of the last Begin, or of the first drawing if nothing begins. */
  function LastBegin(draws: seq<Operation>): (n: nat)
    requires Drawings(draws) && draws != []
    ensures n < |draws| && (n > 0 ==> draws[n].kind == Begin)
    ensures forall k :: n < k < |draws| ==> draws[k].kind != Begin
  {
    if |draws| == 1 || draws[|draws| - 1].kind == Begin then |draws| - 1
    else
      var front := draws[..|draws| - 1];
      assert forall k :: 0 <= k < |front| ==> front[k] == draws[k];
      LastBegin(front)
  }

  function AllPoints(draws: seq<Operation>): seq<Point>
    requires Drawings(draws)
  {
    if draws == [] then [] else AllPoints(draws[..|draws| - 1]) + draws[|draws| - 1].points
  }

  /** The first drawing of a stroke, or the length if there is none. */
  function FirstDraw(ops: seq<Operation>, s: StrokeId): (n: nat)
    ensures n <= |ops| && (n < |ops| ==> ops[n].Draw? && ops[n].stroke == s)
    ensures forall k :: 0 <= k < n ==> !(ops[k].Draw? && ops[k].stroke == s)
  {
    if ops == [] then 0
    else
      var front, last := ops[..|ops| - 1], ops[|ops| - 1];
      var n := FirstDraw(front, s);
      if n < |front| then n else if last.Draw? && last.stroke == s then |front| else |ops|
  }

  lemma {:induction false} DrawsOfAreDrawings(ops: seq<Operation>, s: StrokeId)
    ensures Drawings(DrawsOf(ops, s))
  {
    if ops != [] {
      DrawsOfAreDrawings(ops[..|ops| - 1], s);
    }
  }

  /** The points from the last Begin on, in the style of the last drawing. */
  function Finished(draws: seq<Operation>): Stroke
    requires Drawings(draws) && draws != []
  {
    Stroke(AllPoints(draws[LastBegin(draws)..]), draws[|draws| - 1].style)
  }

  lemma FinishedSnoc(draws: seq<Operation>, op: Operation)
    requires Drawings(draws) && op.Draw?
    ensures Drawings(draws + [op])
    ensures Finished(draws + [op])
         == if draws == [] || op.kind == Begin then Stroke(op.points, op.style)
            else Stroke(Finished(draws).points + op.points, op.style)
  {
    var more := draws + [op];
    assert more[..|draws|] == draws;
    if draws == [] || op.kind == Begin {
      assert more[|draws|..] == [op];
      assert AllPoints([op]) == [] + op.points by {
        assert [op][..0] == [];
      }
    } else {
      var n := LastBegin(draws);
      assert LastBegin(more) == n;
      assert more[n..] == draws[n..] + [op];
      AllPointsSnoc(draws[n..], op);
    }
  }

  lemma AllPointsSnoc(draws: seq<Operation>, op: Operation)
    requires Drawings(draws) && op.Draw?
    ensures Drawings(draws + [op]) && AllPoints(draws + [op]) == AllPoints(draws) + op.points
  {
    assert (draws + [op])[..|draws|] == draws;
  }

  /** Every stroke of a log of drawings is finished as above, and the log's strokes are those drawn in it. */
  lemma {:induction false} StrokesOfDrawings(ops: seq<Operation>, s: StrokeId)
    requires Drawings(ops)
    ensures Drawings(DrawsOf(ops, s))
    ensures s in Replay(EMPTY_PICTURE, ops).strokes <==> DrawsOf(ops, s) != []
    ensures DrawsOf(ops, s) != [] ==> Replay(EMPTY_PICTURE, ops).strokes[s] == Finished(DrawsOf(ops, s))
  {
    DrawsOfAreDrawings(ops, s);
    if ops != [] {
      var front, last := ops[..|ops| - 1], ops[|ops| - 1];
      StrokesOfDrawings(front, s);
      if last.stroke == s {
        FinishedSnoc(DrawsOf(front, s), last);
      }
    }
  }

  /** A log of drawings is painted in the order in which its strokes are first drawn. */
  lemma {:induction false} OrderOfDrawings(ops: seq<Operation>, i: nat, j: nat)
    requires Drawings(ops) && i < j < |Replay(EMPTY_PICTURE, ops).order|
    ensures var order := Replay(EMPTY_PICTURE, ops).order;
      FirstDraw(ops, order[i]) < FirstDraw(ops, order[j]) < |ops|
  {
    var front, last := ops[..|ops| - 1], ops[|ops| - 1];
    var before, order := Replay(EMPTY_PICTURE, front).order, Replay(EMPTY_PICTURE, ops).order;
    ReplayWellFormed(EMPTY_PICTURE, front);
    PaintedIsDrawn(front, order[i]);
    if j < |before| {
      OrderOfDrawings(front, i, j);
    } else {
      PaintedIsDrawn(front, last.stroke);
    }
  }

  lemma PaintedIsDrawn(ops: seq<Operation>, s: StrokeId)
    requires Drawings(ops)
    ensures s in Replay(EMPTY_PICTURE, ops).order <==> FirstDraw(ops, s) < |ops|
  {
    ReplayWellFormed(EMPTY_PICTURE, ops);
    StrokesOfDrawings(ops, s);
    FirstDrawExists(ops, s);
  }

  lemma {:induction false} FirstDrawExists(ops: seq<Operation>, s: StrokeId)
    ensures DrawsOf(ops, s) != [] <==> FirstDraw(ops, s) < |ops|
  {
    if ops != [] {
      FirstDrawExists(ops[..|ops| - 1], s);
    }
  }

  /**
   The canvas of any log: the strokes with a surviving drawing, painted in the order
   of their first surviving drawing, each with its surviving points from its last
   Begin on and the style of its last surviving drawing.
   */
  lemma {:induction false} CanvasShows(events: seq<Event>)
    ensures var p, drawn := Replay(EMPTY_PICTURE, Ops(events)), Ops(Surviving(events));
      && Drawings(drawn)
      && (forall s :: s in p.strokes <==> DrawsOf(drawn, s) != [])
      && (forall s :: s in p.strokes ==> Drawings(DrawsOf(drawn, s)) && p.strokes[s] == Finished(DrawsOf(drawn, s)))
      && (forall s :: s in p.order <==> s in p.strokes)
      && (forall i, j :: 0 <= i < j < |p.order| ==> FirstDraw(drawn, p.order[i]) < FirstDraw(drawn, p.order[j]))
  {
    var p, drawn := Replay(EMPTY_PICTURE, Ops(events)), Ops(Surviving(events));
    SnapshotFaithful(events);
    CompactedIsSurviving(events);
    CompactedDraws(events);
    assert Drawings(drawn) by {
      assert forall i :: 0 <= i < |drawn| ==> Surviving(events)[i] in Surviving(events);
    }
    ReplayWellFormed(EMPTY_PICTURE, Ops(events));
    forall s ensures s in p.strokes <==> DrawsOf(drawn, s) != []
      ensures s in p.strokes ==> Drawings(DrawsOf(drawn, s)) && p.strokes[s] == Finished(DrawsOf(drawn, s))
    {
      StrokesOfDrawings(drawn, s);
    }
    forall i, j | 0 <= i < j < |p.order| ensures FirstDraw(drawn, p.order[i]) < FirstDraw(drawn, p.order[j]) {
      OrderOfDrawings(drawn, i, j);
    }
  }
}
