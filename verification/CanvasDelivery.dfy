/**
 A viewer's board behind an at-least-once event stream: it is restored from a
 compacted snapshot and then fed slices of the room log, some of them again.
 */
module CanvasDelivery {
  import opened CanvasReplay
  import opened CanvasConvergence
  import opened CanvasBoard

  datatype Viewer = Viewer(shown: Picture, lastSeq: nat)

  /** A slice of the room log, from position first up to but not including position end. */
  datatype Span = Span(first: nat, end: nat)

  /** The effect of ApplyEvents, as its contract states it. */
  function Deliver(v: Viewer, batch: seq<Event>, turn: int): Viewer {
    var admitted := Admitted(batch, turn, v.lastSeq);
    Viewer(Replay(v.shown, Ops(admitted)), HighSeq(admitted, v.lastSeq))
  }

  /** The room log numbers its events upwards from one. */
  ghost predicate RoomLog(log: seq<Event>) {
    && (forall i :: 0 <= i < |log| ==> log[i].seqNo > 0)
    && (forall i, j :: 0 <= i < j < |log| ==> log[i].seqNo < log[j].seqNo)
  }

  /** The events of a turn above a sequence number. */
  function Fresh(events: seq<Event>, turn: int, floor: nat): seq<Event> {
    if events == [] then []
    else
      var before, e := Fresh(events[..|events| - 1], turn, floor), events[|events| - 1];
      if e.turn == turn && e.seqNo > floor then before + [e] else before
  }

  function TurnEvents(events: seq<Event>, turn: int): seq<Event> {
    Fresh(events, turn, 0)
  }

  /** What the server sends as the canvas of a snapshot taken after k events. */
  function SnapshotCanvas(log: seq<Event>, k: nat, turn: int): seq<Event>
    requires k <= |log|
  {
    Surviving(TurnEvents(log[..k], turn))
  }

  /** What a turn's events among the first k show. */
  function TurnPicture(log: seq<Event>, turn: int, k: nat): Picture
    requires k <= |log|
  {
    Replay(EMPTY_PICTURE, Ops(TurnEvents(log[..k], turn)))
  }

  /** The turn's operations between two positions. */
  function TurnOps(log: seq<Event>, turn: int, a: nat, b: nat): seq<Operation>
    requires a <= b <= |log|
  {
    Ops(TurnEvents(log[a..b], turn))
  }

  function Restored(canvas: seq<Event>): Viewer {
    Viewer(Replay(EMPTY_PICTURE, Ops(canvas)), MaxSeq(canvas))
  }

  /** The furthest position of the log a stream opened at a cursor has reached. */
  function Reached(cursor: nat, spans: seq<Span>): nat {
    if spans == [] then cursor
    else
      var before, end := Reached(cursor, spans[..|spans| - 1]), spans[|spans| - 1].end;
      if end > before then end else before
  }

  /** Slices start no earlier than the stream's cursor and leave no gap. */
  ghost predicate Gapless(cursor: nat, spans: seq<Span>, size: nat) {
    forall n :: 0 <= n < |spans| ==>
      cursor <= spans[n].first <= Reached(cursor, spans[..n]) && spans[n].first <= spans[n].end <= size
  }

  function DeliverAll(v: Viewer, log: seq<Event>, spans: seq<Span>, turn: int): Viewer
    requires forall n :: 0 <= n < |spans| ==> spans[n].first <= spans[n].end <= |log|
  {
    if spans == [] then v
    else
      var last := spans[|spans| - 1];
      Deliver(DeliverAll(v, log, spans[..|spans| - 1], turn), log[last.first..last.end], turn)
  }

  // ---------- Filtering a numbered log ----------

  lemma {:induction false} FreshAppend(a: seq<Event>, b: seq<Event>, turn: int, floor: nat)
    ensures Fresh(a + b, turn, floor) == Fresh(a, turn, floor) + Fresh(b, turn, floor)
  {
    if b == [] {
      assert a + b == a;
    } else {
      assert (a + b)[..|a + b| - 1] == a + b[..|b| - 1];
      FreshAppend(a, b[..|b| - 1], turn, floor);
    }
  }

  lemma {:induction false} FreshSame(events: seq<Event>, turn: int, floor: nat, other: nat)
    requires forall e :: e in events && e.turn == turn ==> (e.seqNo > floor <==> e.seqNo > other)
    ensures Fresh(events, turn, floor) == Fresh(events, turn, other)
  {
    if events != [] {
      FreshSame(events[..|events| - 1], turn, floor, other);
    }
  }

  lemma {:induction false} FreshNone(events: seq<Event>, turn: int, floor: nat)
    requires forall e :: e in events && e.turn == turn ==> e.seqNo <= floor
    ensures Fresh(events, turn, floor) == []
  {
    if events != [] {
      FreshNone(events[..|events| - 1], turn, floor);
    }
  }

  lemma {:induction false} FreshMembers(events: seq<Event>, turn: int, floor: nat)
    ensures forall e :: e in Fresh(events, turn, floor) <==> e in events && e.turn == turn && e.seqNo > floor
  {
    if events != [] {
      FreshMembers(events[..|events| - 1], turn, floor);
      assert events == events[..|events| - 1] + [events[|events| - 1]];
    }
  }

  lemma LastIsHighest(front: seq<Event>, last: Event)
    requires RoomLog(front + [last])
    ensures RoomLog(front) && forall e :: e in front ==> e.seqNo < last.seqNo
  {
    var events := front + [last];
    assert forall i :: 0 <= i < |front| ==> events[i] == front[i] && events[i].seqNo < events[|front|].seqNo;
  }

  ghost predicate Attained(events: seq<Event>, number: nat) {
    exists e :: e in events && e.seqNo == number
  }

  function Highest(events: seq<Event>, turn: int, floor: nat): nat {
    HighSeq(Fresh(events, turn, floor), floor)
  }

  lemma HighestSnoc(front: seq<Event>, last: Event, turn: int, floor: nat)
    ensures Highest(front + [last], turn, floor)
         == if last.turn == turn && last.seqNo > floor then last.seqNo else Highest(front, turn, floor)
  {
    assert (front + [last])[..|front|] == front;
  }

  lemma {:induction false} HighestAttained(events: seq<Event>, turn: int, floor: nat)
    ensures Highest(events, turn, floor) == floor || Attained(events, Highest(events, turn, floor))
  {
    if events != [] {
      var front, last := events[..|events| - 1], events[|events| - 1];
      assert events == front + [last];
      HighestSnoc(front, last, turn, floor);
      HighestAttained(front, turn, floor);
      if last.turn == turn && last.seqNo > floor {
        assert last in events;
      } else if Highest(events, turn, floor) != floor {
        var e :| e in front && e.seqNo == Highest(front, turn, floor);
        assert e in events;
      }
    }
  }

  lemma {:induction false} HighestBounds(events: seq<Event>, turn: int, floor: nat)
    requires RoomLog(events)
    ensures Highest(events, turn, floor) >= floor
    ensures forall e :: e in events && e.turn == turn ==> e.seqNo <= Highest(events, turn, floor)
  {
    if events != [] {
      var front, last := events[..|events| - 1], events[|events| - 1];
      assert events == front + [last];
      HighestSnoc(front, last, turn, floor);
      LastIsHighest(front, last);
      HighestBounds(front, turn, floor);
    }
  }

  /** The highest number a sorted batch leaves behind bounds everything in it. */
  lemma FreshHighest(events: seq<Event>, turn: int, floor: nat)
    requires RoomLog(events)
    ensures var high := HighSeq(Fresh(events, turn, floor), floor);
      && high >= floor
      && (forall e :: e in events && e.turn == turn ==> e.seqNo <= high)
      && (high == floor || Attained(events, high))
  {
    HighestAttained(events, turn, floor);
    HighestBounds(events, turn, floor);
  }

  /** On a sorted batch the running sequence test is a plain filter. */
  lemma {:induction false} AdmittedIsFresh(events: seq<Event>, turn: int, floor: nat)
    requires RoomLog(events)
    ensures Admitted(events, turn, floor) == Fresh(events, turn, floor)
  {
    if events != [] {
      var front := events[..|events| - 1];
      AdmittedIsFresh(front, turn, floor);
      FreshHighest(front, turn, floor);
    }
  }

  /** Raising the floor keeps a tail of a sorted turn. */
  lemma {:induction false} FreshIsTail(events: seq<Event>, turn: int, floor: nat)
    requires RoomLog(events)
    ensures var all, tail := TurnEvents(events, turn), Fresh(events, turn, floor);
      |tail| <= |all| && all[|all| - |tail|..] == tail
  {
    if events != [] {
      var front, e := events[..|events| - 1], events[|events| - 1];
      FreshIsTail(front, turn, floor);
      if e.turn == turn && e.seqNo <= floor {
        FreshNone(front, turn, floor);
      }
    }
  }

  // ---------- One slice ----------

  lemma SubsliceMembers(log: seq<Event>, a: nat, c: nat, d: nat, b: nat)
    requires a <= c <= d <= b <= |log|
    ensures forall e :: e in log[c..d] ==> e in log[a..b]
  {
    forall e | e in log[c..d] ensures e in log[a..b] {
      var i :| 0 <= i < d - c && log[c..d][i] == e;
      assert log[a..b][c - a + i] == e;
    }
  }

  /** After a gapless prefix, a slice contributes only what lies beyond the position reached. */
  lemma {:induction false} SliceAdmits(log: seq<Event>, turn: int, floor: nat, cursor: nat, reached: nat, span: Span)
    requires RoomLog(log) && cursor <= span.first <= reached <= |log| && span.first <= span.end <= |log|
    ensures var high := HighSeq(Fresh(log[cursor..reached], turn, floor), floor);
      Fresh(log[span.first..span.end], turn, high)
      == if span.end <= reached then [] else Fresh(log[reached..span.end], turn, floor)
  {
    var high := HighSeq(Fresh(log[cursor..reached], turn, floor), floor);
    FreshHighest(log[cursor..reached], turn, floor);
    if span.end <= reached {
      SubsliceMembers(log, cursor, span.first, span.end, reached);
      FreshNone(log[span.first..span.end], turn, high);
    } else {
      assert log[span.first..span.end] == log[span.first..reached] + log[reached..span.end];
      FreshAppend(log[span.first..reached], log[reached..span.end], turn, high);
      SubsliceMembers(log, cursor, span.first, reached, reached);
      FreshNone(log[span.first..reached], turn, high);
      BeyondHigh(log, turn, floor, cursor, reached, span.end);
    }
  }

  /** Past the position reached, the raised floor admits what the original one does. */
  lemma BeyondHigh(log: seq<Event>, turn: int, floor: nat, cursor: nat, reached: nat, end: nat)
    requires RoomLog(log) && cursor <= reached <= end <= |log|
    ensures var high := HighSeq(Fresh(log[cursor..reached], turn, floor), floor);
      Fresh(log[reached..end], turn, high) == Fresh(log[reached..end], turn, floor)
  {
    var high := HighSeq(Fresh(log[cursor..reached], turn, floor), floor);
    FreshHighest(log[cursor..reached], turn, floor);
    forall e | e in log[reached..end] ensures e.seqNo > floor <==> e.seqNo > high {
      var j :| 0 <= j < end - reached && log[reached..end][j] == e;
      assert log[reached + j] == e;
      if high != floor {
        var d :| d in log[cursor..reached] && d.seqNo == high;
        var i :| 0 <= i < reached - cursor && log[cursor..reached][i] == d;
        assert log[cursor + i] == d;
      }
    }
    FreshSame(log[reached..end], turn, high, floor);
  }

  /** Splitting a stretch of the log at b splits what a board applies of it. */
  lemma FreshSplit(p: Picture, log: seq<Event>, a: nat, b: nat, c: nat, turn: int, floor: nat)
    requires a <= b <= c <= |log|
    ensures Fresh(log[a..c], turn, floor) == Fresh(log[a..b], turn, floor) + Fresh(log[b..c], turn, floor)
    ensures Replay(p, Ops(Fresh(log[a..c], turn, floor)))
         == Replay(Replay(p, Ops(Fresh(log[a..b], turn, floor))), Ops(Fresh(log[b..c], turn, floor)))
  {
    assert log[a..c] == log[a..b] + log[b..c];
    FreshAppend(log[a..b], log[b..c], turn, floor);
    OpsAppend(Fresh(log[a..b], turn, floor), Fresh(log[b..c], turn, floor));
    ReplayAppend(p, Ops(Fresh(log[a..b], turn, floor)), Ops(Fresh(log[b..c], turn, floor)));
  }

  /** The viewer that has applied the stretch from a cursor to a position once. */
  function Caught(v: Viewer, log: seq<Event>, turn: int, cursor: nat, reached: nat): Viewer
    requires cursor <= reached <= |log|
  {
    var applied := Fresh(log[cursor..reached], turn, v.lastSeq);
    Viewer(Replay(v.shown, Ops(applied)), HighSeq(applied, v.lastSeq))
  }

  lemma {:induction false} CaughtStep(v: Viewer, log: seq<Event>, turn: int, cursor: nat, reached: nat, span: Span)
    requires RoomLog(log) && cursor <= span.first <= reached <= |log| && span.first <= span.end <= |log|
    ensures Deliver(Caught(v, log, turn, cursor, reached), log[span.first..span.end], turn)
         == Caught(v, log, turn, cursor, if span.end > reached then span.end else reached)
  {
    var floor := v.lastSeq;
    var high := HighSeq(Fresh(log[cursor..reached], turn, floor), floor);
    SliceAdmits(log, turn, floor, cursor, reached, span);
    SliceOfRoomLog(log, span.first, span.end);
    AdmittedIsFresh(log[span.first..span.end], turn, high);
    if span.end > reached {
      FreshSplit(v.shown, log, cursor, reached, span.end, turn, floor);
      HighSeqAppend(Fresh(log[cursor..reached], turn, floor), Fresh(log[reached..span.end], turn, floor), floor);
    }
  }

  lemma SliceOfRoomLog(log: seq<Event>, a: nat, b: nat)
    requires RoomLog(log) && a <= b <= |log|
    ensures RoomLog(log[a..b])
  {
  }

  lemma HighSeqAppend(a: seq<Event>, b: seq<Event>, floor: nat)
    ensures HighSeq(a + b, floor) == HighSeq(b, HighSeq(a, floor))
  {
  }

  // ---------- A whole stream ----------

  /** Redelivery is invisible: a gapless stream applies each event past its cursor once, in order. */
  lemma {:induction false} StreamAppliesOnce(v: Viewer, log: seq<Event>, spans: seq<Span>, turn: int, cursor: nat)
    requires RoomLog(log) && cursor <= |log| && Gapless(cursor, spans, |log|)
    ensures cursor <= Reached(cursor, spans) <= |log|
    ensures DeliverAll(v, log, spans, turn) == Caught(v, log, turn, cursor, Reached(cursor, spans))
  {
    if spans == [] {
      assert log[cursor..cursor] == [];
    } else {
      var before, span := spans[..|spans| - 1], spans[|spans| - 1];
      assert forall n :: 0 <= n < |before| ==> spans[..n] == before[..n] && spans[n] == before[n];
      StreamAppliesOnce(v, log, before, turn, cursor);
      CaughtStep(v, log, turn, cursor, Reached(cursor, before), span);
    }
  }

  // ---------- The invisible tail of a snapshot ----------

  lemma {:induction false} SurvivorsOfTail(events: seq<Event>, n: nat)
    requires n <= |events|
    ensures forall e :: e in Surviving(events[n..]) ==> e in Surviving(events)
  {
    if n == 0 {
      assert events[0..] == events;
    } else {
      SurvivorsOfTail(events[1..], n - 1);
      assert events[1..][n - 1..] == events[n..];
    }
  }

  lemma {:induction false} MaxSeqBounds(events: seq<Event>)
    ensures forall e :: e in events ==> e.seqNo <= MaxSeq(events)
  {
    if events != [] {
      MaxSeqBounds(events[..|events| - 1]);
      assert events == events[..|events| - 1] + [events[|events| - 1]];
    }
  }

  lemma {:induction false} SurvivingMembers(events: seq<Event>)
    ensures forall e :: e in Surviving(events) ==> e in events
  {
    if events != [] {
      SurvivingMembers(events[1..]);
    }
  }

  lemma EmptyOrMember(events: seq<Event>)
    ensures events == [] || exists e :: e in events
  {
    if events != [] {
      assert events[0] in events;
    }
  }

  /**
   Events newer than everything on a snapshot's canvas left no trace in it, and
   applying them to it once more leaves it as it is.
   */
  lemma {:induction false} TailAbsorbed(head: seq<Event>, tail: seq<Event>)
    requires forall e :: e in tail ==> e.seqNo > MaxSeq(Surviving(head + tail))
    ensures Replay(Replay(EMPTY_PICTURE, Ops(head + tail)), Ops(tail)) == Replay(EMPTY_PICTURE, Ops(head + tail))
  {
    TailVanishes(head, tail);
    OpsAppend(head, tail);
    var y := Replay(EMPTY_PICTURE, Ops(head));
    ReplayAppend(EMPTY_PICTURE, Ops(head), Ops(tail));
    ReplayWellFormed(EMPTY_PICTURE, Ops(head));
    ReplayByCompaction(y, tail);
    RemnantWellFormed(y, Ops(tail));
    ReplayByCompaction(Remnant(y, Ops(tail)), tail);
    RemnantTwice(y, Ops(tail));
  }

  lemma TailVanishes(head: seq<Event>, tail: seq<Event>)
    requires forall e :: e in tail ==> e.seqNo > MaxSeq(Surviving(head + tail))
    ensures Surviving(tail) == []
  {
    var all := head + tail;
    assert all[|head|..] == tail;
    SurvivorsOfTail(all, |head|);
    MaxSeqBounds(Surviving(all));
    SurvivingMembers(tail);
    EmptyOrMember(Surviving(tail));
  }

  // ---------- Exactly once ----------

  lemma PictureOn(log: seq<Event>, turn: int, a: nat, b: nat)
    requires a <= b <= |log|
    ensures TurnPicture(log, turn, b) == Replay(TurnPicture(log, turn, a), TurnOps(log, turn, a, b))
  {
    FreshSplit(EMPTY_PICTURE, log, 0, a, b, turn, 0);
    assert log[0..a] == log[..a] && log[0..b] == log[..b];
  }

  /** Redoing a stretch of the log that ends at the snapshot changes nothing. */
  lemma {:induction false} RedoneAbsorbed(log: seq<Event>, turn: int, k: nat, cursor: nat)
    requires RoomLog(log) && cursor <= k <= |log|
    ensures var v := Restored(SnapshotCanvas(log, k, turn));
      Replay(v.shown, Ops(Fresh(log[cursor..k], turn, v.lastSeq))) == TurnPicture(log, turn, k)
  {
    var all := TurnEvents(log[..k], turn);
    SnapshotFaithful(all);
    RedoneIsTail(log, turn, k, cursor);
    var redone := Fresh(log[cursor..k], turn, MaxSeq(Surviving(all)));
    var head := all[..|all| - |redone|];
    assert all == head + redone;
    TailAbsorbed(head, redone);
  }

  /** What comes after the snapshot completes it. */
  lemma {:induction false} BeyondCompletes(log: seq<Event>, turn: int, k: nat, h: nat)
    requires RoomLog(log) && k <= h <= |log|
    ensures var floor := MaxSeq(SnapshotCanvas(log, k, turn));
      Replay(TurnPicture(log, turn, k), Ops(Fresh(log[k..h], turn, floor))) == TurnPicture(log, turn, h)
  {
    BeyondIsNew(log, turn, k, k, h);
    PictureOn(log, turn, k, h);
  }

  /** From a cursor not past the snapshot on, a stretch that passes it shows all the turn's events reached. */
  lemma {:induction false} CaughtUp(log: seq<Event>, turn: int, k: nat, cursor: nat, h: nat)
    requires RoomLog(log) && cursor <= k <= h <= |log|
    ensures Caught(Restored(SnapshotCanvas(log, k, turn)), log, turn, cursor, h).shown == TurnPicture(log, turn, h)
  {
    var v := Restored(SnapshotCanvas(log, k, turn));
    BeyondCompletes(log, turn, k, h);
    RedoneAbsorbed(log, turn, k, cursor);
    FreshSplit(v.shown, log, cursor, k, h, turn, v.lastSeq);
  }

  /** From a cursor past the snapshot on, the stretch is replayed on the snapshot as if nothing had been between. */
  lemma {:induction false} CaughtBehind(log: seq<Event>, turn: int, k: nat, cursor: nat, h: nat)
    requires RoomLog(log) && k <= cursor <= h <= |log|
    ensures Caught(Restored(SnapshotCanvas(log, k, turn)), log, turn, cursor, h).shown
         == Replay(TurnPicture(log, turn, k), TurnOps(log, turn, cursor, h))
  {
    SnapshotFaithful(TurnEvents(log[..k], turn));
    BeyondIsNew(log, turn, k, cursor, h);
  }

  /** The board behind a stream shows exactly the turn's events reached. */
  ghost predicate ShowsReached(log: seq<Event>, turn: int, k: nat, cursor: nat, spans: seq<Span>)
    requires k <= |log| && cursor <= Reached(cursor, spans) <= |log| && Gapless(cursor, spans, |log|)
  {
    DeliverAll(Restored(SnapshotCanvas(log, k, turn)), log, spans, turn).shown
    == TurnPicture(log, turn, Reached(cursor, spans))
  }

  lemma {:induction false} ReachedFits(cursor: nat, spans: seq<Span>, size: nat)
    requires cursor <= size && Gapless(cursor, spans, size)
    ensures cursor <= Reached(cursor, spans) <= size
  {
    if spans != [] {
      var before := spans[..|spans| - 1];
      assert forall n :: 0 <= n < |before| ==> spans[..n] == before[..n] && spans[n] == before[n];
      ReachedFits(cursor, before, size);
    }
  }

  /**
   A viewer restored from the snapshot of the first k events, behind a stream whose cursor
   is not past k: however the log is sliced and redelivered, once the stream has reached k
   the board shows exactly the turn's events reached.
   */
  lemma {:induction false} ExactlyOnce(log: seq<Event>, turn: int, k: nat, cursor: nat, spans: seq<Span>)
    requires RoomLog(log) && k <= |log| && cursor <= |log| && Gapless(cursor, spans, |log|)
    requires cursor <= k || TurnPicture(log, turn, k) == TurnPicture(log, turn, cursor)
    requires Reached(cursor, spans) >= k
    ensures cursor <= Reached(cursor, spans) <= |log|
    ensures ShowsReached(log, turn, k, cursor, spans)
  {
    var h := Reached(cursor, spans);
    StreamAppliesOnce(Restored(SnapshotCanvas(log, k, turn)), log, spans, turn, cursor);
    if cursor <= k {
      CaughtUp(log, turn, k, cursor, h);
    } else {
      CaughtBehind(log, turn, k, cursor, h);
      PictureOn(log, turn, cursor, h);
    }
  }

  /** However the stream goes on, the board shows the turn's events reached. */
  ghost predicate AlwaysShowsReached(log: seq<Event>, turn: int, k: nat, cursor: nat)
    requires k <= |log| && cursor <= |log|
  {
    forall spans: seq<Span> :: Gapless(cursor, spans, |log|) ==>
      cursor <= Reached(cursor, spans) <= |log| && ShowsReached(log, turn, k, cursor, spans)
  }

  /**
   A snapshot older than the cursor is right for every stream from there on exactly when
   it shows what the turn shows at the cursor; the gap may then hold what it likes.
   */
  lemma {:induction false} StaleSnapshotIff(log: seq<Event>, turn: int, k: nat, cursor: nat)
    requires RoomLog(log) && k <= cursor <= |log|
    ensures AlwaysShowsReached(log, turn, k, cursor) <==> TurnPicture(log, turn, k) == TurnPicture(log, turn, cursor)
    ensures TurnPicture(log, turn, cursor) == Replay(TurnPicture(log, turn, k), TurnOps(log, turn, k, cursor))
  {
    PictureOn(log, turn, k, cursor);
    if TurnPicture(log, turn, k) == TurnPicture(log, turn, cursor) {
      forall spans: seq<Span> | Gapless(cursor, spans, |log|)
        ensures cursor <= Reached(cursor, spans) <= |log| && ShowsReached(log, turn, k, cursor, spans)
      {
        ReachedFits(cursor, spans, |log|);
        ExactlyOnce(log, turn, k, cursor, spans);
      }
    }
    if AlwaysShowsReached(log, turn, k, cursor) {
      assert Gapless(cursor, [], |log|) && ShowsReached(log, turn, k, cursor, []);
      SnapshotFaithful(TurnEvents(log[..k], turn));
    }
  }

  /** What the stream redoes of a snapshot's own events is a tail of them, above the canvas. */
  lemma {:induction false} RedoneIsTail(log: seq<Event>, turn: int, k: nat, cursor: nat)
    requires RoomLog(log) && cursor <= k <= |log|
    ensures var all, floor := TurnEvents(log[..k], turn), MaxSeq(SnapshotCanvas(log, k, turn));
      var redone := Fresh(log[cursor..k], turn, floor);
      && |redone| <= |all| && all[|all| - |redone|..] == redone
      && forall e :: e in redone ==> e.seqNo > floor
  {
    var floor := MaxSeq(SnapshotCanvas(log, k, turn));
    var bar := if cursor > 0 && log[cursor - 1].seqNo > floor then log[cursor - 1].seqNo else floor;
    FreshAtBar(log, turn, cursor, k, floor, bar);
    SliceOfRoomLog(log, 0, k);
    assert log[0..k] == log[..k];
    FreshIsTail(log[..k], turn, bar);
    FreshMembers(log[cursor..k], turn, floor);
  }

  lemma FreshAtBar(log: seq<Event>, turn: int, cursor: nat, k: nat, floor: nat, bar: nat)
    requires RoomLog(log) && cursor <= k <= |log| && bar >= floor
    requires bar == if cursor > 0 && log[cursor - 1].seqNo > floor then log[cursor - 1].seqNo else floor
    ensures Fresh(log[..k], turn, bar) == Fresh(log[cursor..k], turn, floor)
  {
    assert log[..k] == log[..cursor] + log[cursor..k];
    FreshAppend(log[..cursor], log[cursor..k], turn, bar);
    FreshNone(log[..cursor], turn, bar);
    FreshSame(log[cursor..k], turn, bar, floor);
  }

  lemma {:induction false} BeyondIsNew(log: seq<Event>, turn: int, k: nat, a: nat, h: nat)
    requires RoomLog(log) && k <= a <= h <= |log|
    ensures Fresh(log[a..h], turn, MaxSeq(SnapshotCanvas(log, k, turn))) == TurnEvents(log[a..h], turn)
  {
    var canvas := SnapshotCanvas(log, k, turn);
    SurvivingMembers(TurnEvents(log[..k], turn));
    FreshMembers(log[..k], turn, 0);
    MaxSeqFromMember(canvas);
    FreshSame(log[a..h], turn, MaxSeq(canvas), 0);
  }

  lemma {:induction false} MaxSeqFromMember(events: seq<Event>)
    ensures MaxSeq(events) == 0 || exists e :: e in events && e.seqNo == MaxSeq(events)
  {
    if events != [] {
      MaxSeqFromMember(events[..|events| - 1]);
      assert events == events[..|events| - 1] + [events[|events| - 1]];
    }
  }

  /** The numbers a stream applies strictly increase, starting above the restored board's. */
  lemma {:induction false} AppliedNumbersIncrease(log: seq<Event>, turn: int, floor: nat, cursor: nat, reached: nat)
    requires RoomLog(log) && cursor <= reached <= |log|
    ensures var applied := Fresh(log[cursor..reached], turn, floor);
      && (forall i :: 0 <= i < |applied| ==> applied[i].seqNo > floor)
      && (forall i, j :: 0 <= i < j < |applied| ==> applied[i].seqNo < applied[j].seqNo)
  {
    AdmittedIsFresh(log[cursor..reached], turn, floor);
    AdmittedIncrease(log[cursor..reached], turn, floor);
  }

  /**
   Behind such a snapshot a stroke keeps, for good or until the turn draws or removes it, begins
   it anew or removes it, what the gap should have changed: which strokes are right, and when.
   */
  lemma {:induction false} StrokeBehindIff(
    log: seq<Event>, turn: int, k: nat, cursor: nat, spans: seq<Span>, s: StrokeId)
    requires RoomLog(log) && k <= cursor <= |log| && Gapless(cursor, spans, |log|)
    ensures cursor <= Reached(cursor, spans) <= |log|
    ensures var h := Reached(cursor, spans);
      var mine := DeliverAll(Restored(SnapshotCanvas(log, k, turn)), log, spans, turn).shown;
      StrokeRightIff(mine, TurnPicture(log, turn, h),
                     TurnPicture(log, turn, k), TurnPicture(log, turn, cursor), TurnOps(log, turn, cursor, h), s)
  {
    var h := Reached(cursor, spans);
    StreamAppliesOnce(Restored(SnapshotCanvas(log, k, turn)), log, spans, turn, cursor);
    CaughtBehind(log, turn, k, cursor, h);
    ReplaysMeet(log, turn, k, cursor, h, s);
  }

  /** A stroke shown is right exactly as far as the earlier pictures agree on it, or the operations since renew it. */
  ghost predicate StrokeRightIff(
    mine: Picture, right: Picture, stale: Picture, current: Picture, since: seq<Operation>, s: StrokeId)
  {
    StyleRightIff(mine, right, stale, current, since, s) && PointsRightIff(mine, right, stale, current, since, s)
  }

  lemma ReplaysMeet(log: seq<Event>, turn: int, k: nat, cursor: nat, h: nat, s: StrokeId)
    requires k <= cursor <= h <= |log|
    ensures var stale, current, since :=
        TurnPicture(log, turn, k), TurnPicture(log, turn, cursor), TurnOps(log, turn, cursor, h);
      StrokeRightIff(Replay(stale, since), TurnPicture(log, turn, h), stale, current, since, s)
  {
    var stale, current, since :=
      TurnPicture(log, turn, k), TurnPicture(log, turn, cursor), TurnOps(log, turn, cursor, h);
    PictureOn(log, turn, cursor, h);
    StylesMeet(stale, current, since, s);
    PointsMeet(stale, current, since, s);
  }

  lemma NotDrawnFresh(events: seq<Event>, turn: int, floor: nat, s: StrokeId)
    requires forall i :: 0 <= i < |events| && events[i].turn == turn ==> !IsDraw(events[i].op, s)
    ensures !DrawsIn(Ops(Fresh(events, turn, floor)), s)
  {
    var kept := Fresh(events, turn, floor);
    FreshMembers(events, turn, floor);
    assert forall j :: 0 <= j < |kept| ==> kept[j] in kept && Ops(kept)[j] == kept[j].op;
  }

  /**
   A cursor past the snapshot: a stroke that the turn draws only between the two, and never
   removes, is missing from the board for good, however the stream goes on.
   */
  lemma {:induction false} SkippedIsLost(
    log: seq<Event>, turn: int, k: nat, cursor: nat, spans: seq<Span>, m: nat, s: StrokeId)
    requires RoomLog(log) && k <= m < cursor <= |log| && Gapless(cursor, spans, |log|)
    requires log[m].turn == turn && IsDraw(log[m].op, s)
    requires forall i :: 0 <= i < |log| && log[i].turn == turn && IsDraw(log[i].op, s) ==> k <= i < cursor
    requires forall i :: 0 <= i < |log| && log[i].turn == turn ==> !Removes(log[i].op, s)
    ensures cursor <= Reached(cursor, spans) <= |log|
    ensures s !in DeliverAll(Restored(SnapshotCanvas(log, k, turn)), log, spans, turn).shown.strokes
    ensures s in TurnPicture(log, turn, Reached(cursor, spans)).strokes
  {
    var v, h := Restored(SnapshotCanvas(log, k, turn)), Reached(cursor, spans);
    StreamAppliesOnce(v, log, spans, turn, cursor);
    SnapshotFaithful(TurnEvents(log[..k], turn));
    NotDrawnFresh(log[..k], turn, 0, s);
    NotDrawnNotShown(EMPTY_PICTURE, Ops(TurnEvents(log[..k], turn)), s);
    NotDrawnFresh(log[cursor..h], turn, v.lastSeq, s);
    NotDrawnNotShown(v.shown, Ops(Fresh(log[cursor..h], turn, v.lastSeq)), s);
    DrawnInTurn(log, turn, h, m, s);
  }

  lemma DrawnInTurn(log: seq<Event>, turn: int, h: nat, m: nat, s: StrokeId)
    requires RoomLog(log) && m < h <= |log| && log[m].turn == turn && IsDraw(log[m].op, s)
    requires forall i :: 0 <= i < |log| && log[i].turn == turn ==> !Removes(log[i].op, s)
    ensures s in TurnPicture(log, turn, h).strokes
  {
    var kept := TurnEvents(log[..h], turn);
    FreshMembers(log[..h], turn, 0);
    assert log[..h][m] == log[m] && log[m] in kept;
    var j :| 0 <= j < |kept| && kept[j] == log[m];
    assert IsDraw(Ops(kept)[j], s);
    forall i | 0 <= i < |kept| ensures !Removes(Ops(kept)[i], s) {
      assert kept[i] in kept && kept[i] in log[..h];
    }
    DrawnStays(EMPTY_PICTURE, Ops(kept), s);
  }

  /** A snapshot older than the stream's cursor loses the events between them for good. */
  lemma StaleSnapshotLosesStrokes(ink: Style, x: Point)
    ensures var log := [Event(1, 7, Draw(Begin, "a", [x], ink)), Event(2, 7, Draw(Begin, "b", [x], ink))];
      && RoomLog(log) && Gapless(1, [Span(1, 2)], |log|)
      && "a" !in DeliverAll(Restored(SnapshotCanvas(log, 0, 7)), log, [Span(1, 2)], 7).shown.strokes
      && "a" in Replay(EMPTY_PICTURE, Ops(TurnEvents(log, 7))).strokes
  {
    var log := [Event(1, 7, Draw(Begin, "a", [x], ink)), Event(2, 7, Draw(Begin, "b", [x], ink))];
    assert [Span(1, 2)][..0] == [];
    SkippedIsLost(log, 7, 0, 1, [Span(1, 2)], 0, "a");
    assert log[..2] == log;
  }

  /** The next event of the log, on the picture of those before it. */
  lemma NextEvent(log: seq<Event>, turn: int, k: nat)
    requires RoomLog(log) && k < |log|
    ensures TurnPicture(log, turn, k + 1)
         == if log[k].turn == turn then Applied(TurnPicture(log, turn, k), log[k].op) else TurnPicture(log, turn, k)
  {
    var kept := TurnEvents(log[..k], turn);
    assert log[..k + 1][..k] == log[..k];
    if log[k].turn == turn {
      OpsAppend(kept, [log[k]]);
      assert (Ops(kept) + [log[k].op])[..|kept|] == Ops(kept);
    }
  }
}
