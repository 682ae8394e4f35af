/**
 The page that holds a room: it keeps the last canvas a server answer gave it, follows
 the stream, and repaints its board from that canvas whenever it renders the room.
 */
module CanvasRoom {
  import opened CanvasReplay
  import opened CanvasConvergence
  import opened CanvasBoard
  import opened CanvasDelivery
  import opened Wrappers

  /**
   The canvas kept is the one after the first held events; the stream had reached since
   when it was painted last, and has reached the position reached now.
   */
  datatype Room = Room(held: nat, since: nat, reached: nat, viewer: Viewer)

  /**
   Slice: events from the stream. Update: a snapshot from the stream. Answer: a snapshot
   that answers a request of the page. Rerender: the room is shown again as it is kept.
   */
  datatype Move = Slice(span: Span) | Update(k: nat) | Answer(k: nat) | Rerender

  function Painted(log: seq<Event>, turn: int, k: nat): Viewer
    requires k <= |log|
  {
    Restored(SnapshotCanvas(log, k, turn))
  }

  /** Entering a room and a snapshot from the stream set the canvas and the stream's position together. */
  function Entered(log: seq<Event>, turn: int, k: nat): Room
    requires k <= |log|
  {
    Room(k, k, k, Painted(log, turn, k))
  }

  /** Only the board starts over; the stream goes on where it is. */
  function Repainted(log: seq<Event>, turn: int, k: nat, reached: nat): Room
    requires k <= |log|
  {
    Room(k, reached, reached, Painted(log, turn, k))
  }

  predicate Possible(room: Room, move: Move, log: seq<Event>) {
    match move
    case Slice(span) => room.since <= span.first <= room.reached && span.first <= span.end <= |log|
    case Update(k) => k <= |log|
    case Answer(k) => k <= |log|
    case Rerender => true
  }

  function AfterMove(room: Room, move: Move, log: seq<Event>, turn: int): Room
    requires Possible(room, move, log) && room.held <= |log|
  {
    match move
    case Slice(span) =>
      room.(reached := if span.end > room.reached then span.end else room.reached,
            viewer := Deliver(room.viewer, log[span.first..span.end], turn))
    case Update(k) => Entered(log, turn, k)
    case Answer(k) => Repainted(log, turn, k, room.reached)
    case Rerender => Repainted(log, turn, room.held, room.reached)
  }

  // ---------- The page itself ----------

  /** The room as the page keeps it, and its board. */
  class Page {
    const board: Board
    var turn: int
    var canvas: seq<Event>
    var cursor: nat

    ghost predicate Valid()
      reads this, board
    {
      board.Valid() && board.currentTurn == Some(turn)
    }

    ghost function View(): Viewer
      reads this, board
    {
      Viewer(board.Shown(), board.lastSeq)
    }

    constructor (board: Board, turn: int, canvas: seq<Event>, cursor: nat, drawing: bool)
      requires board.Valid()
      modifies board
      ensures Valid() && View() == Restored(canvas) && this.board == board
      ensures this.turn == turn && this.canvas == canvas && this.cursor == cursor && board.editable == drawing
    {
      this.board := board;
      this.turn, this.canvas, this.cursor := turn, canvas, cursor;
      new;
      RenderPlay(drawing);
    }

    /** Paints the board from the canvas kept, whatever the stream has brought since. */
    method RenderPlay(drawing: bool)
      requires board.Valid()
      modifies board
      ensures Valid() && View() == Restored(canvas) && board.editable == drawing
    {
      board.SetEditable(drawing);
      board.Restore(turn, canvas);
    }

    /** A snapshot, from the stream or as an answer: it is kept, and painted. */
    method SetRoom(turn: int, canvas: seq<Event>, cursor: nat, drawing: bool)
      requires board.Valid()
      modifies this, board
      ensures Valid() && View() == Restored(canvas) && board.editable == drawing
      ensures this.turn == turn && this.canvas == canvas && this.cursor == cursor
    {
      this.turn, this.canvas, this.cursor := turn, canvas, cursor;
      RenderPlay(drawing);
    }

    /** Events from the stream move the cursor and the board, and leave the canvas kept as it is. */
    method OnEvents(events: seq<Event>, cursor: nat)
      requires Valid()
      modifies this`cursor, board
      ensures Valid() && View() == Deliver(old(View()), events, turn) && this.cursor == cursor
    {
      this.cursor := cursor;
      board.ApplyEvents(events, turn);
    }
  }

  // ---------- What the board shows ----------

  /** The board is the canvas kept, with what the stream brought since it was painted. */
  ghost predicate Tracked(room: Room, log: seq<Event>, turn: int) {
    && RoomLog(log) && room.held <= |log| && room.since <= room.reached <= |log|
    && room.viewer == Caught(Painted(log, turn, room.held), log, turn, room.since, room.reached)
  }

  lemma JustPainted(log: seq<Event>, turn: int, k: nat, reached: nat)
    requires RoomLog(log) && k <= |log| && reached <= |log|
    ensures Tracked(Repainted(log, turn, k, reached), log, turn)
    ensures Painted(log, turn, k).shown == TurnPicture(log, turn, k)
  {
    assert log[reached..reached] == [];
    SnapshotFaithful(TurnEvents(log[..k], turn));
  }

  lemma TrackedStep(room: Room, move: Move, log: seq<Event>, turn: int)
    requires Tracked(room, log, turn) && Possible(room, move, log)
    ensures Tracked(AfterMove(room, move, log, turn), log, turn)
  {
    match move {
      case Slice(span) => CaughtStep(Painted(log, turn, room.held), log, turn, room.since, room.reached, span);
      case Update(k) => JustPainted(log, turn, k, k);
      case Answer(k) => JustPainted(log, turn, k, room.reached);
      case Rerender => JustPainted(log, turn, room.held, room.reached);
    }
  }

  // ---------- Runs ----------

  datatype Run = Run(log: seq<Event>, turn: int, rooms: seq<Room>, moves: seq<Move>)

  ghost predicate IsRun(r: Run) {
    && RoomLog(r.log) && |r.rooms| == |r.moves| + 1
    && (exists k :: 0 <= k <= |r.log| && r.rooms[0] == Entered(r.log, r.turn, k))
    && forall i :: 0 <= i < |r.moves| ==> StepAt(r, i)
  }

  predicate StepAt(r: Run, i: nat)
    requires i < |r.moves| < |r.rooms|
  {
    && r.rooms[i].held <= |r.log| && Possible(r.rooms[i], r.moves[i], r.log)
    && r.rooms[i + 1] == AfterMove(r.rooms[i], r.moves[i], r.log, r.turn)
  }

  lemma {:induction false} RoomTracked(r: Run, i: nat)
    requires IsRun(r) && i < |r.rooms|
    ensures Tracked(r.rooms[i], r.log, r.turn)
  {
    if i == 0 {
      var k :| 0 <= k <= |r.log| && r.rooms[0] == Entered(r.log, r.turn, k);
      JustPainted(r.log, r.turn, k, k);
    } else {
      RoomTracked(r, i - 1);
      assert StepAt(r, i - 1);
      TrackedStep(r.rooms[i - 1], r.moves[i - 1], r.log, r.turn);
    }
  }

  /** Unless the canvas is ahead of the stream, the board shows the turn's events that the stream has reached. */
  ghost predicate Right(room: Room, log: seq<Event>, turn: int)
    requires room.reached <= |log|
  {
    room.held <= room.reached ==> room.viewer.shown == TurnPicture(log, turn, room.reached)
  }

  /** The room is painted from a canvas that no longer shows what the turn shows where the stream is. */
  predicate PaintsStale(room: Room, move: Move, log: seq<Event>, turn: int)
    requires Possible(room, move, log) && room.held <= |log| && room.reached <= |log|
  {
    var k := if move.Answer? then move.k else room.held;
    && (move.Answer? || move.Rerender?)
    && k <= room.reached && TurnPicture(log, turn, k) != TurnPicture(log, turn, room.reached)
  }

  /** The canvas kept was, when it was painted, ahead of the stream or as good as new. */
  ghost predicate Sound(room: Room, log: seq<Event>, turn: int)
    requires room.held <= |log| && room.since <= |log|
  {
    room.held < room.since ==> TurnPicture(log, turn, room.held) == TurnPicture(log, turn, room.since)
  }

  lemma SoundIsRight(room: Room, log: seq<Event>, turn: int)
    requires Tracked(room, log, turn) && Sound(room, log, turn)
    ensures Right(room, log, turn)
  {
    if room.held < room.since {
      CaughtBehind(log, turn, room.held, room.since, room.reached);
      PictureOn(log, turn, room.since, room.reached);
    } else if room.held <= room.reached {
      CaughtUp(log, turn, room.held, room.since, room.reached);
    }
  }

  lemma SoundStep(room: Room, move: Move, log: seq<Event>, turn: int)
    requires Tracked(room, log, turn) && Possible(room, move, log) && Sound(room, log, turn)
    requires !PaintsStale(room, move, log, turn)
    ensures Tracked(AfterMove(room, move, log, turn), log, turn) && Sound(AfterMove(room, move, log, turn), log, turn)
  {
    TrackedStep(room, move, log, turn);
  }

  lemma {:induction false} SoundWhileFresh(r: Run, i: nat)
    requires IsRun(r) && i < |r.rooms| && NothingStale(r, i)
    ensures Tracked(r.rooms[i], r.log, r.turn) && Sound(r.rooms[i], r.log, r.turn)
  {
    RoomTracked(r, i);
    if i > 0 {
      SoundWhileFresh(r, i - 1);
      assert StepAt(r, i - 1) && !StaleAt(r, i - 1);
      SoundStep(r.rooms[i - 1], r.moves[i - 1], r.log, r.turn);
    }
  }

  ghost predicate StaleAt(r: Run, m: nat)
    requires m < |r.moves| < |r.rooms| && StepAt(r, m)
  {
    r.rooms[m].reached <= |r.log| && PaintsStale(r.rooms[m], r.moves[m], r.log, r.turn)
  }

  /** None of the first i moves paints from a stale canvas. */
  ghost predicate NothingStale(r: Run, i: nat)
    requires IsRun(r) && i < |r.rooms|
  {
    forall m :: 0 <= m < i ==> !StaleAt(r, m)
  }

  ghost predicate RightAt(r: Run, j: nat)
    requires j < |r.rooms|
  {
    r.rooms[j].reached <= |r.log| && Right(r.rooms[j], r.log, r.turn)
  }

  lemma StalePaintShows(room: Room, move: Move, log: seq<Event>, turn: int)
    requires Tracked(room, log, turn) && Possible(room, move, log) && PaintsStale(room, move, log, turn)
    ensures AfterMove(room, move, log, turn).reached <= |log| && !Right(AfterMove(room, move, log, turn), log, turn)
  {
    var k := if move.Answer? then move.k else room.held;
    JustPainted(log, turn, k, room.reached);
  }

  /** The board is right all along exactly when no move paints it from a stale canvas. */
  lemma {:induction false} RightIff(r: Run, i: nat)
    requires IsRun(r) && i < |r.rooms|
    ensures (forall j :: 0 <= j <= i ==> RightAt(r, j)) <==> NothingStale(r, i)
  {
    if NothingStale(r, i) {
      forall j | 0 <= j <= i ensures RightAt(r, j) {
        SoundWhileFresh(r, j);
        SoundIsRight(r.rooms[j], r.log, r.turn);
      }
    } else {
      var m :| 0 <= m < i && StaleAt(r, m);
      RoomTracked(r, m);
      assert StepAt(r, m);
      StalePaintShows(r.rooms[m], r.moves[m], r.log, r.turn);
      assert !RightAt(r, m + 1);
    }
  }

  /**
   Behind a stale canvas, which strokes are right at any later moment: those that it showed right
   when it was painted, and those that the stream has renewed since.
   */
  lemma {:induction false} StaleStrokes(r: Run, i: nat, s: StrokeId)
    requires IsRun(r) && i < |r.rooms| && r.rooms[i].held <= r.rooms[i].since
    ensures r.rooms[i].since <= r.rooms[i].reached <= |r.log|
    ensures var room := r.rooms[i];
      StrokeRightIff(
        room.viewer.shown, TurnPicture(r.log, r.turn, room.reached),
        TurnPicture(r.log, r.turn, room.held), TurnPicture(r.log, r.turn, room.since),
        TurnOps(r.log, r.turn, room.since, room.reached), s)
  {
    var room := r.rooms[i];
    RoomTracked(r, i);
    CaughtBehind(r.log, r.turn, room.held, room.since, room.reached);
    ReplaysMeet(r.log, r.turn, room.held, room.since, room.reached, s);
  }

  // ---------- A refused chat message ----------

  /**
   The page keeps the canvas of the first event and has followed the second, a point. A chat
   message is refused; the room is rendered again, and the point is gone.
   */
  lemma RefusedChatLosesInk(ink: Style, x: Point, y: Point)
    ensures var down, along := Draw(Begin, "a", [x], ink), Draw(Append, "a", [y], ink);
      var log := [Event(1, 7, down), Event(2, 7, along)];
      var r := Run(log, 7, RefusedChatRooms(log), [Slice(Span(1, 2)), Rerender]);
      && IsRun(r) && StaleAt(r, 1)
      && PointsOf(r.rooms[1].viewer.shown, "a") == [x, y]
      && PointsOf(r.rooms[2].viewer.shown, "a") == [x]
  {
    var down, along := Draw(Begin, "a", [x], ink), Draw(Append, "a", [y], ink);
    var log := [Event(1, 7, down), Event(2, 7, along)];
    var r := Run(log, 7, RefusedChatRooms(log), [Slice(Span(1, 2)), Rerender]);
    assert r.rooms[0] == Entered(log, 7, 1) && StepAt(r, 0) && StepAt(r, 1);
    RefusedChatPictures(log, x, y);
    RoomTracked(r, 1);
    CaughtUp(log, 7, 1, 1, 2);
    JustPainted(log, 7, 1, 2);
  }

  function RefusedChatRooms(log: seq<Event>): seq<Room>
    requires |log| == 2
  {
    var entered := Entered(log, 7, 1);
    var followed := AfterMove(entered, Slice(Span(1, 2)), log, 7);
    [entered, followed, AfterMove(followed, Rerender, log, 7)]
  }

  lemma RefusedChatPictures(log: seq<Event>, x: Point, y: Point)
    requires RoomLog(log) && |log| == 2 && log[0].turn == 7 && log[1].turn == 7
    requires IsBegin(log[0].op, "a") && IsDraw(log[1].op, "a") && log[1].op.kind == Append
    requires log[0].op.points == [x] && log[1].op.points == [y]
    ensures PointsOf(TurnPicture(log, 7, 1), "a") == [x]
    ensures PointsOf(TurnPicture(log, 7, 2), "a") == [x, y]
  {
    FirstPicture(log, x);
    NextEvent(log, 7, 1);
    SecondPoint(TurnPicture(log, 7, 1), log[1].op, x, y);
  }

  lemma SecondPoint(p: Picture, op: Operation, x: Point, y: Point)
    requires PointsOf(p, "a") == [x] && IsDraw(op, "a") && op.kind == Append && op.points == [y]
    ensures PointsOf(Applied(p, op), "a") == [x, y]
  {
    PointsAfter(p, op, "a");
    assert [x] + [y] == [x, y];
  }

  lemma FirstPicture(log: seq<Event>, x: Point)
    requires RoomLog(log) && |log| == 2 && log[0].turn == 7 && IsBegin(log[0].op, "a") && log[0].op.points == [x]
    ensures PointsOf(TurnPicture(log, 7, 1), "a") == [x]
  {
    NextEvent(log, 7, 0);
    PointsAfter(TurnPicture(log, 7, 0), log[0].op, "a");
  }
}
