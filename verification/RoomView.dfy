/**
 The state a Mistrealm client shows: snapshots reach it by polling and by the
 event stream, in any order, and it keeps the newest of the room it follows.
 */
module RoomView {
  import opened Wrappers

  datatype Snapshot = Snapshot(room: string, version: int, body: string)

  datatype View = View(roomId: Option<string>, state: Option<Snapshot>)

  datatype Event = Follow(room: string) | Arrives(value: Snapshot)

  predicate Shows(view: View, room: string) {
    view.state.Some? && view.state.value.room == room
  }

  predicate Accepts(view: View, value: Snapshot) {
    && view.roomId == Some(value.room)
    && !(Shows(view, value.room) && view.state.value.version > value.version)
  }

  function AfterEvent(view: View, event: Event): View {
    match event
    case Follow(room) => view.(roomId := Some(room))
    case Arrives(value) => if Accepts(view, value) then view.(state := Some(value)) else view
  }

  class Client {
    var roomId: Option<string>
    var state: Option<Snapshot>

    constructor ()
      ensures Now() == View(None, None)
    {
      roomId, state := None, None;
    }

    function Now(): View
      reads this
    {
      View(roomId, state)
    }

    method FollowRoom(room: string)
      modifies this
      ensures Now() == AfterEvent(old(Now()), Follow(room))
      ensures roomId == Some(room) && state == old(state)
    {
      roomId := Some(room);
    }

    method Accept(value: Snapshot) returns (ok: bool)
      modifies this
      ensures Now() == AfterEvent(old(Now()), Arrives(value)) && ok == Accepts(old(Now()), value)
      ensures roomId == old(roomId) && state == if ok then Some(value) else old(state)
      ensures ok <==>
        && roomId == Some(value.room)
        && (old(state).Some? && old(state).value.room == value.room ==> old(state).value.version <= value.version)
    {
      if roomId.None? || value.room != roomId.value {
        return false;
      }
      if state.Some? && state.value.room == value.room && state.value.version > value.version {
        return false;
      }
      state := Some(value);
      return true;
    }
  }

  function Run(view: View, events: seq<Event>): View {
    if events == [] then view else AfterEvent(Run(view, events[..|events| - 1]), events[|events| - 1])
  }

  /** The snapshots that arrive, of whatever room. */
  function Offers(events: seq<Event>): seq<Snapshot> {
    if events == [] then []
    else
      var before, last := Offers(events[..|events| - 1]), events[|events| - 1];
      if last.Arrives? then before + [last.value] else before
  }

  /** The position of a room's highest version, the last one of equals; -1 if there is none. */
  function Newest(offers: seq<Snapshot>, room: string): (n: int)
    ensures -1 <= n < |offers|
    ensures n == -1 <==> forall i :: 0 <= i < |offers| ==> offers[i].room != room
    ensures n >= 0 ==> offers[n].room == room
    ensures n >= 0 ==>
      forall i :: 0 <= i < |offers| && offers[i].room == room ==> offers[i].version <= offers[n].version
    ensures n >= 0 ==> forall i :: n < i < |offers| && offers[i].room == room ==> offers[i].version < offers[n].version
  {
    if offers == [] then -1
    else
      var front, last := offers[..|offers| - 1], offers[|offers| - 1];
      var n := Newest(front, room);
      if last.room == room && (n == -1 || offers[n].version <= last.version) then |offers| - 1 else n
  }

  /** What counts as offered for a room: what is already shown of it, then what arrives. */
  function Candidates(view: View, events: seq<Event>, room: string): seq<Snapshot> {
    (if Shows(view, room) then [view.state.value] else []) + Offers(events)
  }

  /** The newest of the candidates, or the view as it is when there is none. */
  function NewestView(view: View, candidates: seq<Snapshot>, room: string): View {
    var n := Newest(candidates, room);
    if n == -1 then view else View(Some(room), Some(candidates[n]))
  }

  lemma NewestSnoc(view: View, candidates: seq<Snapshot>, value: Snapshot, room: string)
    requires view.roomId == Some(room) && (Shows(view, room) ==> view.state.value in candidates)
    ensures NewestView(view, candidates + [value], room)
         == AfterEvent(NewestView(view, candidates, room), Arrives(value))
  {
    assert (candidates + [value])[..|candidates|] == candidates;
  }

  /**
   While one room is followed, the client shows its newest snapshot, in whatever
   order polls and stream deliver them; otherwise what it showed before.
   */
  lemma {:induction false} ShowsNewest(view: View, events: seq<Event>, room: string)
    requires view.roomId == Some(room) && forall i :: 0 <= i < |events| ==> events[i].Arrives?
    ensures Run(view, events) == NewestView(view, Candidates(view, events, room), room)
  {
    if events == [] {
      if Shows(view, room) {
        assert Candidates(view, events, room) == [view.state.value];
        assert Newest([view.state.value], room) == 0;
      }
    } else {
      var front, last := events[..|events| - 1], events[|events| - 1];
      ShowsNewest(view, front, room);
      assert Candidates(view, events, room) == Candidates(view, front, room) + [last.value];
      assert Shows(view, room) ==> Candidates(view, front, room)[0] == view.state.value;
      NewestSnoc(view, Candidates(view, front, room), last.value, room);
    }
  }

  // ---------- Runs through several rooms ----------

  /** The client shows some version of the room after the first n events. */
  predicate ShowsAt(view: View, events: seq<Event>, n: nat, room: string)
    requires n <= |events|
  {
    Shows(Run(view, events[..n]), room)
  }

  function VersionAt(view: View, events: seq<Event>, n: nat, room: string): int
    requires n <= |events| && ShowsAt(view, events, n, room)
  {
    Run(view, events[..n]).state.value.version
  }

  /** The m-th event is a snapshot of another room that the client accepts. */
  predicate TurnsAway(view: View, events: seq<Event>, m: nat, room: string)
    requires m < |events|
  {
    events[m].Arrives? && events[m].value.room != room && Accepts(Run(view, events[..m]), events[m].value)
  }

  /** Until a snapshot of another room is accepted, the room stays shown and its version does not go down. */
  lemma {:induction false} NeverDown(view: View, events: seq<Event>, i: nat, j: nat, room: string)
    requires i <= j <= |events| && ShowsAt(view, events, i, room)
    requires forall m :: i <= m < j ==> !TurnsAway(view, events, m, room)
    ensures ShowsAt(view, events, j, room)
    ensures VersionAt(view, events, i, room) <= VersionAt(view, events, j, room)
  {
    if i < j {
      NeverDown(view, events, i, j - 1, room);
      assert events[..j][..j - 1] == events[..j - 1];
      assert !TurnsAway(view, events, j - 1, room);
    }
  }

  /** In any run the version shown of a room goes down only by way of another room's snapshot. */
  lemma {:induction false} DownOnlyThroughAnother(view: View, events: seq<Event>, i: nat, j: nat, room: string)
    requires i <= j <= |events| && ShowsAt(view, events, i, room) && ShowsAt(view, events, j, room)
    requires VersionAt(view, events, j, room) < VersionAt(view, events, i, room)
    ensures exists m :: i <= m < j && TurnsAway(view, events, m, room)
  {
    if forall m :: i <= m < j ==> !TurnsAway(view, events, m, room) {
      NeverDown(view, events, i, j, room);
    }
  }

  /** After that, following the room again, the client shows any version of it that arrives. */
  lemma {:induction false} AnyVersionAfterAnother(view: View, events: seq<Event>, m: nat, value: Snapshot)
    requires m < |events| && TurnsAway(view, events, m, value.room)
    ensures var back := events[..m + 1] + [Follow(value.room)] + [Arrives(value)];
      Run(view, back).state == Some(value)
  {
    assert events[..m + 1] == events[..m] + [events[m]];
    RunSnoc(view, events[..m], events[m]);
    RunSnoc(view, events[..m + 1], Follow(value.room));
    RunSnoc(view, events[..m + 1] + [Follow(value.room)], Arrives(value));
  }

  lemma RunSnoc(view: View, events: seq<Event>, event: Event)
    ensures Run(view, events + [event]) == AfterEvent(Run(view, events), event)
  {
    assert (events + [event])[..|events|] == events;
  }

  /** Leaving a room and coming back, the client can show an older version than it did before. */
  lemma ReturningGoesBack(a: Snapshot, older: Snapshot, b: Snapshot)
    requires a.room == older.room != b.room && older.version < a.version
    ensures var start := View(Some(a.room), Some(a));
      var back := Run(start, [Follow(b.room), Arrives(b), Follow(a.room), Arrives(older)]);
      && Run(start, [Arrives(older)]).state == Some(a)
      && back.state == Some(older)
  {
    var start := View(Some(a.room), Some(a));
    var events := [Follow(b.room), Arrives(b), Follow(a.room), Arrives(older)];
    assert events[..3][..2] == events[..2] && events[..2][..1] == events[..1] && events[..1][..0] == [];
    assert Run(start, events[..1]) == start.(roomId := Some(b.room));
    assert Run(start, events[..2]) == View(Some(b.room), Some(b));
    assert Run(start, events[..3]) == View(Some(a.room), Some(b));
    assert [Arrives(older)][..0] == [];
  }
}
