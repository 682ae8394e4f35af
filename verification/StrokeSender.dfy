/**
 Sending batches of drawing operations: three attempts under one request id,
 against a server that keeps a receipt for every request it has handled.
 */
module StrokeSender {
  import opened CanvasReplay
  import opened Wrappers

  type RequestId = string

  const ATTEMPTS := 3

  /** What the network makes of one attempt. */
  datatype Delivery = Answered | AnswerLost | RequestLost

  /** An attempt; whether the server admits it depends on the turn, the drawer and the point limit then. */
  datatype Attempt = Attempt(delivery: Delivery, admitted: bool)

  datatype Receipt = Receipt(id: RequestId, batch: seq<Operation>)

  datatype Reply = Accepted | Failed | Blocked

  /** Some attempt reaches the server while it admits the batch. */
  predicate Handled(attempts: seq<Attempt>) {
    exists i :: 0 <= i < |attempts| && !attempts[i].delivery.RequestLost? && attempts[i].admitted
  }

  /** Some attempt is answered when it or an earlier one has been handled. */
  predicate Succeeds(attempts: seq<Attempt>) {
    exists i :: 0 <= i < |attempts| && attempts[i].delivery.Answered? && Handled(attempts[..i + 1])
  }

  lemma HandledSnoc(attempts: seq<Attempt>, n: nat)
    requires n < |attempts|
    ensures Handled(attempts[..n + 1]) <==>
      Handled(attempts[..n]) || (!attempts[n].delivery.RequestLost? && attempts[n].admitted)
    ensures Handled(attempts[..n + 1]) ==> Handled(attempts)
  {
    if Handled(attempts[..n]) {
      var i :| 0 <= i < n && !attempts[..n][i].delivery.RequestLost? && attempts[..n][i].admitted;
      assert attempts[..n + 1][i] == attempts[i];
    }
    assert attempts[..n + 1][n] == attempts[n];
  }

  /** The server side: every handled request once, in the order of handling. */
  class StrokeServer {
    var receipts: seq<Receipt>

    constructor ()
      ensures receipts == []
    {
      receipts := [];
    }

    ghost predicate OncePerRequest()
      reads this
    {
      forall i, j :: 0 <= i < j < |receipts| ==> receipts[i].id != receipts[j].id
    }

    predicate Knows(id: RequestId)
      reads this
    {
      exists i :: 0 <= i < |receipts| && receipts[i].id == id
    }

    /** A repeated request id is answered from its receipt, whatever the room admits now. */
    method Handle(id: RequestId, batch: seq<Operation>, admitted: bool) returns (ok: bool)
      requires OncePerRequest()
      modifies this
      ensures OncePerRequest() && (Knows(id) <==> old(Knows(id)) || admitted)
      ensures !old(Knows(id)) ==> ok == admitted
      ensures !old(Knows(id)) ==> receipts == old(receipts) + if admitted then [Receipt(id, batch)] else []
      ensures old(Knows(id)) ==> receipts == old(receipts) && (ok <==> Receipt(id, batch) in receipts)
    {
      for i := 0 to |receipts|
        invariant receipts == old(receipts) && forall k :: 0 <= k < i ==> receipts[k].id != id
      {
        if receipts[i].id == id {
          ok := receipts[i].batch == batch;
          if ok {
            assert receipts[i] == Receipt(id, batch);
          }
          return;
        }
      }
      assert !Knows(id);
      if !admitted {
        return false;
      }
      receipts := receipts + [Receipt(id, batch)];
      assert receipts[|receipts| - 1].id == id;
      ok := true;
    }
  }

  // ---------- One send after another ----------

  datatype Call = Send(batch: seq<Operation>, attempts: seq<Attempt>) | Snapshot

  /** The batches the server applied, and the block, since the last snapshot. */
  datatype Line = Line(applied: seq<seq<Operation>>, blocked: bool)

  /** The contract of Strokes and Snapshot on that state. */
  ghost function AfterCall(line: Line, call: Call): Line {
    match call
    case Snapshot => Line([], false)
    case Send(batch, attempts) =>
      if line.blocked then line
      else Line(line.applied + (if Handled(attempts) then [batch] else []), !Succeeds(attempts))
  }

  ghost function AfterCalls(calls: seq<Call>): Line {
    if calls == [] then Line([], false) else AfterCall(AfterCalls(calls[..|calls| - 1]), calls[|calls| - 1])
  }

  lemma AfterCallsSnoc(calls: seq<Call>, call: Call)
    ensures AfterCalls(calls + [call]) == AfterCall(AfterCalls(calls), call)
  {
    assert (calls + [call])[..|calls|] == calls;
  }

  /** The batches submitted since the last snapshot. */
  function Submitted(calls: seq<Call>): seq<seq<Operation>> {
    if calls == [] then []
    else
      var before, call := Submitted(calls[..|calls| - 1]), calls[|calls| - 1];
      if call.Snapshot? then [] else before + [call.batch]
  }

  /**
   Sends that wait for each other: what the server applied since the last snapshot
   is a prefix of what was submitted since, and all of it while nothing failed.
   */
  lemma {:induction false} AppliedIsPrefix(calls: seq<Call>)
    ensures var line := AfterCalls(calls);
      && line.applied <= Submitted(calls)
      && (!line.blocked ==> line.applied == Submitted(calls))
  {
    if calls != [] {
      AppliedIsPrefix(calls[..|calls| - 1]);
    }
  }

  function Batches(receipts: seq<Receipt>): seq<seq<Operation>> {
    seq(|receipts|, i requires 0 <= i < |receipts| => receipts[i].batch)
  }

  class StrokeClient {
    var strokesBlocked: bool
    const server: StrokeServer
    /** The calls made so far, and the server's receipts at the last snapshot. */
    ghost var calls: seq<Call>
    ghost var base: nat

    ghost predicate Valid()
      reads this, server
    {
      && server.OncePerRequest()
      && base <= |server.receipts|
      && AfterCalls(calls) == Line(Batches(server.receipts[base..]), strokesBlocked)
    }

    constructor (server: StrokeServer)
      requires server.OncePerRequest()
      ensures Valid() && this.server == server && !strokesBlocked && calls == []
    {
      this.server := server;
      strokesBlocked, calls, base := false, [], |server.receipts|;
    }

    /** Up to three attempts under one fresh request id; three failures block the client. */
    method Strokes(id: RequestId, batch: seq<Operation>, attempts: seq<Attempt>) returns (reply: Reply)
      requires Valid() && !server.Knows(id) && |attempts| == 3
      modifies this, server
      ensures Valid() && calls == old(calls) + [Send(batch, attempts)] && base == old(base)
      ensures old(strokesBlocked) ==> reply == Blocked && server.receipts == old(server.receipts)
      ensures !old(strokesBlocked) ==>
        && reply == (if Succeeds(attempts) then Accepted else Failed)
        && strokesBlocked == reply.Failed?
        && server.receipts == old(server.receipts) + if Handled(attempts) then [Receipt(id, batch)] else []
    {
      if strokesBlocked {
        AfterCallsSnoc(calls, Send(batch, attempts));
        calls := calls + [Send(batch, attempts)];
        return Blocked;
      }
      AfterSend(calls, attempts, server.receipts, base, Receipt(id, batch));
      calls := calls + [Send(batch, attempts)];
      var ok := TryThrice(id, batch, attempts);
      if ok {
        return Accepted;
      }
      strokesBlocked := true;
      return Failed;
    }

    /** The retry loop: every attempt carries the same request id. */
    method TryThrice(id: RequestId, batch: seq<Operation>, attempts: seq<Attempt>) returns (ok: bool)
      requires server.OncePerRequest() && !server.Knows(id) && |attempts| == 3
      modifies server
      ensures server.OncePerRequest() && (ok <==> Succeeds(attempts))
      ensures server.receipts == old(server.receipts) + if Handled(attempts) then [Receipt(id, batch)] else []
    {
      for n := 0 to ATTEMPTS
        invariant server.OncePerRequest()
        invariant forall i :: 0 <= i < n ==> !(attempts[i].delivery.Answered? && Handled(attempts[..i + 1]))
        invariant server.Knows(id) <==> Handled(attempts[..n])
        invariant server.receipts
               == old(server.receipts) + if Handled(attempts[..n]) then [Receipt(id, batch)] else []
      {
        HandledSnoc(attempts, n);
        if attempts[n].delivery != RequestLost {
          var answer := server.Handle(id, batch, attempts[n].admitted);
          if attempts[n].delivery == Answered && answer {
            return true;
          }
        }
      }
      assert attempts[..ATTEMPTS] == attempts;
      return false;
    }

    /** Reading the room again lifts the block. */
    method Snapshot()
      requires Valid()
      modifies this
      ensures Valid() && !strokesBlocked && calls == old(calls) + [Call.Snapshot] && base == |server.receipts|
    {
      AfterCallsSnoc(calls, Call.Snapshot);
      strokesBlocked, calls, base := false, calls + [Call.Snapshot], |server.receipts|;
    }
  }

  /** What a send that is not blocked adds to the calls and to the receipts. */
  lemma AfterSend(calls: seq<Call>, attempts: seq<Attempt>, receipts: seq<Receipt>, base: nat, receipt: Receipt)
    requires base <= |receipts| && AfterCalls(calls) == Line(Batches(receipts[base..]), false)
    ensures var later := receipts + if Handled(attempts) then [receipt] else [];
      AfterCalls(calls + [Send(receipt.batch, attempts)]) == Line(Batches(later[base..]), !Succeeds(attempts))
  {
    AfterCallsSnoc(calls, Send(receipt.batch, attempts));
    if Handled(attempts) {
      BatchesSnoc(receipts, base, receipt);
    } else {
      assert receipts + [] == receipts;
    }
  }

  lemma BatchesSnoc(receipts: seq<Receipt>, base: nat, receipt: Receipt)
    requires base <= |receipts|
    ensures Batches((receipts + [receipt])[base..]) == Batches(receipts[base..]) + [receipt.batch]
  {
  }

  // ---------- Overlapping sends ----------

  /**
   Batches may be under way together: the board does not wait for an earlier batch. A request
   that the client has timed out stays in transit, and the server may still handle it.
   */
  datatype Net = Net(
    submitted: seq<RequestId>,
    flights: map<RequestId, nat>,
    transit: multiset<RequestId>,
    handled: seq<RequestId>,
    acknowledged: set<RequestId>,
    blocked: bool)

  datatype Move =
    | Submit(id: RequestId)
    | Try(id: RequestId, attempt: Attempt)
    | TimeOut(id: RequestId)
    | Arrive(id: RequestId, admitted: bool)
    | Unblock

  const QUIET := Net([], map[], multiset{}, [], {}, false)

  /** An attempt that failed is followed by another; the third blocks the client. */
  function AfterFailure(n: Net, id: RequestId): Net
    requires id in n.flights
  {
    var used := n.flights[id] + 1;
    if used == ATTEMPTS then n.(flights := n.flights - {id}, blocked := true)
    else n.(flights := n.flights[id := used])
  }

  /** The server handles an admitted request unless it has a receipt for it. */
  function AfterArrival(n: Net, id: RequestId, admitted: bool): Net {
    if admitted && id !in n.handled then n.(handled := n.handled + [id]) else n
  }

  function AfterAttempt(n: Net, id: RequestId, attempt: Attempt): Net {
    if attempt.delivery.RequestLost? then n else AfterArrival(n, id, attempt.admitted)
  }

  /** The client hears of success, or goes on as after a failure. */
  function Concluded(n: Net, id: RequestId, delivery: Delivery): Net
    requires id in n.flights
  {
    if delivery.Answered? && id in n.handled then
      n.(acknowledged := n.acknowledged + {id}, flights := n.flights - {id})
    else AfterFailure(n, id)
  }

  ghost predicate Next(n: Net, move: Move, n': Net) {
    match move
    case Submit(id) =>
      && !n.blocked && id !in n.submitted
      && n' == n.(submitted := n.submitted + [id], flights := n.flights[id := 0])
    case Try(id, attempt) =>
      && id in n.flights && n.flights[id] < ATTEMPTS
      && n' == Concluded(AfterAttempt(n, id, attempt), id, attempt.delivery)
    case TimeOut(id) =>
      && id in n.flights && n.flights[id] < ATTEMPTS
      && n' == AfterFailure(n, id).(transit := n.transit + multiset{id})
    case Arrive(id, admitted) =>
      && id in n.transit
      && n' == AfterArrival(n, id, admitted).(transit := n.transit - multiset{id})
    case Unblock => n' == n.(blocked := false)
  }

  ghost predicate RunFrom(n: Net, states: seq<Net>, moves: seq<Move>) {
    && |states| == |moves| + 1 && states[0] == n
    && forall i :: 0 <= i < |moves| ==> Next(states[i], moves[i], states[i + 1])
  }

  ghost predicate AtMostOnce(n: Net) {
    && NoDups(n.submitted) && NoDups(n.handled)
    && (forall id :: id in n.handled ==> id in n.submitted)
    && (forall id :: id in n.flights ==> id in n.submitted && id !in n.acknowledged && n.flights[id] < ATTEMPTS)
    && (forall id :: id in n.transit ==> id in n.submitted)
    && (forall id :: id in n.acknowledged ==> id in n.handled)
  }

  lemma ArrivalOnce(n: Net, id: RequestId, admitted: bool)
    requires AtMostOnce(n) && id in n.submitted
    ensures AtMostOnce(AfterArrival(n, id, admitted))
  {
  }

  /** Only the flights and what the client knows change. */
  ghost predicate FewerFlights(n: Net, n': Net) {
    && n'.submitted == n.submitted && n'.handled == n.handled && n'.transit == n.transit
    && forall id :: id in n'.flights ==> id in n.flights
  }

  lemma FailureOnce(n: Net, id: RequestId)
    requires AtMostOnce(n) && id in n.flights
    ensures AtMostOnce(AfterFailure(n, id)) && FewerFlights(n, AfterFailure(n, id))
  {
  }

  lemma ConcludedOnce(n: Net, id: RequestId, delivery: Delivery)
    requires AtMostOnce(n) && id in n.flights
    ensures AtMostOnce(Concluded(n, id, delivery)) && FewerFlights(n, Concluded(n, id, delivery))
  {
    FailureOnce(n, id);
  }

  lemma TryOnce(n: Net, id: RequestId, attempt: Attempt)
    requires AtMostOnce(n) && id in n.flights
    ensures AtMostOnce(Concluded(AfterAttempt(n, id, attempt), id, attempt.delivery))
  {
    ArrivalOnce(n, id, attempt.admitted);
    ConcludedOnce(AfterAttempt(n, id, attempt), id, attempt.delivery);
  }

  lemma TimeOutOnce(n: Net, id: RequestId)
    requires AtMostOnce(n) && id in n.flights
    ensures AtMostOnce(AfterFailure(n, id).(transit := n.transit + multiset{id}))
  {
    FailureOnce(n, id);
  }

  lemma LateOnce(n: Net, id: RequestId, admitted: bool)
    requires AtMostOnce(n) && id in n.transit
    ensures AtMostOnce(AfterArrival(n, id, admitted).(transit := n.transit - multiset{id}))
  {
    ArrivalOnce(n, id, admitted);
  }

  lemma AtMostOnceStep(n: Net, move: Move, n': Net)
    requires AtMostOnce(n) && Next(n, move, n')
    ensures AtMostOnce(n')
  {
    match move {
      case Submit(id) =>
      case Try(id, attempt) => TryOnce(n, id, attempt);
      case TimeOut(id) => TimeOutOnce(n, id);
      case Arrive(id, admitted) => LateOnce(n, id, admitted);
      case Unblock =>
    }
  }

  /** However sends overlap and requests arrive late, no batch is applied twice; an acknowledged one was applied. */
  lemma {:induction false} OverlapAppliesOnce(n: Net, states: seq<Net>, moves: seq<Move>, i: nat)
    requires AtMostOnce(n) && RunFrom(n, states, moves) && i < |states|
    ensures AtMostOnce(states[i])
  {
    if i > 0 {
      OverlapAppliesOnce(n, states, moves, i - 1);
      AtMostOnceStep(states[i - 1], moves[i - 1], states[i]);
    }
  }

  // ---------- One batch alone ----------

  /** A batch after the first k of its attempts. */
  function Tried(n: Net, id: RequestId, attempts: seq<Attempt>, k: nat): Net
    requires k <= |attempts|
  {
    if k == 0 then Submitted1(n, id)
    else
      var m := Tried(n, id, attempts, k - 1);
      if id in m.flights then Concluded(AfterAttempt(m, id, attempts[k - 1]), id, attempts[k - 1].delivery) else m
  }

  lemma {:induction false} TriedSoFar(n: Net, id: RequestId, attempts: seq<Attempt>, k: nat)
    requires k <= |attempts| == 3 && AtMostOnce(n) && !n.blocked && id !in n.submitted
    ensures var m := Tried(n, id, attempts, k);
      && m.handled == n.handled + (if Handled(attempts[..k]) then [id] else [])
      && (id in m.acknowledged <==> Succeeds(attempts[..k]))
      && (id in m.flights <==> k < 3 && !Succeeds(attempts[..k]))
      && (id in m.flights ==> m.flights[id] == k)
      && (m.blocked <==> k == 3 && !Succeeds(attempts[..k]))
  {
    if k > 0 {
      TriedSoFar(n, id, attempts, k - 1);
      HandledSnoc(attempts, k - 1);
      SucceedsSnoc(attempts, k - 1);
    }
  }

  lemma SucceedsSnoc(attempts: seq<Attempt>, n: nat)
    requires n < |attempts|
    ensures Succeeds(attempts[..n + 1]) <==>
      Succeeds(attempts[..n]) || (attempts[n].delivery.Answered? && Handled(attempts[..n + 1]))
    ensures Succeeds(attempts[..n]) ==> Handled(attempts[..n])
  {
    var front, more := attempts[..n], attempts[..n + 1];
    assert forall i :: 0 <= i < n ==> front[..i + 1] == more[..i + 1] && front[i] == more[i];
    assert more[..n + 1] == more;
    if Succeeds(front) {
      var i :| 0 <= i < n && front[i].delivery.Answered? && Handled(front[..i + 1]);
      assert more[i].delivery.Answered? && Handled(more[..i + 1]);
      var j :| 0 <= j < i + 1 && !front[..i + 1][j].delivery.RequestLost? && front[..i + 1][j].admitted;
      assert front[j] == front[..i + 1][j];
    }
  }

  /** Among overlapping sends a batch of its own fares as the client's method says. */
  lemma {:induction false} AloneLikeStrokes(n: Net, id: RequestId, attempts: seq<Attempt>)
    requires |attempts| == 3 && AtMostOnce(n) && !n.blocked && id !in n.submitted
    ensures var m := Tried(n, id, attempts, 3);
      && m.handled == n.handled + (if Handled(attempts) then [id] else [])
      && (id in m.acknowledged <==> Succeeds(attempts)) && (m.blocked <==> !Succeeds(attempts)) && id !in m.flights
  {
    TriedSoFar(n, id, attempts, 3);
    assert attempts[..3] == attempts;
  }

  // ---------- When sends wait for each other ----------

  /** The batch can still be applied: the client tries it, or the network has a request for it. */
  predicate Pending(n: Net, id: RequestId) {
    id !in n.handled && (id in n.flights || id in n.transit)
  }

  ghost predicate NothingPending(n: Net) {
    forall id :: !Pending(n, id)
  }

  /** The submitted batches that have been handled, in the order of submission. */
  function InTurn(submitted: seq<RequestId>, handled: seq<RequestId>): seq<RequestId> {
    if submitted == [] then []
    else
      var before, last := InTurn(submitted[..|submitted| - 1], handled), submitted[|submitted| - 1];
      if last in handled then before + [last] else before
  }

  lemma {:induction false} InTurnOthers(submitted: seq<RequestId>, handled: seq<RequestId>, id: RequestId)
    requires id !in submitted
    ensures InTurn(submitted, handled + [id]) == InTurn(submitted, handled)
  {
    if submitted != [] {
      var front, last := submitted[..|submitted| - 1], submitted[|submitted| - 1];
      assert submitted == front + [last];
      InTurnOthers(front, handled, id);
      assert last in handled + [id] <==> last in handled;
    }
  }

  /** The handled batches are in the order of submission, and only the last can be pending. */
  ghost predicate Waiting(n: Net) {
    && AtMostOnce(n) && n.handled == InTurn(n.submitted, n.handled)
    && forall id :: Pending(n, id) ==> n.submitted != [] && id == n.submitted[|n.submitted| - 1]
  }

  lemma WaitingSubmit(n: Net, id: RequestId, n': Net)
    requires Waiting(n) && Next(n, Submit(id), n') && NothingPending(n)
    ensures Waiting(n')
  {
    AtMostOnceStep(n, Submit(id), n');
    assert n'.submitted[..|n.submitted|] == n.submitted;
    forall other | Pending(n', other) ensures other == id {
      assert !Pending(n, other);
    }
  }

  lemma WaitingArrival(n: Net, id: RequestId, admitted: bool)
    requires Waiting(n) && (id in n.flights || id in n.transit)
    ensures Waiting(AfterArrival(n, id, admitted))
  {
    ArrivalOnce(n, id, admitted);
    if admitted && id !in n.handled {
      assert Pending(n, id);
      var front := n.submitted[..|n.submitted| - 1];
      assert n.submitted == front + [id];
      InTurnOthers(front, n.handled, id);
    }
    forall other | Pending(AfterArrival(n, id, admitted), other) ensures Pending(n, other) {
    }
  }

  /** Nothing new becomes pending. */
  lemma WaitingFewer(n: Net, n': Net)
    requires Waiting(n) && AtMostOnce(n') && n'.submitted == n.submitted && n'.handled == n.handled
    requires forall id :: id in n'.flights || id in n'.transit ==> id in n.flights || id in n.transit
    ensures Waiting(n')
  {
    forall id | Pending(n', id) ensures Pending(n, id) {
    }
  }

  lemma WaitingTry(n: Net, id: RequestId, attempt: Attempt)
    requires Waiting(n) && id in n.flights
    ensures Waiting(Concluded(AfterAttempt(n, id, attempt), id, attempt.delivery))
  {
    WaitingArrival(n, id, attempt.admitted);
    var after := AfterAttempt(n, id, attempt);
    ConcludedOnce(after, id, attempt.delivery);
    WaitingFewer(after, Concluded(after, id, attempt.delivery));
  }

  lemma WaitingTimeOut(n: Net, id: RequestId)
    requires Waiting(n) && id in n.flights
    ensures Waiting(AfterFailure(n, id).(transit := n.transit + multiset{id}))
  {
    FailureOnce(n, id);
    TimeOutOnce(n, id);
    WaitingFewer(n, AfterFailure(n, id).(transit := n.transit + multiset{id}));
  }

  lemma WaitingLate(n: Net, id: RequestId, admitted: bool)
    requires Waiting(n) && id in n.transit
    ensures Waiting(AfterArrival(n, id, admitted).(transit := n.transit - multiset{id}))
  {
    WaitingArrival(n, id, admitted);
    LateOnce(n, id, admitted);
    WaitingFewer(AfterArrival(n, id, admitted), AfterArrival(n, id, admitted).(transit := n.transit - multiset{id}));
  }

  lemma WaitingStep(n: Net, move: Move, n': Net)
    requires Waiting(n) && Next(n, move, n') && (move.Submit? ==> NothingPending(n))
    ensures Waiting(n')
  {
    match move {
      case Submit(id) => WaitingSubmit(n, id, n');
      case Try(id, attempt) => WaitingTry(n, id, attempt);
      case TimeOut(id) => WaitingTimeOut(n, id);
      case Arrive(id, admitted) => WaitingLate(n, id, admitted);
      case Unblock => WaitingFewer(n, n');
    }
  }

  /** If every submission waits until nothing is pending, batches are applied in the order submitted. */
  lemma {:induction false} WaitingKeepsOrder(states: seq<Net>, moves: seq<Move>, i: nat)
    requires RunFrom(QUIET, states, moves) && i < |states|
    requires forall k :: 0 <= k < |moves| && moves[k].Submit? ==> NothingPending(states[k])
    ensures Waiting(states[i])
    ensures forall x, y :: Precedes(states[i].handled, x, y) ==> Precedes(states[i].submitted, x, y)
  {
    if i > 0 {
      WaitingKeepsOrder(states, moves, i - 1);
      WaitingStep(states[i - 1], moves[i - 1], states[i]);
    }
    forall x, y | Precedes(states[i].handled, x, y) ensures Precedes(states[i].submitted, x, y) {
      InTurnPrecedes(states[i].submitted, states[i].handled, x, y);
    }
  }

  /** Batches in turn are in the order submitted. */
  lemma {:induction false} InTurnPrecedes(
    submitted: seq<RequestId>, handled: seq<RequestId>, x: RequestId, y: RequestId)
    requires Precedes(InTurn(submitted, handled), x, y)
    ensures Precedes(submitted, x, y)
  {
    var front, last := submitted[..|submitted| - 1], submitted[|submitted| - 1];
    var before := InTurn(front, handled);
    var i, j :| 0 <= i < j < |InTurn(submitted, handled)|
      && InTurn(submitted, handled)[i] == x && InTurn(submitted, handled)[j] == y;
    if j < |before| {
      assert before[i] == x && before[j] == y;
      InTurnPrecedes(front, handled, x, y);
      var k, m :| 0 <= k < m < |front| && front[k] == x && front[m] == y;
      assert submitted[k] == x && submitted[m] == y;
    } else {
      assert before[i] == x && y == last;
      InTurnMembers(front, handled, x);
      var k :| 0 <= k < |front| && front[k] == x;
      assert submitted[k] == x && submitted[|front|] == y;
    }
  }

  lemma {:induction false} InTurnMembers(submitted: seq<RequestId>, handled: seq<RequestId>, id: RequestId)
    ensures id in InTurn(submitted, handled) <==> id in submitted && id in handled
  {
    if submitted != [] {
      var front, last := submitted[..|submitted| - 1], submitted[|submitted| - 1];
      assert submitted == front + [last];
      InTurnMembers(front, handled, id);
    }
  }

  // ---------- When a new batch can overtake ----------

  /** Some run that submits the new batch now applies it before the earlier one. */
  ghost predicate CanOvertake(n: Net, id: RequestId, earlier: RequestId) {
    exists states: seq<Net>, moves: seq<Move> ::
      && RunFrom(n, states, moves) && moves != [] && moves[0] == Submit(id)
      && Precedes(states[|moves|].handled, id, earlier)
  }

  /** The batch is out of the game: not applied, not tried any more, and in no request in transit. */
  predicate GivenUp(n: Net, id: RequestId) {
    id in n.submitted && id !in n.handled && id !in n.flights && id !in n.transit
  }

  lemma GivenUpTry(n: Net, id: RequestId, attempt: Attempt, earlier: RequestId)
    requires AtMostOnce(n) && GivenUp(n, earlier) && id in n.flights
    ensures GivenUp(Concluded(AfterAttempt(n, id, attempt), id, attempt.delivery), earlier)
  {
    var after := AfterAttempt(n, id, attempt);
    ArrivalOnce(n, id, attempt.admitted);
    assert GivenUp(after, earlier);
    ConcludedOnce(after, id, attempt.delivery);
  }

  lemma GivenUpStep(n: Net, move: Move, n': Net, earlier: RequestId)
    requires AtMostOnce(n) && GivenUp(n, earlier) && Next(n, move, n')
    ensures GivenUp(n', earlier)
  {
    match move {
      case Submit(id) =>
      case Try(id, attempt) => GivenUpTry(n, id, attempt, earlier);
      case TimeOut(id) => FailureOnce(n, id);
      case Arrive(id, admitted) => assert id != earlier;
      case Unblock =>
    }
  }

  lemma HandledGrows(n: Net, move: Move, n': Net)
    requires AtMostOnce(n) && Next(n, move, n')
    ensures n.handled <= n'.handled
  {
    match move {
      case Submit(id) =>
      case Try(id, attempt) =>
        ArrivalOnce(n, id, attempt.admitted);
        ConcludedOnce(AfterAttempt(n, id, attempt), id, attempt.delivery);
      case TimeOut(id) => FailureOnce(n, id);
      case Arrive(id, admitted) =>
      case Unblock =>
    }
  }

  /** A batch given up, with no request in transit, is never applied; and what is applied stays first. */
  lemma {:induction false} LaterHandled(n: Net, states: seq<Net>, moves: seq<Move>, i: nat, earlier: RequestId)
    requires AtMostOnce(n) && RunFrom(n, states, moves) && i < |states|
    ensures n.handled <= states[i].handled && AtMostOnce(states[i])
    ensures GivenUp(n, earlier) ==> GivenUp(states[i], earlier)
  {
    if i > 0 {
      LaterHandled(n, states, moves, i - 1, earlier);
      AtMostOnceStep(states[i - 1], moves[i - 1], states[i]);
      HandledGrows(states[i - 1], moves[i - 1], states[i]);
      if GivenUp(n, earlier) {
        GivenUpStep(states[i - 1], moves[i - 1], states[i], earlier);
      }
    }
  }

  lemma AppliedStayFirst(front: seq<RequestId>, order: seq<RequestId>, id: RequestId, earlier: RequestId)
    requires front <= order && NoDups(order) && earlier in front && id !in front
    ensures !Precedes(order, id, earlier)
  {
    assert forall k :: 0 <= k < |front| ==> order[k] == front[k];
  }

  /** From every such state sends that overlap can both be acknowledged and applied in the opposite order. */
  lemma OverlapReorders(n: Net, id: RequestId, earlier: RequestId)
    requires AtMostOnce(n) && !n.blocked && id !in n.submitted && earlier in n.flights && earlier !in n.handled
    ensures exists states: seq<Net>, moves: seq<Move> :: (
      && RunFrom(n, states, moves) && |moves| == 3 && moves[0] == Submit(id)
      && states[3].submitted == n.submitted + [id] && states[3].handled == n.handled + [id, earlier]
      && id in states[3].acknowledged && earlier in states[3].acknowledged)
  {
    var fine := Attempt(Answered, true);
    var n2 := AppliedFirst(n, id);
    OneFine(n, id);
    assert AtMostOnce(n2) by {
      AtMostOnceStep(n, Submit(id), Submitted1(n, id));
      AtMostOnceStep(Submitted1(n, id), Try(id, fine), n2);
    }
    var n3 := AnsweredAtOnce(n2, earlier);
    assert RunFrom(n, [n, Submitted1(n, id), n2, n3], [Submit(id), Try(id, fine), Try(earlier, fine)]);
    assert n3.handled == n.handled + [id, earlier];
  }

  lemma AnsweredAtOnce(n: Net, id: RequestId) returns (n': Net)
    requires AtMostOnce(n) && id in n.flights && id !in n.handled
    ensures Next(n, Try(id, Attempt(Answered, true)), n')
    ensures n'.submitted == n.submitted && n'.handled == n.handled + [id]
    ensures n'.acknowledged == n.acknowledged + {id}
  {
    assert id in n.handled + [id];
    n' := n.(handled := n.handled + [id], acknowledged := n.acknowledged + {id}, flights := n.flights - {id});
  }

  /** Nor need sends overlap: a request timed out long ago can be handled after a batch sent later. */
  lemma LateReorders(n: Net, id: RequestId, earlier: RequestId)
    requires AtMostOnce(n) && !n.blocked && id !in n.submitted && earlier in n.transit && earlier !in n.handled
    ensures exists states: seq<Net>, moves: seq<Move> :: (
      && RunFrom(n, states, moves) && |moves| == 3 && moves[0] == Submit(id)
      && states[3].submitted == n.submitted + [id] && states[3].handled == n.handled + [id, earlier])
  {
    var fine := Attempt(Answered, true);
    var n2 := AppliedFirst(n, id);
    var n3 := n2.(handled := n2.handled + [earlier], transit := n2.transit - multiset{earlier});
    OneFine(n, id);
    assert Next(n2, Arrive(earlier, true), n3);
    assert RunFrom(n, [n, Submitted1(n, id), n2, n3], [Submit(id), Try(id, fine), Arrive(earlier, true)]);
    assert n3.handled == n.handled + [id, earlier];
  }

  function Submitted1(n: Net, id: RequestId): Net {
    n.(submitted := n.submitted + [id], flights := n.flights[id := 0])
  }

  function AppliedFirst(n: Net, id: RequestId): Net {
    var n1 := Submitted1(n, id);
    n1.(handled := n.handled + [id], acknowledged := n.acknowledged + {id}, flights := n1.flights - {id})
  }

  lemma OneFine(n: Net, id: RequestId)
    requires AtMostOnce(n) && !n.blocked && id !in n.submitted
    ensures Next(n, Submit(id), Submitted1(n, id))
    ensures Next(Submitted1(n, id), Try(id, Attempt(Answered, true)), AppliedFirst(n, id))
  {
    assert id in n.handled + [id];
  }

  /**
   A batch submitted now can be applied before an earlier one exactly when that one is
   still pending: this is all there is to losing the order.
   */
  lemma {:induction false} OvertakesIff(n: Net, id: RequestId, earlier: RequestId)
    requires AtMostOnce(n) && !n.blocked && id !in n.submitted && earlier in n.submitted
    ensures CanOvertake(n, id, earlier) <==> Pending(n, earlier)
  {
    if Pending(n, earlier) {
      if earlier in n.flights {
        OverlapReorders(n, id, earlier);
      } else {
        LateReorders(n, id, earlier);
      }
      var states: seq<Net>, moves: seq<Move> :|
        RunFrom(n, states, moves) && |moves| == 3 && moves[0] == Submit(id)
        && states[3].handled == n.handled + [id, earlier];
      var order := states[3].handled;
      assert order[|n.handled|] == id && order[|n.handled| + 1] == earlier;
      assert Precedes(states[|moves|].handled, id, earlier);
    } else {
      forall states: seq<Net>, moves: seq<Move> | RunFrom(n, states, moves)
        ensures !Precedes(states[|moves|].handled, id, earlier)
      {
        LaterHandled(n, states, moves, |moves|, earlier);
        if earlier in n.handled {
          AppliedStayFirst(n.handled, states[|moves|].handled, id, earlier);
        }
      }
    }
  }

  // ---------- A batch given up that comes back ----------

  /** All attempts time out, the room is read again, and a later batch is sent; then an early request arrives. */
  lemma LateBatchOvertaken()
    ensures exists states: seq<Net>, moves: seq<Move> :: (
      && RunFrom(QUIET, states, moves) && |moves| == 8
      && states[5].flights == map[] && !states[5].blocked && moves[5] == Submit("b")
      && states[8].submitted == ["a", "b"] && states[8].handled == ["b", "a"])
  {
    var n := Net(["a"], map[], multiset{"a", "a", "a"}, [], {}, false);
    var states, moves := ThreeTimeOuts();
    LateReorders(n, "b", "a");
    var later: seq<Net>, more: seq<Move> :|
      RunFrom(n, later, more) && |more| == 3 && more[0] == Submit("b")
      && later[3].submitted == n.submitted + ["b"] && later[3].handled == n.handled + ["b", "a"];
    RunsJoin(QUIET, states, moves, later, more);
    assert (states + later[1..])[8] == later[3] && (states + later[1..])[5] == n && (moves + more)[5] == more[0];
  }

  lemma ThreeTimeOuts() returns (states: seq<Net>, moves: seq<Move>)
    ensures RunFrom(QUIET, states, moves) && |moves| == 5
    ensures states[5] == Net(["a"], map[], multiset{"a", "a", "a"}, [], {}, false)
  {
    var n0 := Net(["a"], map["a" := 0], multiset{}, [], {}, false);
    var n1 := Net(["a"], map["a" := 1], multiset{"a"}, [], {}, false);
    var n2 := Net(["a"], map["a" := 2], multiset{"a", "a"}, [], {}, false);
    var n3 := Net(["a"], map[], multiset{"a", "a", "a"}, [], {}, true);
    var n4 := n3.(blocked := false);
    assert Next(QUIET, Submit("a"), n0);
    TimedOut(n0, "a", n1);
    TimedOut(n1, "a", n2);
    assert n2.flights - {"a"} == n3.flights;
    TimedOut(n2, "a", n3);
    assert Next(n3, Unblock, n4);
    states, moves := [QUIET, n0, n1, n2, n3, n4], [Submit("a"), TimeOut("a"), TimeOut("a"), TimeOut("a"), Unblock];
  }

  lemma TimedOut(n: Net, id: RequestId, n': Net)
    requires id in n.flights && n.flights[id] < ATTEMPTS
    requires n' == AfterFailure(n, id).(transit := n.transit + multiset{id})
    ensures Next(n, TimeOut(id), n')
  {
  }

  lemma RunsJoin(n: Net, states: seq<Net>, moves: seq<Move>, later: seq<Net>, more: seq<Move>)
    requires RunFrom(n, states, moves) && RunFrom(states[|moves|], later, more)
    ensures RunFrom(n, states + later[1..], moves + more)
  {
    var all, steps := states + later[1..], moves + more;
    forall i | 0 <= i < |steps| ensures Next(all[i], steps[i], all[i + 1]) {
      if i >= |moves| {
        var k := i - |moves|;
        assert Next(later[k], more[k], later[k + 1]);
      }
    }
  }
}
