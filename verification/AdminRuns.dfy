/**
 Admin requests that overlap: every transaction of the repository is one step,
 and the guarded operation runs between them.
 */
module AdminRuns {
  import opened Wrappers
  import opened AdminControl

  type Request = nat

  /** Where a granted request is: its operation runs, has returned, or has raised. */
  datatype Stage = Running | Returned(response: Response) | Raised

  datatype Flight = Flight(slot: Slot, stage: Stage)

  datatype System = System(records: Records, version: int, flights: map<Request, Flight>)

  datatype Step =
    | Reserve(req: Request, slot: Slot, now: int)
    | Run(req: Request, response: Response)
    | Commit(req: Request, ifMatch: int, response: Response)
    | Conflict(req: Request, ifMatch: int)
    | Raise(req: Request)
    | Complete(req: Request, now: int)
    | Release(req: Request)

  ghost predicate At(s: System, req: Request, stage: Stage) {
    req in s.flights && s.flights[req].stage == stage
  }

  function Moved(s: System, req: Request, stage: Stage): System
    requires req in s.flights
  {
    s.(flights := s.flights[req := s.flights[req].(stage := stage)])
  }

  ghost predicate Next(s: System, step: Step, s': System) {
    match step
    case Reserve(req, slot, now) =>
      && req !in s.flights
      && s' == s.(
        records := AfterReserve(s.records, slot, now),
        flights :=
          if Reserved(s.records, slot, now).Granted? then s.flights[req := Flight(slot, Running)] else s.flights)
    case Run(req, response) =>
      At(s, req, Running) && s' == Moved(s, req, Returned(response))
    case Commit(req, ifMatch, response) =>
      && At(s, req, Running) && s.version == ifMatch && response.version == Some(ifMatch + 1)
      && s' == Moved(s, req, Returned(response)).(version := ifMatch + 1)
    case Conflict(req, ifMatch) =>
      At(s, req, Running) && s.version != ifMatch && s' == Moved(s, req, Raised)
    case Raise(req) =>
      At(s, req, Running) && s' == Moved(s, req, Raised)
    case Complete(req, now) =>
      && req in s.flights && s.flights[req].stage.Returned?
      && s' == s.(
        records := AfterComplete(s.records, s.flights[req].slot, s.flights[req].stage.response, now),
        flights := s.flights - {req})
    case Release(req) =>
      && At(s, req, Raised)
      && s' == s.(records := AfterRelease(s.records, s.flights[req].slot), flights := s.flights - {req})
  }

  /** A run from an empty repository at some configuration version. */
  datatype Trace = Trace(states: seq<System>, steps: seq<Step>)

  ghost predicate IsRun(t: Trace) {
    && |t.states| == |t.steps| + 1
    && t.states[0].records == map[] && t.states[0].flights == map[]
    && forall i :: 0 <= i < |t.steps| ==> Next(t.states[i], t.steps[i], t.states[i + 1])
  }

  // ---------- One request alone ----------

  /** The steps of a granted request whose operation returns, one after the other, do what the response helper does. */
  lemma AloneCompletes(s: System, req: Request, slot: Slot, now: int, done: int, response: Response)
    returns (reserved: System, run: System, completed: System)
    requires req !in s.flights && Reserved(s.records, slot, now).Granted?
    ensures Next(s, Reserve(req, slot, now), reserved) && Next(reserved, Run(req, response), run)
    ensures Next(run, Complete(req, done), completed)
    ensures completed == s.(records := Live(s.records, now)[slot := Record(Some(response), done + 3600)])
  {
    reserved := s.(records := AfterReserve(s.records, slot, now), flights := s.flights[req := Flight(slot, Running)]);
    run := Moved(reserved, req, Returned(response));
    completed := run.(records := AfterComplete(run.records, slot, response, done), flights := run.flights - {req});
    assert completed.flights == s.flights;
  }

  /** And those of one that raises, or whose version has passed. */
  lemma AloneReleases(s: System, req: Request, slot: Slot, now: int, ifMatch: int)
    returns (reserved: System, raised: System, released: System)
    requires req !in s.flights && Reserved(s.records, slot, now).Granted?
    ensures Next(s, Reserve(req, slot, now), reserved) && Next(reserved, Raise(req), raised)
    ensures ifMatch != s.version ==> Next(reserved, Step.Conflict(req, ifMatch), raised)
    ensures Next(raised, Release(req), released) && released == s.(records := Live(s.records, now))
  {
    reserved := s.(records := AfterReserve(s.records, slot, now), flights := s.flights[req := Flight(slot, Running)]);
    raised := Moved(reserved, req, Raised);
    released := raised.(records := AfterRelease(raised.records, slot), flights := raised.flights - {req});
    assert released.flights == s.flights && released.records == Live(s.records, now);
  }

  /** A commit on the expected version moves it by one, as the repository's update does. */
  lemma AloneCommits(s: System, req: Request, response: Response) returns (committed: System)
    requires At(s, req, Running) && response.version == Some(s.version + 1)
    ensures Next(s, Commit(req, s.version, response), committed)
    ensures committed.version == s.version + 1 && committed.records == s.records
    ensures At(committed, req, Returned(response))
  {
    committed := Moved(s, req, Returned(response)).(version := s.version + 1);
  }

  // ---------- One request per key at a time ----------

  ghost predicate WorksOn(s: System, slot: Slot) {
    exists r :: r in s.flights && s.flights[r].slot == slot
  }

  /** At most one request works on the key, and it holds the key's reservation. */
  ghost predicate ExclusiveFor(s: System, slot: Slot) {
    && (WorksOn(s, slot) ==> slot in s.records && s.records[slot].response.None?)
    && (forall r, q :: r in s.flights && q in s.flights && s.flights[r].slot == slot && s.flights[q].slot == slot ==>
        r == q)
  }

  /** A call that is not refused purges what has expired by its time. */
  ghost predicate Purges(s: System, step: Step, expiresAt: int) {
    step.Reserve? && Reserved(s.records, step.slot, step.now) != InProgress && expiresAt <= step.now
  }

  /** A purge, on whatever key, takes the reservation of a request that still works on this one. */
  ghost predicate TakesReservation(s: System, step: Step, slot: Slot) {
    WorksOn(s, slot) && slot in s.records && Purges(s, step, s.records[slot].expiresAt)
  }

  lemma KeptStep(s: System, step: Step, s': System, slot: Slot)
    requires ExclusiveFor(s, slot) && Next(s, step, s') && !TakesReservation(s, step, slot)
    ensures ExclusiveFor(s', slot)
  {
    if WorksOn(s', slot) {
      var r :| r in s'.flights && s'.flights[r].slot == slot;
      assert r in s.flights ==> s.flights[r].slot == slot;
      assert WorksOn(s, slot) || (step.Reserve? && step.slot == slot);
    }
  }

  lemma TakenStep(s: System, step: Step, s': System, slot: Slot)
    requires Next(s, step, s') && TakesReservation(s, step, slot)
    ensures WorksOn(s', slot) && !ExclusiveFor(s', slot)
    ensures if step.slot == slot then Reserved(s.records, slot, step.now) == Granted else slot !in s'.records
  {
    var r :| r in s.flights && s.flights[r].slot == slot;
    assert r in s'.flights && s'.flights[r].slot == slot;
    if step.slot == slot {
      assert step.req in s'.flights && s'.flights[step.req].slot == slot && step.req != r;
    }
  }

  /** A step ends the exclusive work on a key exactly when its purge takes the reservation. */
  lemma {:induction false} ExclusiveStep(s: System, step: Step, s': System, slot: Slot)
    requires ExclusiveFor(s, slot) && Next(s, step, s')
    ensures ExclusiveFor(s', slot) <==> !TakesReservation(s, step, slot)
  {
    if TakesReservation(s, step, slot) {
      TakenStep(s, step, s', slot);
    } else {
      KeptStep(s, step, s', slot);
    }
  }

  /** No purge of the first i steps takes the reservation of a request under way on this key. */
  ghost predicate KeyKept(t: Trace, slot: Slot, i: nat)
    requires IsRun(t) && i <= |t.steps|
  {
    forall m :: 0 <= m < i ==> !TakesReservation(t.states[m], t.steps[m], slot)
  }

  /** At most one request works on a key at a time, holding its reservation, while its key is kept. */
  lemma {:induction false} OneAtATime(t: Trace, i: nat, slot: Slot)
    requires IsRun(t) && i < |t.states| && KeyKept(t, slot, i)
    ensures ExclusiveFor(t.states[i], slot)
  {
    if i > 0 {
      OneAtATime(t, i - 1, slot);
      ExclusiveStep(t.states[i - 1], t.steps[i - 1], t.states[i], slot);
    }
  }

  /** The key is worked on exclusively all along exactly when it is kept. */
  lemma {:induction false} OneAtATimeIff(t: Trace, i: nat, slot: Slot)
    requires IsRun(t) && i < |t.states|
    ensures (forall j :: 0 <= j <= i ==> ExclusiveFor(t.states[j], slot)) <==> KeyKept(t, slot, i)
  {
    if KeyKept(t, slot, i) {
      forall j | 0 <= j <= i ensures ExclusiveFor(t.states[j], slot) {
        OneAtATime(t, j, slot);
      }
    }
    if forall j :: 0 <= j <= i ==> ExclusiveFor(t.states[j], slot) {
      forall m | 0 <= m < i ensures !TakesReservation(t.states[m], t.steps[m], slot) {
        ExclusiveStep(t.states[m], t.steps[m], t.states[m + 1], slot);
      }
    }
  }

  /**
   Once a purge has taken a reservation, the request is still at work and a duplicate
   is let in: either the purging call itself is one, or the next one at any time is granted.
   */
  lemma {:induction false} TakenAdmitsDuplicate(t: Trace, i: nat, slot: Slot, now: int)
    requires IsRun(t) && i < |t.steps| && TakesReservation(t.states[i], t.steps[i], slot)
    ensures WorksOn(t.states[i + 1], slot)
    ensures if t.steps[i].slot == slot then Reserved(t.states[i].records, slot, t.steps[i].now) == Granted
            else Reserved(t.states[i + 1].records, slot, now) == Granted
  {
    TakenStep(t.states[i], t.steps[i], t.states[i + 1], slot);
  }

  /** A duplicate of a request under way is refused and changes nothing. */
  lemma {:induction false} DuplicateRefused(t: Trace, i: nat, r: Request)
    requires IsRun(t) && i < |t.steps| && t.steps[i].Reserve? && KeyKept(t, t.steps[i].slot, i + 1)
    requires r in t.states[i].flights && t.states[i].flights[r].slot == t.steps[i].slot
    ensures Reserved(t.states[i].records, t.steps[i].slot, t.steps[i].now) == InProgress
    ensures t.states[i + 1] == t.states[i]
  {
    OneAtATime(t, i, t.steps[i].slot);
    assert Next(t.states[i], t.steps[i], t.states[i + 1]);
    assert WorksOn(t.states[i], t.steps[i].slot) && !TakesReservation(t.states[i], t.steps[i], t.steps[i].slot);
  }

  /** After a failure has been released, the key is free for the next request at any time. */
  lemma {:induction false} FailureFreesKey(t: Trace, i: nat, now: int)
    requires IsRun(t) && i < |t.steps| && t.steps[i].Release?
    ensures t.steps[i].req in t.states[i].flights
    ensures var slot := t.states[i].flights[t.steps[i].req].slot;
      KeyKept(t, slot, i) ==> Reserved(t.states[i + 1].records, slot, now) == Granted
  {
    assert Next(t.states[i], t.steps[i], t.states[i + 1]);
    var slot := t.states[i].flights[t.steps[i].req].slot;
    if KeyKept(t, slot, i) {
      OneAtATime(t, i, slot);
    }
  }

  // ---------- Stored replies ----------

  ghost predicate CompletesAt(t: Trace, i: nat, slot: Slot)
    requires |t.states| == |t.steps| + 1 && i < |t.steps|
  {
    && t.steps[i].Complete? && t.steps[i].req in t.states[i].flights
    && t.states[i].flights[t.steps[i].req].slot == slot
    && t.states[i].flights[t.steps[i].req].stage.Returned?
  }

  ghost function ReplyOf(t: Trace, i: nat, slot: Slot): Response
    requires |t.states| == |t.steps| + 1 && i < |t.steps| && CompletesAt(t, i, slot)
  {
    t.states[i].flights[t.steps[i].req].stage.response
  }

  /** The reply stored by the i-th step is in the table, and nobody works on its key. */
  ghost predicate Stores(s: System, slot: Slot, response: Response, expiresAt: int) {
    && slot in s.records && s.records[slot] == Record(Some(response), expiresAt)
    && forall r :: r in s.flights ==> s.flights[r].slot != slot
  }

  /** Between two positions nothing is purged that expires at this time. */
  ghost predicate NothingPurged(t: Trace, i: nat, k: nat, expiresAt: int)
    requires IsRun(t) && k <= |t.steps|
  {
    forall m :: i < m < k ==> !Purges(t.states[m], t.steps[m], expiresAt)
  }

  lemma StoresStep(s: System, step: Step, s': System, slot: Slot, response: Response, expiresAt: int)
    requires Next(s, step, s') && Stores(s, slot, response, expiresAt) && !Purges(s, step, expiresAt)
    ensures Stores(s', slot, response, expiresAt)
    ensures step.Reserve? && step.slot == slot ==> Reserved(s.records, slot, step.now) == Replay(response)
  {
  }

  /** A stored reply stays, unchanged, for its whole lifetime. */
  lemma {:induction false} ReplyStays(t: Trace, i: nat, k: nat, slot: Slot)
    requires IsRun(t) && i < k < |t.states| && CompletesAt(t, i, slot) && KeyKept(t, slot, i)
    requires NothingPurged(t, i, k, t.steps[i].now + TTL)
    ensures Stores(t.states[k], slot, ReplyOf(t, i, slot), t.steps[i].now + TTL)
  {
    assert Next(t.states[k - 1], t.steps[k - 1], t.states[k]);
    if k == i + 1 {
      OneAtATime(t, i, slot);
    } else {
      ReplyStays(t, i, k - 1, slot);
      StoresStep(t.states[k - 1], t.steps[k - 1], t.states[k], slot, ReplyOf(t, i, slot), t.steps[i].now + TTL);
    }
  }

  /** Every later request with the key is answered with the stored reply while it lives. */
  lemma {:induction false} LaterRequestsReplay(t: Trace, i: nat, k: nat, slot: Slot)
    requires IsRun(t) && i < k < |t.steps| && CompletesAt(t, i, slot) && KeyKept(t, slot, i)
    requires NothingPurged(t, i, k + 1, t.steps[i].now + TTL)
    requires t.steps[k].Reserve? && t.steps[k].slot == slot
    ensures Reserved(t.states[k].records, slot, t.steps[k].now) == Replay(ReplyOf(t, i, slot))
  {
    ReplyStays(t, i, k, slot);
    assert Next(t.states[k], t.steps[k], t.states[k + 1]);
    StoresStep(t.states[k], t.steps[k], t.states[k + 1], slot, ReplyOf(t, i, slot), t.steps[i].now + TTL);
  }

  /** Between two positions a call that is not refused came when this reply had expired. */
  ghost predicate ExpiredBetween(t: Trace, c: nat, j: nat)
    requires IsRun(t) && c < |t.steps| && j <= |t.steps| && t.steps[c].Complete?
  {
    exists k :: c < k < j && Purges(t.states[k], t.steps[k], t.steps[c].now + TTL)
  }

  /** A key is worked on again only after a call that was not refused and came when its reply had expired. */
  lemma {:induction false} WorkedAgainOnlyExpired(t: Trace, i: nat, j: nat, slot: Slot)
    requires IsRun(t) && i < j < |t.states| && CompletesAt(t, i, slot) && KeyKept(t, slot, i)
    requires WorksOn(t.states[j], slot)
    ensures ExpiredBetween(t, i, j)
  {
    if NothingPurged(t, i, j, t.steps[i].now + TTL) {
      ReplyStays(t, i, j, slot);
    }
  }

  /** Two completions for one key are a lifetime apart. */
  lemma {:induction false} OneCompletionPerLifetime(t: Trace, i: nat, j: nat, slot: Slot)
    requires IsRun(t) && i < j < |t.steps| && CompletesAt(t, i, slot) && CompletesAt(t, j, slot)
    requires KeyKept(t, slot, i)
    ensures ExpiredBetween(t, i, j)
  {
    assert WorksOn(t.states[j], slot);
    WorkedAgainOnlyExpired(t, i, j, slot);
  }

  /** Only completed operations are replayed, never failures. */
  lemma {:induction false} StoredRepliesCompleted(t: Trace, i: nat, slot: Slot)
    requires IsRun(t) && i < |t.states| && slot in t.states[i].records && t.states[i].records[slot].response.Some?
    ensures exists k :: (
      0 <= k < i && CompletesAt(t, k, slot) && ReplyOf(t, k, slot) == t.states[i].records[slot].response.value)
  {
    assert Next(t.states[i - 1], t.steps[i - 1], t.states[i]);
    if !CompletesAt(t, i - 1, slot) {
      StoredRepliesCompleted(t, i - 1, slot);
    }
  }

  // ---------- Configuration versions ----------

  /** The If-Match versions of the committed changes, oldest first. */
  function Committed(steps: seq<Step>): seq<int> {
    if steps == [] then []
    else
      var before, step := Committed(steps[..|steps| - 1]), steps[|steps| - 1];
      if step.Commit? then before + [step.ifMatch] else before
  }

  /** Commits form a chain without gaps: each If-Match is the version just before it, and counts them. */
  lemma {:induction false} VersionLineage(t: Trace, i: nat)
    requires IsRun(t) && i < |t.states|
    ensures t.states[i].version == t.states[0].version + |Committed(t.steps[..i])|
    ensures forall n :: 0 <= n < |Committed(t.steps[..i])| ==>
      Committed(t.steps[..i])[n] == t.states[0].version + n
  {
    if i > 0 {
      VersionLineage(t, i - 1);
      assert Next(t.states[i - 1], t.steps[i - 1], t.states[i]);
      assert t.steps[..i][..i - 1] == t.steps[..i - 1];
    }
  }

  ghost predicate CommitsAt(t: Trace, i: nat, slot: Slot)
    requires |t.states| == |t.steps| + 1 && i < |t.steps|
  {
    && t.steps[i].Commit? && t.steps[i].req in t.states[i].flights
    && t.states[i].flights[t.steps[i].req].slot == slot
  }

  /** A returned operation stays so until its own completion. */
  lemma {:induction false} ReturnedUntilComplete(t: Trace, i: nat, k: nat, slot: Slot)
    requires IsRun(t) && i < k < |t.states| && CommitsAt(t, i, slot)
    requires forall c :: i < c < k ==> !(t.steps[c].Complete? && t.steps[c].req == t.steps[i].req)
    ensures t.steps[i].req in t.states[k].flights
    ensures t.states[k].flights[t.steps[i].req].slot == slot && t.states[k].flights[t.steps[i].req].stage.Returned?
  {
    assert Next(t.states[k - 1], t.steps[k - 1], t.states[k]);
    if k > i + 1 {
      ReturnedUntilComplete(t, i, k - 1, slot);
    }
  }

  /**
   One key commits one change per lifetime: before a second change is committed
   under a key, the first was completed and its stored reply had expired.
   */
  lemma {:induction false} OneCommitPerLifetime(t: Trace, i: nat, j: nat, slot: Slot)
    requires IsRun(t) && i < j < |t.steps| && CommitsAt(t, i, slot) && CommitsAt(t, j, slot)
    requires KeyKept(t, slot, j)
    ensures exists c :: i < c < j && CompletesAt(t, c, slot) && ExpiredBetween(t, c, j)
  {
    assert Next(t.states[j], t.steps[j], t.states[j + 1]);
    var req := t.steps[i].req;
    if forall c :: i < c < j ==> !(t.steps[c].Complete? && t.steps[c].req == req) {
      ReturnedUntilComplete(t, i, j, slot);
      OneAtATime(t, j, slot);
      assert false;
    }
    var c := FirstComplete(t, i, j, req);
    ReturnedUntilComplete(t, i, c, slot);
    assert WorksOn(t.states[j], slot);
    WorkedAgainOnlyExpired(t, c, j, slot);
    assert CompletesAt(t, c, slot) && ExpiredBetween(t, c, j);
  }

  ghost function FirstComplete(t: Trace, i: nat, j: nat, req: Request): (c: nat)
    requires i < j <= |t.steps| && exists c :: i < c < j && t.steps[c].Complete? && t.steps[c].req == req
    ensures i < c < j && t.steps[c].Complete? && t.steps[c].req == req
    ensures forall d :: i < d < c ==> !(t.steps[d].Complete? && t.steps[d].req == req)
    decreases j - i
  {
    if t.steps[i + 1].Complete? && t.steps[i + 1].req == req then i + 1 else FirstComplete(t, i + 1, j, req)
  }

  // ---------- Why operations must not outlive their reservation ----------

  ghost predicate CompletedTwice(t: Trace, slot: Slot) {
    && IsRun(t) && |t.steps| == 6
    && CompletesAt(t, 4, slot) && CompletesAt(t, 5, slot)
    && t.steps[4].now == t.steps[5].now == TTL
  }

  function SlowSteps(slot: Slot, a: Response, b: Response): seq<Step> {
    [Reserve(1, slot, 0), Reserve(2, slot, TTL), Run(1, a), Run(2, b), Complete(1, TTL), Complete(2, TTL)]
  }

  function SlowStates(slot: Slot, a: Response, b: Response): seq<System> {
    var pending := map[slot := Record(None, 2 * TTL)];
    [ System(map[], 0, map[]),
      System(map[slot := Record(None, TTL)], 0, map[1 := Flight(slot, Running)]),
      System(pending, 0, map[1 := Flight(slot, Running), 2 := Flight(slot, Running)]),
      System(pending, 0, map[1 := Flight(slot, Returned(a)), 2 := Flight(slot, Running)]),
      System(pending, 0, map[1 := Flight(slot, Returned(a)), 2 := Flight(slot, Returned(b))]),
      System(map[slot := Record(Some(a), 2 * TTL)], 0, map[2 := Flight(slot, Returned(b))]),
      System(map[slot := Record(Some(b), 2 * TTL)], 0, map[])]
  }

  lemma SlowBegins(slot: Slot, a: Response, b: Response, i: nat)
    requires i < 4
    ensures Next(SlowStates(slot, a, b)[i], SlowSteps(slot, a, b)[i], SlowStates(slot, a, b)[i + 1])
  {
    var states := SlowStates(slot, a, b);
    assert Live(states[0].records, 0) == map[] && Live(states[1].records, TTL) == map[];
  }

  lemma SlowEnds(slot: Slot, a: Response, b: Response, i: nat)
    requires 4 <= i < 6
    ensures Next(SlowStates(slot, a, b)[i], SlowSteps(slot, a, b)[i], SlowStates(slot, a, b)[i + 1])
  {
    var states := SlowStates(slot, a, b);
    assert states[4].flights - {1} == states[5].flights;
    assert states[5].flights - {2} == states[6].flights;
  }

  /** An operation that takes as long as its reservation lives can complete beside a duplicate. */
  lemma SlowOperationCompletesTwice(slot: Slot, a: Response, b: Response)
    ensures exists t: Trace :: CompletedTwice(t, slot)
  {
    var t := Trace(SlowStates(slot, a, b), SlowSteps(slot, a, b));
    forall i | 0 <= i < |t.steps| ensures Next(t.states[i], t.steps[i], t.states[i + 1]) {
      if i < 4 {
        SlowBegins(slot, a, b, i);
      } else {
        SlowEnds(slot, a, b, i);
      }
    }
    assert CompletedTwice(t, slot);
  }
}
