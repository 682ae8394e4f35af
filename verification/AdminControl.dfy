/**
 Idempotent admin requests and versioned configuration changes: the repository and
 the two response helpers.
 */
module AdminControl {
  import opened Wrappers

  /** Seconds a reservation or a stored response lives. */
  const TTL := 3600

  /** An actor with a scope, and the client's idempotency key. */
  datatype Slot = Slot(actorKey: string, key: string)

  /** A versioned change also reports the version it made. */
  datatype Response = Response(status: int, body: string, version: Option<int>)

  /** A reservation has no response yet. */
  datatype Record = Record(response: Option<Response>, expiresAt: int)

  type Records = map<Slot, Record>

  datatype Reservation = Granted | InProgress | Replay(response: Response)

  // ---------- The repository's transactions ----------

  function Live(records: Records, now: int): Records {
    map s | s in records && records[s].expiresAt > now :: records[s]
  }

  function Reserved(records: Records, slot: Slot, now: int): Reservation {
    if slot !in Live(records, now) then Granted
    else match records[slot].response
      case None => InProgress
      case Some(response) => Replay(response)
  }

  /** A refusal rolls the transaction back, the purge of expired records with it. */
  function AfterReserve(records: Records, slot: Slot, now: int): Records {
    match Reserved(records, slot, now)
    case Granted => Live(records, now)[slot := Record(None, now + TTL)]
    case InProgress => records
    case Replay(_) => Live(records, now)
  }

  function AfterComplete(records: Records, slot: Slot, response: Response, now: int): Records {
    if slot in records then records[slot := Record(Some(response), now + TTL)] else records
  }

  function AfterRelease(records: Records, slot: Slot): Records {
    if slot in records && records[slot].response.None? then records - {slot} else records
  }

  /** What the guarded operation does when it runs. */
  datatype Operation = Returns(status: int, body: string) | Raises

  datatype Update = Updated(body: string, version: int) | Conflict(current: int) | Failed

  class AdminRepository {
    var records: Records
    var version: int
    /** How many guarded operations have run. */
    ghost var runs: nat

    constructor ()
      ensures records == map[] && version == 0 && runs == 0
    {
      records, version, runs := map[], 0, 0;
    }

    method ReserveIdempotencyKey(slot: Slot, now: int) returns (r: Reservation)
      modifies this`records
      ensures r == Reserved(old(records), slot, now) && records == AfterReserve(old(records), slot, now)
      ensures r.Granted? <==> slot !in old(records) || old(records)[slot].expiresAt <= now
      ensures !r.Granted? ==> old(records)[slot].response == if r.Replay? then Some(r.response) else None
      ensures r.InProgress? ==> records == old(records)
      ensures !r.InProgress? ==> forall s :: s != slot ==>
        (s in records <==> s in old(records) && old(records)[s].expiresAt > now)
        && (s in records ==> records[s] == old(records)[s])
      ensures !r.InProgress? ==>
        slot in records && records[slot] == if r.Granted? then Record(None, now + 3600) else old(records)[slot]
    {
      var live := map s | s in records && !(records[s].expiresAt <= now) :: records[s];
      assert live == Live(records, now);
      if slot in live {
        match live[slot].response {
          case None => return InProgress;
          case Some(response) =>
            records := live;
            return Replay(response);
        }
      }
      records := live[slot := Record(None, now + TTL)];
      return Granted;
    }

    method CompleteIdempotencyKey(slot: Slot, response: Response, now: int) returns (ok: bool)
      modifies this`records
      ensures ok <==> slot in old(records)
      ensures records == AfterComplete(old(records), slot, response, now)
      ensures records == if ok then old(records)[slot := Record(Some(response), now + 3600)] else old(records)
    {
      if slot !in records {
        return false;
      }
      records := records[slot := Record(Some(response), now + TTL)];
      return true;
    }

    method ReleaseIdempotencyKey(slot: Slot)
      modifies this`records
      ensures records == AfterRelease(old(records), slot)
      ensures slot in records <==> slot in old(records) && old(records)[slot].response.Some?
      ensures records - {slot} == old(records) - {slot}
      ensures slot in records ==> records[slot] == old(records)[slot]
    {
      if slot in records && records[slot].response.None? {
        records := records - {slot};
      }
    }

    /** The row is locked: check, run and increment are one step, undone if the operation raises. */
    method UpdateConfiguration(expected: int, operation: Operation) returns (u: Update)
      modifies this`version, this`runs
      ensures old(version) != expected ==> u == Conflict(old(version)) && version == old(version) && runs == old(runs)
      ensures old(version) == expected ==> runs == old(runs) + 1
      ensures old(version) == expected && operation.Returns? ==>
        u == Updated(operation.body, version) && version == expected + 1
      ensures old(version) == expected && operation.Raises? ==> u == Failed && version == old(version)
    {
      if version != expected {
        return Conflict(version);
      }
      runs := runs + 1;
      match operation {
        case Raises => return Failed;
        case Returns(_, body) =>
          version := version + 1;
          return Updated(body, version);
      }
    }
  }

  // ---------- The response helpers, one request at a time ----------

  datatype Reply =
    | Answer(response: Response)
    | Unprocessable
    | Busy
    | Stale(current: int)
    | Error

  /** The operation runs only on a granted reservation; its response is stored, its failure frees the key. */
  method IdempotentResponse(repository: AdminRepository, slot: Slot, operation: Operation, now: int, done: int)
    returns (reply: Reply)
    modifies repository
    ensures repository.version == old(repository.version)
    ensures slot.key == "" ==> reply == Unprocessable && repository.records == old(repository.records)
    ensures slot.key != "" ==>
      var before := old(repository.records);
      match Reserved(before, slot, now)
      case InProgress => reply == Busy && repository.records == before && repository.runs == old(repository.runs)
      case Replay(response) =>
        reply == Answer(response) && repository.records == Live(before, now) && repository.runs == old(repository.runs)
      case Granted =>
        && repository.runs == old(repository.runs) + 1
        && match operation
           case Returns(status, body) =>
             && reply == Answer(Response(status, body, None))
             && repository.records == Live(before, now)[slot := Record(Some(reply.response), done + TTL)]
           case Raises => reply == Error && repository.records == Live(before, now)
  {
    if slot.key == "" {
      return Unprocessable;
    }
    var reservation := repository.ReserveIdempotencyKey(slot, now);
    match reservation {
      case InProgress => return Busy;
      case Replay(response) => return Answer(response);
      case Granted =>
    }
    repository.runs := repository.runs + 1;
    match operation {
      case Raises =>
        repository.ReleaseIdempotencyKey(slot);
        assert repository.records == Live(old(repository.records), now);
        return Error;
      case Returns(status, body) =>
        var response := Response(status, body, None);
        var _ := repository.CompleteIdempotencyKey(slot, response, done);
        return Answer(response);
    }
  }

  /** A missing or negative If-Match is refused; a stale one never runs the operation and frees the key. */
  method VersionedConfigurationResponse(
    repository: AdminRepository, slot: Slot, ifMatch: Option<int>, operation: Operation, status: int,
    now: int, done: int)
    returns (reply: Reply)
    modifies repository
    ensures ifMatch.None? || ifMatch.value < 0 || slot.key == "" ==>
      && reply == Unprocessable && repository.records == old(repository.records)
      && repository.version == old(repository.version) && repository.runs == old(repository.runs)
    ensures ifMatch.Some? && ifMatch.value >= 0 && slot.key != "" ==>
      var before, version := old(repository.records), old(repository.version);
      match Reserved(before, slot, now)
      case InProgress =>
        reply == Busy && repository.records == before
        && repository.version == version && repository.runs == old(repository.runs)
      case Replay(response) =>
        reply == Answer(response) && repository.records == Live(before, now)
        && repository.version == version && repository.runs == old(repository.runs)
      case Granted =>
        if ifMatch.value != version then
          reply == Stale(version) && repository.records == Live(before, now)
          && repository.version == version && repository.runs == old(repository.runs)
        else
          && repository.runs == old(repository.runs) + 1
          && match operation
             case Returns(_, body) =>
               && reply == Answer(Response(status, body, Some(version + 1)))
               && repository.version == version + 1
               && repository.records == Live(before, now)[slot := Record(Some(reply.response), done + TTL)]
             case Raises =>
               reply == Error && repository.records == Live(before, now) && repository.version == version
  {
    if ifMatch.None? || ifMatch.value < 0 || slot.key == "" {
      return Unprocessable;
    }
    var reservation := repository.ReserveIdempotencyKey(slot, now);
    match reservation {
      case InProgress => return Busy;
      case Replay(response) => return Answer(response);
      case Granted =>
    }
    var update := repository.UpdateConfiguration(ifMatch.value, operation);
    match update {
      case Updated(body, version) =>
        var response := Response(status, body, Some(version));
        var _ := repository.CompleteIdempotencyKey(slot, response, done);
        return Answer(response);
      case Conflict(current) =>
        repository.ReleaseIdempotencyKey(slot);
        assert repository.records == Live(old(repository.records), now);
        return Stale(current);
      case Failed =>
        repository.ReleaseIdempotencyKey(slot);
        assert repository.records == Live(old(repository.records), now);
        return Error;
    }
  }
}
