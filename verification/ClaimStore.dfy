/**
 Who may answer a message: the seen-message stores and the claims that workers
 take on messages while they answer them.
 */
module ClaimStore {
  import opened Wrappers

  type MessageId = string
  type Token = string

  /** A claim in the database, with the whole second at which it was taken. */
  datatype Lease = Lease(token: Token, claimedAt: int)

  /** The two tables of the database store. */
  datatype Tables = Tables(seen: set<MessageId>, claims: map<MessageId, Lease>)

  const EMPTY_TABLES := Tables({}, map[])

  datatype Call =
    | Claim(id: MessageId, now: int, token: Token)
    | MarkSeen(id: MessageId, token: Token)
    | Release(id: MessageId, token: Token)

  predicate Holds(t: Tables, id: MessageId, token: Token) {
    id in t.claims && t.claims[id].token == token
  }

  /** The claims that a claim call at this time does not purge. */
  function Purged(claims: map<MessageId, Lease>, now: int, ttl: int): map<MessageId, Lease> {
    map id | id in claims && claims[id].claimedAt >= now - ttl :: claims[id]
  }

  /** Whether a call is granted: a claim returns its token, a mark returns true. */
  predicate Granted(t: Tables, call: Call, ttl: int) {
    match call
    case Claim(id, now, _) => id !in t.seen && id !in Purged(t.claims, now, ttl)
    case MarkSeen(id, token) => Holds(t, id, token)
    case Release(id, token) => Holds(t, id, token)
  }

  function After(t: Tables, call: Call, ttl: int): Tables {
    match call
    case Claim(id, now, token) =>
      if id in t.seen then t
      else
        var kept := Purged(t.claims, now, ttl);
        t.(claims := if id in kept then kept else kept[id := Lease(token, now)])
    case MarkSeen(id, token) =>
      if Holds(t, id, token) then Tables(t.seen + {id}, t.claims - {id}) else t
    case Release(id, token) =>
      if Holds(t, id, token) then t.(claims := t.claims - {id}) else t
  }

  /** The database store; every method is one transaction. */
  class SqliteStore {
    var seen: set<MessageId>
    var claims: map<MessageId, Lease>
    const ttl: int

    constructor (ttl: int := 300)
      ensures this.ttl == ttl && State() == EMPTY_TABLES
    {
      this.ttl := ttl;
      seen, claims := {}, map[];
    }

    function State(): Tables
      reads this
    {
      Tables(seen, claims)
    }

    method Claim(id: MessageId, now: int, token: Token) returns (r: Option<Token>)
      modifies this
      ensures State() == After(old(State()), Call.Claim(id, now, token), ttl)
      ensures r == if Granted(old(State()), Call.Claim(id, now, token), ttl) then Some(token) else None
      ensures seen == old(seen) && (r.Some? ==> r == Some(token) && claims[id] == Lease(token, now))
      ensures r.Some? <==>
        id !in old(seen) && (id in old(claims) ==> old(claims)[id].claimedAt < now - ttl)
      ensures id in old(seen) ==> claims == old(claims)
      ensures id !in old(seen) ==> forall m :: m != id || r.None? ==>
        (m in claims <==> m in old(claims) && old(claims)[m].claimedAt >= now - ttl)
        && (m in claims ==> claims[m] == old(claims)[m])
    {
      if id in seen {
        return None;
      }
      claims := map m | m in claims && !(claims[m].claimedAt < now - ttl) :: claims[m];
      if id !in claims {
        claims := claims[id := Lease(token, now)];
        return Some(token);
      }
      return None;
    }

    method MarkSeen(id: MessageId, token: Token) returns (ok: bool)
      modifies this
      ensures State() == After(old(State()), Call.MarkSeen(id, token), ttl)
      ensures ok == Granted(old(State()), Call.MarkSeen(id, token), ttl)
      ensures ok <==> id in old(claims) && old(claims)[id].token == token
      ensures seen == (if ok then old(seen) + {id} else old(seen))
      ensures claims == (if ok then old(claims) - {id} else old(claims))
    {
      if id !in claims || claims[id].token != token {
        return false;
      }
      claims := claims - {id};
      seen := seen + {id};
      return true;
    }

    method ReleaseClaim(id: MessageId, token: Token)
      modifies this
      ensures State() == After(old(State()), Release(id, token), ttl)
      ensures seen == old(seen) && claims ==
        if id in old(claims) && old(claims)[id].token == token then old(claims) - {id} else old(claims)
    {
      if id in claims && claims[id].token == token {
        claims := claims - {id};
      }
    }
  }

  // ---------- Runs by any number of workers ----------

  function RunCalls(calls: seq<Call>, ttl: int): Tables {
    if calls == [] then EMPTY_TABLES
    else After(RunCalls(calls[..|calls| - 1], ttl), calls[|calls| - 1], ttl)
  }

  /** Whether the i-th call of a run is granted. */
  predicate GrantedAt(calls: seq<Call>, ttl: int, i: nat)
    requires i < |calls|
  {
    Granted(RunCalls(calls[..i], ttl), calls[i], ttl)
  }

  predicate IsClaim(calls: seq<Call>, ttl: int, i: nat, id: MessageId)
    requires i < |calls|
  {
    calls[i].Claim? && calls[i].id == id && GrantedAt(calls, ttl, i)
  }

  /** Every claim call brings a token of its own. */
  ghost predicate FreshTokens(calls: seq<Call>) {
    forall i, j :: 0 <= i < j < |calls| && calls[i].Claim? && calls[j].Claim? ==> calls[i].token != calls[j].token
  }

  lemma RunSnoc(calls: seq<Call>, ttl: int, i: nat)
    requires i < |calls|
    ensures RunCalls(calls[..i + 1], ttl) == After(RunCalls(calls[..i], ttl), calls[i], ttl)
  {
    assert calls[..i + 1][..i] == calls[..i];
  }

  /** A message is never both seen and claimed. */
  lemma {:induction false} SeenAndClaimedDisjoint(calls: seq<Call>, ttl: int, i: nat)
    requires i <= |calls|
    ensures RunCalls(calls[..i], ttl).seen !! RunCalls(calls[..i], ttl).claims.Keys
  {
    if i > 0 {
      SeenAndClaimedDisjoint(calls, ttl, i - 1);
      RunSnoc(calls, ttl, i - 1);
    }
  }

  predicate GrantedLease(calls: seq<Call>, ttl: int, k: nat, id: MessageId, lease: Lease)
    requires k < |calls|
  {
    IsClaim(calls, ttl, k, id) && lease == Lease(calls[k].token, calls[k].now)
  }

  /** Every claim in the table was granted to the call whose token and time it carries. */
  lemma {:induction false} LeaseHasClaim(calls: seq<Call>, ttl: int, i: nat, id: MessageId)
    requires i <= |calls| && id in RunCalls(calls[..i], ttl).claims
    ensures exists k :: 0 <= k < i && GrantedLease(calls, ttl, k, id, RunCalls(calls[..i], ttl).claims[id])
  {
    RunSnoc(calls, ttl, i - 1);
    var call := calls[i - 1];
    if call.Claim? && call.id == id && GrantedAt(calls, ttl, i - 1) {
      assert GrantedLease(calls, ttl, i - 1, id, RunCalls(calls[..i], ttl).claims[id]);
    } else {
      LeaseHasClaim(calls, ttl, i - 1, id);
    }
  }

  /** Once seen, a message stays seen and is never claimed or marked again. */
  lemma {:induction false} SeenForGood(calls: seq<Call>, ttl: int, i: nat, j: nat, id: MessageId)
    requires i <= j <= |calls| && id in RunCalls(calls[..i], ttl).seen
    ensures id in RunCalls(calls[..j], ttl).seen && id !in RunCalls(calls[..j], ttl).claims
  {
    SeenAndClaimedDisjoint(calls, ttl, j);
    if i < j {
      SeenForGood(calls, ttl, i, j - 1, id);
      RunSnoc(calls, ttl, j - 1);
    }
  }

  /** At most one mark per message ever succeeds, and after it no claim does. */
  lemma {:induction false} OneMarkPerMessage(calls: seq<Call>, ttl: int, i: nat, j: nat)
    requires i < j < |calls| && calls[i].MarkSeen? && GrantedAt(calls, ttl, i) && calls[j].id == calls[i].id
    ensures !GrantedAt(calls, ttl, j)
  {
    RunSnoc(calls, ttl, i);
    SeenForGood(calls, ttl, i + 1, j, calls[i].id);
  }

  predicate MarkedAt(calls: seq<Call>, ttl: int, k: nat, id: MessageId)
    requires k < |calls|
  {
    calls[k].MarkSeen? && calls[k].id == id && GrantedAt(calls, ttl, k)
  }

  /** A message is seen exactly when some mark of it succeeded. */
  lemma {:induction false} SeenIffMarked(calls: seq<Call>, ttl: int, i: nat, id: MessageId)
    requires i <= |calls|
    ensures id in RunCalls(calls[..i], ttl).seen <==> exists k :: 0 <= k < i && MarkedAt(calls, ttl, k, id)
  {
    if i > 0 {
      SeenIffMarked(calls, ttl, i - 1, id);
      RunSnoc(calls, ttl, i - 1);
      SeenStep(RunCalls(calls[..i - 1], ttl), calls[i - 1], ttl, id);
      if id in RunCalls(calls[..i], ttl).seen && id !in RunCalls(calls[..i - 1], ttl).seen {
        assert MarkedAt(calls, ttl, i - 1, id);
      }
    }
  }

  lemma SeenStep(t: Tables, call: Call, ttl: int, id: MessageId)
    ensures id in After(t, call, ttl).seen
       <==> id in t.seen || (call.MarkSeen? && call.id == id && Granted(t, call, ttl))
  {
  }

  // ---------- Tokens ----------

  lemma HoldsStep(t: Tables, call: Call, ttl: int, id: MessageId, token: Token)
    requires Holds(After(t, call, ttl), id, token)
    ensures Holds(t, id, token) || (call.Claim? && call.token == token)
  {
  }

  /** A token whose claim has left the table does not come back. */
  lemma {:induction false} TokenGoneForGood(calls: seq<Call>, ttl: int, k: nat, i: nat, j: nat)
    requires FreshTokens(calls) && k < i <= j <= |calls| && IsClaim(calls, ttl, k, calls[k].id)
    requires !Holds(RunCalls(calls[..i], ttl), calls[k].id, calls[k].token)
    ensures !Holds(RunCalls(calls[..j], ttl), calls[k].id, calls[k].token)
  {
    if i < j {
      TokenGoneForGood(calls, ttl, k, i, j - 1);
      RunSnoc(calls, ttl, j - 1);
      if Holds(RunCalls(calls[..j], ttl), calls[k].id, calls[k].token) {
        HoldsStep(RunCalls(calls[..j - 1], ttl), calls[j - 1], ttl, calls[k].id, calls[k].token);
      }
    }
  }

  /**
   After a later worker has claimed the message, the earlier worker's token can
   neither mark it seen nor release the later claim, at any time.
   */
  lemma {:induction false} StaleTokenPowerless(calls: seq<Call>, ttl: int, k: nat, m: nat, j: nat)
    requires FreshTokens(calls) && k < m < j < |calls|
    requires calls[k].Claim? && IsClaim(calls, ttl, k, calls[k].id) && IsClaim(calls, ttl, m, calls[k].id)
    requires calls[j] == MarkSeen(calls[k].id, calls[k].token) || calls[j] == Release(calls[k].id, calls[k].token)
    ensures !GrantedAt(calls, ttl, j) && RunCalls(calls[..j + 1], ttl) == RunCalls(calls[..j], ttl)
  {
    RunSnoc(calls, ttl, m);
    TokenGoneForGood(calls, ttl, k, m + 1, j);
    RunSnoc(calls, ttl, j);
  }

  // ---------- Leases ----------

  ghost predicate Stands(t: Tables, id: MessageId, lease: Lease) {
    id in t.seen || (id in t.claims && t.claims[id] == lease)
  }

  lemma StandsStep(t: Tables, call: Call, ttl: int, id: MessageId, lease: Lease)
    requires Stands(t, id, lease) && call != Release(id, lease.token)
    requires call.Claim? ==> call.now <= lease.claimedAt + ttl
    ensures Stands(After(t, call, ttl), id, lease)
  {
  }

  /** A claim that is not released stands, or its message has been marked seen. */
  lemma {:induction false} StandsOrSeen(calls: seq<Call>, ttl: int, i: nat, j: nat)
    requires i < j <= |calls| && calls[i].Claim? && GrantedAt(calls, ttl, i)
    requires forall k :: i < k < j && calls[k].Claim? ==> calls[k].now <= calls[i].now + ttl
    requires forall k :: i < k < j ==> calls[k] != Release(calls[i].id, calls[i].token)
    ensures Stands(RunCalls(calls[..j], ttl), calls[i].id, Lease(calls[i].token, calls[i].now))
  {
    RunSnoc(calls, ttl, j - 1);
    if i + 1 < j {
      StandsOrSeen(calls, ttl, i, j - 1);
      StandsStep(RunCalls(calls[..j - 1], ttl), calls[j - 1], ttl, calls[i].id, Lease(calls[i].token, calls[i].now));
    }
  }

  /**
   Two granted claims on one message, the first not released in between: some claim
   call between them, on whatever message, came more than the TTL after the first.
   So two workers answer one message only past a lease. No assumption on the clock.
   */
  lemma {:induction false} LeaseExclusion(calls: seq<Call>, ttl: int, i: nat, j: nat)
    requires i < j < |calls| && calls[i].Claim? && GrantedAt(calls, ttl, i) && IsClaim(calls, ttl, j, calls[i].id)
    requires forall k :: i < k < j ==> calls[k] != Release(calls[i].id, calls[i].token)
    ensures exists k :: i < k <= j && calls[k].Claim? && calls[k].now > calls[i].now + ttl
  {
    if forall k :: i < k < j && calls[k].Claim? ==> calls[k].now <= calls[i].now + ttl {
      StandsOrSeen(calls, ttl, i, j);
    }
  }

  /** With a clock that does not run backwards, the second claim itself came that late. */
  lemma {:induction false} LeaseExclusionInTime(calls: seq<Call>, ttl: int, i: nat, j: nat)
    requires i < j < |calls| && calls[i].Claim? && GrantedAt(calls, ttl, i) && IsClaim(calls, ttl, j, calls[i].id)
    requires forall k :: i < k < j ==> calls[k] != Release(calls[i].id, calls[i].token)
    requires forall k, m :: 0 <= k < m < |calls| && calls[k].Claim? && calls[m].Claim? ==> calls[k].now <= calls[m].now
    ensures calls[j].now > calls[i].now + ttl
  {
    LeaseExclusion(calls, ttl, i, j);
  }

  /** A claim call on a message not seen yet that comes more than the TTL after a lease began. */
  predicate LateClaim(calls: seq<Call>, ttl: int, k: nat, lease: Lease)
    requires k < |calls|
  {
    calls[k].Claim? && calls[k].id !in RunCalls(calls[..k], ttl).seen && calls[k].now > lease.claimedAt + ttl
  }

  /** The message is not seen, and the lease stands unless a late claim call has purged it. */
  ghost predicate StandsUnlessLate(calls: seq<Call>, ttl: int, i: nat, m: nat, id: MessageId, lease: Lease)
    requires i < m <= |calls|
  {
    var t := RunCalls(calls[..m], ttl);
    && id !in t.seen
    && if exists k :: i < k < m && LateClaim(calls, ttl, k, lease) then id !in t.claims
       else id in t.claims && t.claims[id] == lease
  }

  lemma LeaseStep(t: Tables, call: Call, ttl: int, id: MessageId, lease: Lease)
    requires id !in t.seen && (call.id == id ==> !Granted(t, call, ttl))
    ensures id !in After(t, call, ttl).seen
    ensures id !in t.claims ==> id !in After(t, call, ttl).claims
    ensures id in t.claims && t.claims[id] == lease ==>
      if call.Claim? && call.id !in t.seen && call.now > lease.claimedAt + ttl then id !in After(t, call, ttl).claims
      else id in After(t, call, ttl).claims && After(t, call, ttl).claims[id] == lease
  {
  }

  lemma {:induction false} LeaseUntil(calls: seq<Call>, ttl: int, i: nat, m: nat)
    requires i < m <= |calls| && calls[i].Claim? && GrantedAt(calls, ttl, i)
    requires forall k :: i < k < m && calls[k].id == calls[i].id ==> !GrantedAt(calls, ttl, k)
    ensures StandsUnlessLate(calls, ttl, i, m, calls[i].id, Lease(calls[i].token, calls[i].now))
  {
    RunSnoc(calls, ttl, m - 1);
    var id, lease := calls[i].id, Lease(calls[i].token, calls[i].now);
    if i + 1 < m {
      LeaseUntil(calls, ttl, i, m - 1);
      LeaseStep(RunCalls(calls[..m - 1], ttl), calls[m - 1], ttl, id, lease);
      assert (exists k :: i < k < m && LateClaim(calls, ttl, k, lease)) <==>
        (exists k :: i < k < m - 1 && LateClaim(calls, ttl, k, lease)) || LateClaim(calls, ttl, m - 1, lease);
    }
  }

  /**
   A granted claim, and nothing on its message granted since: the next claim call on the
   message is granted exactly when some claim call after the first one, up to it and on
   whatever message not seen yet, came more than the TTL after the first. It breaks the
   lease exactly when it does not come that late itself, but one before it did.
   */
  lemma {:induction false} NextClaimGrantedIff(calls: seq<Call>, ttl: int, i: nat, j: nat)
    requires i < j < |calls| && calls[i].Claim? && GrantedAt(calls, ttl, i)
    requires calls[j].Claim? && calls[j].id == calls[i].id
    requires forall k :: i < k < j && calls[k].id == calls[i].id ==> !GrantedAt(calls, ttl, k)
    ensures var lease := Lease(calls[i].token, calls[i].now);
      && (GrantedAt(calls, ttl, j) <==> exists k :: i < k <= j && LateClaim(calls, ttl, k, lease))
      && (GrantedAt(calls, ttl, j) && calls[j].now <= calls[i].now + ttl <==>
          calls[j].now <= calls[i].now + ttl && exists k :: i < k < j && LateClaim(calls, ttl, k, lease))
  {
    LeaseUntil(calls, ttl, i, j);
    var lease := Lease(calls[i].token, calls[i].now);
    assert (exists k :: i < k <= j && LateClaim(calls, ttl, k, lease)) <==>
      (exists k :: i < k < j && LateClaim(calls, ttl, k, lease)) || LateClaim(calls, ttl, j, lease);
  }

  /**
   A worker marks what it has answered: the mark succeeds, and nobody can claim the message
   again, exactly when no late claim call came between its claim and its mark.
   */
  lemma {:induction false} ClaimableAgainIff(calls: seq<Call>, ttl: int, i: nat, m: nat, j: nat)
    requires i < m < j < |calls| && calls[i].Claim? && GrantedAt(calls, ttl, i)
    requires calls[m] == MarkSeen(calls[i].id, calls[i].token) && calls[j].Claim? && calls[j].id == calls[i].id
    requires forall k :: i < k < j && k != m && calls[k].id == calls[i].id ==> !GrantedAt(calls, ttl, k)
    ensures var late := exists k :: i < k < m && LateClaim(calls, ttl, k, Lease(calls[i].token, calls[i].now));
      (GrantedAt(calls, ttl, m) <==> !late) && (GrantedAt(calls, ttl, j) <==> late)
  {
    LeaseUntil(calls, ttl, i, m);
    if GrantedAt(calls, ttl, m) {
      OneMarkPerMessage(calls, ttl, m, j);
    } else {
      StaysFree(calls, ttl, calls[i].id, m, j);
    }
  }

  /** While nothing on a message is granted, an unseen and unclaimed one stays so. */
  lemma {:induction false} StaysFree(calls: seq<Call>, ttl: int, id: MessageId, m: nat, j: nat)
    requires m <= j <= |calls|
    requires id !in RunCalls(calls[..m], ttl).seen && id !in RunCalls(calls[..m], ttl).claims
    requires forall k :: m <= k < j && calls[k].id == id ==> !GrantedAt(calls, ttl, k)
    ensures id !in RunCalls(calls[..j], ttl).seen && id !in RunCalls(calls[..j], ttl).claims
  {
    if m < j {
      StaysFree(calls, ttl, id, m, j - 1);
      RunSnoc(calls, ttl, j - 1);
    }
  }

  /** The time is read before the transaction begins, so a slow caller can claim inside a lease. */
  lemma LateTransactionBreaksLease()
    ensures var calls := [Claim("m", 0, "t1"), Claim("other", 301, "t2"), Claim("m", 1, "t3")];
      FreshTokens(calls) && GrantedAt(calls, 300, 0) && GrantedAt(calls, 300, 2)
  {
    var calls := [Claim("m", 0, "t1"), Claim("other", 301, "t2"), Claim("m", 1, "t3")];
    assert calls[..0] == [];
    RunSnoc(calls, 300, 0);
    RunSnoc(calls, 300, 1);
  }

  // ---------- The in-memory store ----------

  datatype Memory = Memory(seen: set<MessageId>, claims: map<MessageId, Token>)

  const EMPTY_MEMORY := Memory({}, map[])

  predicate MemoryGranted(m: Memory, call: Call) {
    match call
    case Claim(id, _, _) => id !in m.seen && id !in m.claims
    case MarkSeen(id, token) => id in m.claims && m.claims[id] == token
    case Release(id, token) => id in m.claims && m.claims[id] == token
  }

  function MemoryAfter(m: Memory, call: Call): Memory {
    if !MemoryGranted(m, call) then m
    else match call
      case Claim(id, _, token) => m.(claims := m.claims[id := token])
      case MarkSeen(id, _) => Memory(m.seen + {id}, m.claims - {id})
      case Release(id, _) => m.(claims := m.claims - {id})
  }

  class MemoryStore {
    var messageIds: set<MessageId>
    var claimed: map<MessageId, Token>

    constructor ()
      ensures State() == EMPTY_MEMORY
    {
      messageIds, claimed := {}, map[];
    }

    function State(): Memory
      reads this
    {
      Memory(messageIds, claimed)
    }

    /** The store ignores the time; the argument is the one the database store would use. */
    method Claim(id: MessageId, ghost now: int, token: Token) returns (r: Option<Token>)
      modifies this
      ensures State() == MemoryAfter(old(State()), Call.Claim(id, now, token))
      ensures r == if MemoryGranted(old(State()), Call.Claim(id, now, token)) then Some(token) else None
      ensures r == if id in old(messageIds) || id in old(claimed) then None else Some(token)
      ensures messageIds == old(messageIds)
      ensures claimed == if r.Some? then old(claimed)[id := token] else old(claimed)
    {
      if id in messageIds || id in claimed {
        return None;
      }
      claimed := claimed[id := token];
      return Some(token);
    }

    method MarkSeen(id: MessageId, token: Token) returns (ok: bool)
      modifies this
      ensures State() == MemoryAfter(old(State()), Call.MarkSeen(id, token))
      ensures ok == MemoryGranted(old(State()), Call.MarkSeen(id, token))
      ensures ok <==> id in old(claimed) && old(claimed)[id] == token
      ensures messageIds == (if ok then old(messageIds) + {id} else old(messageIds))
      ensures claimed == (if ok then old(claimed) - {id} else old(claimed))
    {
      if id !in claimed || claimed[id] != token {
        return false;
      }
      claimed := claimed - {id};
      messageIds := messageIds + {id};
      return true;
    }

    method ReleaseClaim(id: MessageId, token: Token)
      modifies this
      ensures State() == MemoryAfter(old(State()), Release(id, token))
      ensures messageIds == old(messageIds)
      ensures claimed ==
        if id in old(claimed) && old(claimed)[id] == token then old(claimed) - {id} else old(claimed)
    {
      if id in claimed && claimed[id] == token {
        claimed := claimed - {id};
      }
    }
  }

  function RunMemory(calls: seq<Call>): Memory {
    if calls == [] then EMPTY_MEMORY
    else MemoryAfter(RunMemory(calls[..|calls| - 1]), calls[|calls| - 1])
  }

  /** The database tables with the claim times forgotten. */
  function Forgetful(t: Tables): Memory {
    Memory(t.seen, map id | id in t.claims :: t.claims[id].token)
  }

  /** No claim call of the run finds a claim older than the TTL in the table. */
  ghost predicate NothingExpires(calls: seq<Call>, ttl: int) {
    forall i :: 0 <= i < |calls| && calls[i].Claim? && calls[i].id !in RunCalls(calls[..i], ttl).seen ==>
      Purged(RunCalls(calls[..i], ttl).claims, calls[i].now, ttl) == RunCalls(calls[..i], ttl).claims
  }

  lemma ForgetfulStep(t: Tables, call: Call, ttl: int)
    requires call.Claim? && call.id !in t.seen ==> Purged(t.claims, call.now, ttl) == t.claims
    ensures Granted(t, call, ttl) == MemoryGranted(Forgetful(t), call)
    ensures Forgetful(After(t, call, ttl)) == MemoryAfter(Forgetful(t), call)
  {
  }

  /** While nothing expires, the database store answers every call as the in-memory store does. */
  lemma {:induction false} StoreRefinement(calls: seq<Call>, ttl: int, i: nat)
    requires NothingExpires(calls, ttl) && i <= |calls|
    ensures RunMemory(calls[..i]) == Forgetful(RunCalls(calls[..i], ttl))
    ensures i < |calls| ==> GrantedAt(calls, ttl, i) == MemoryGranted(RunMemory(calls[..i]), calls[i])
  {
    if i > 0 {
      StoreRefinement(calls, ttl, i - 1);
      RunSnoc(calls, ttl, i - 1);
      assert calls[..i][..i - 1] == calls[..i - 1];
      ForgetfulStep(RunCalls(calls[..i - 1], ttl), calls[i - 1], ttl);
    }
    if i < |calls| {
      ForgetfulStep(RunCalls(calls[..i], ttl), calls[i], ttl);
    }
  }

  /** With a token for every claim, the two stores stay in step exactly when nothing expires. */
  lemma {:induction false} RefinementIffNothingExpires(calls: seq<Call>, ttl: int)
    requires FreshTokens(calls)
    ensures NothingExpires(calls, ttl)
       <==> forall i :: 0 <= i <= |calls| ==> RunMemory(calls[..i]) == Forgetful(RunCalls(calls[..i], ttl))
  {
    if NothingExpires(calls, ttl) {
      forall i | 0 <= i <= |calls| ensures RunMemory(calls[..i]) == Forgetful(RunCalls(calls[..i], ttl)) {
        StoreRefinement(calls, ttl, i);
      }
    } else {
      var i :| 0 <= i < |calls| && calls[i].Claim? && calls[i].id !in RunCalls(calls[..i], ttl).seen
        && Purged(RunCalls(calls[..i], ttl).claims, calls[i].now, ttl) != RunCalls(calls[..i], ttl).claims;
      ExpiryDiverges(calls, ttl, i);
    }
  }

  lemma {:induction false} ExpiryDiverges(calls: seq<Call>, ttl: int, i: nat)
    requires FreshTokens(calls) && i < |calls| && calls[i].Claim? && calls[i].id !in RunCalls(calls[..i], ttl).seen
    requires Purged(RunCalls(calls[..i], ttl).claims, calls[i].now, ttl) != RunCalls(calls[..i], ttl).claims
    ensures RunMemory(calls[..i]) != Forgetful(RunCalls(calls[..i], ttl))
         || RunMemory(calls[..i + 1]) != Forgetful(RunCalls(calls[..i + 1], ttl))
  {
    var t := RunCalls(calls[..i], ttl);
    assert exists m :: m in t.claims && m !in Purged(t.claims, calls[i].now, ttl);
    var m :| m in t.claims && m !in Purged(t.claims, calls[i].now, ttl);
    RunSnoc(calls, ttl, i);
    assert calls[..i + 1][..i] == calls[..i];
    LeaseHasClaim(calls, ttl, i, m);
    if RunMemory(calls[..i]) == Forgetful(t) {
      assert RunMemory(calls[..i + 1]).claims[m] == t.claims[m].token;
    }
  }
}
