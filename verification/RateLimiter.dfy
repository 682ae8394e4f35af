/** The integration key check and its sliding window of sixty calls a minute. */
module RateLimiter {
  import opened Wrappers

  const SPAN: real := 60.0
  const LIMIT := 60

  datatype Verdict = Disabled | Unauthorized | Limited | Accepted

  predicate InOrder(times: seq<real>, i: nat, j: nat)
    requires i < j < |times|
  {
    times[i] <= times[j]
  }

  predicate Apart(times: seq<real>, i: nat, j: nat)
    requires i < j < |times|
  {
    times[j] - times[i] > SPAN
  }

  ghost predicate Sorted(times: seq<real>) {
    forall i, j :: 0 <= i < j < |times| ==> InOrder(times, i, j)
  }

  /** A call and any call sixty or more places later are more than a minute apart. */
  ghost predicate Spaced(times: seq<real>) {
    forall i, j :: 0 <= i && i + LIMIT <= j < |times| ==> Apart(times, i, j)
  }

  /** How many calls fall in the closed window from start to end. */
  function CountIn(times: seq<real>, start: real, end: real): nat {
    if times == [] then 0
    else
      CountIn(times[..|times| - 1], start, end) + if start <= times[|times| - 1] <= end then 1 else 0
  }

  lemma {:induction false} CountAppend(a: seq<real>, b: seq<real>, start: real, end: real)
    ensures CountIn(a + b, start, end) == CountIn(a, start, end) + CountIn(b, start, end)
  {
    if b == [] {
      assert a + b == a;
    } else {
      assert (a + b)[..|a + b| - 1] == a + b[..|b| - 1];
      CountAppend(a, b[..|b| - 1], start, end);
    }
  }

  lemma CountOne(time: real, start: real, end: real)
    ensures CountIn([time], start, end) == if start <= time <= end then 1 else 0
  {
    assert [time][..0] == [];
  }

  lemma CountAtMostLength(times: seq<real>, start: real, end: real)
    ensures CountIn(times, start, end) <= |times|
  {
  }

  lemma {:induction false} CountNone(times: seq<real>, start: real, end: real)
    requires forall i :: 0 <= i < |times| ==> times[i] < start
    ensures CountIn(times, start, end) == 0
  {
    if times != [] {
      CountNone(times[..|times| - 1], start, end);
    }
  }

  lemma {:induction false} CountAll(times: seq<real>, start: real, end: real)
    requires forall i :: 0 <= i < |times| ==> start <= times[i] <= end
    ensures CountIn(times, start, end) == |times|
  {
    if times != [] {
      CountAll(times[..|times| - 1], start, end);
    }
  }

  lemma FrontToo(times: seq<real>)
    requires Sorted(times) && Spaced(times) && times != []
    ensures Sorted(times[..|times| - 1]) && Spaced(times[..|times| - 1])
  {
    var front := times[..|times| - 1];
    forall i, j | 0 <= i < j < |front| ensures InOrder(front, i, j) {
      assert InOrder(times, i, j);
    }
    forall i, j | 0 <= i && i + LIMIT <= j < |front| ensures Apart(front, i, j) {
      assert Apart(times, i, j);
    }
  }

  /** No closed minute holds more than sixty of a sorted, spaced list of calls. */
  lemma {:induction false} WindowBound(times: seq<real>, start: real)
    requires Sorted(times) && Spaced(times)
    ensures CountIn(times, start, start + 60.0) <= 60
  {
    if |times| <= LIMIT {
      CountAtMostLength(times, start, start + SPAN);
    } else if start <= times[|times| - 1] <= start + SPAN {
      var n := |times| - LIMIT;
      assert times == times[..n] + times[n..];
      forall i | 0 <= i < n ensures times[i] < start {
        assert Apart(times, i, |times| - 1);
      }
      CountNone(times[..n], start, start + SPAN);
      CountAppend(times[..n], times[n..], start, start + SPAN);
      CountAtMostLength(times[n..], start, start + SPAN);
    } else {
      FrontToo(times);
      WindowBound(times[..|times| - 1], start);
    }
  }

  /** What the limiter remembers of all accepted calls: the last few, the others being too old to matter. */
  ghost predicate Remembers(callTimes: seq<real>, accepted: seq<real>, now: real) {
    var n := |accepted| - |callTimes|;
    && |callTimes| <= LIMIT && 0 <= n
    && callTimes == accepted[n..]
    && forall i :: 0 <= i < n ==> now - accepted[i] > SPAN
  }

  /** All accepted calls are in order and spaced out, and the limiter remembers the recent ones. */
  ghost predicate Consistent(callTimes: seq<real>, accepted: seq<real>, now: real) {
    && Sorted(accepted) && Spaced(accepted) && Remembers(callTimes, accepted, now)
    && forall i :: 0 <= i < |accepted| ==> accepted[i] <= now
  }

  lemma LaterConsistent(callTimes: seq<real>, accepted: seq<real>, clock: real, now: real)
    requires Consistent(callTimes, accepted, clock) && (accepted != [] ==> clock <= now)
    ensures Consistent(callTimes, accepted, now)
  {
  }

  /** When everything remembered is in the minute ending now, its number is the minute's count. */
  lemma RememberedCount(callTimes: seq<real>, accepted: seq<real>, now: real)
    requires Consistent(callTimes, accepted, now) && (callTimes == [] || now - callTimes[0] <= SPAN)
    ensures CountIn(accepted, now - SPAN, now) == |callTimes|
  {
    var n := |accepted| - |callTimes|;
    assert accepted == accepted[..n] + callTimes;
    CountAppend(accepted[..n], callTimes, now - SPAN, now);
    CountNone(accepted[..n], now - SPAN, now);
    forall i | 0 <= i < |callTimes| ensures now - SPAN <= callTimes[i] <= now {
      assert callTimes[i] == accepted[n + i] && callTimes[0] == accepted[n];
      assert i > 0 ==> InOrder(accepted, n, n + i);
    }
    CountAll(callTimes, now - SPAN, now);
  }

  /** Accepting a call while fewer than sixty are remembered keeps the calls sorted and spaced. */
  lemma StaySpaced(callTimes: seq<real>, accepted: seq<real>, now: real)
    requires Consistent(callTimes, accepted, now) && |callTimes| < LIMIT
    ensures Consistent(callTimes + [now], accepted + [now], now)
  {
    var n, more := |accepted| - |callTimes|, accepted + [now];
    assert more[n..] == callTimes + [now];
    forall i, j | 0 <= i < j < |more| ensures InOrder(more, i, j) {
      assert j < |accepted| ==> InOrder(accepted, i, j);
    }
    forall i, j | 0 <= i && i + LIMIT <= j < |more| ensures Apart(more, i, j) {
      assert j < |accepted| ==> Apart(accepted, i, j);
    }
  }

  lemma ForgetOldest(callTimes: seq<real>, accepted: seq<real>, now: real)
    requires Consistent(callTimes, accepted, now) && callTimes != [] && now - callTimes[0] > SPAN
    ensures Consistent(callTimes[1..], accepted, now)
  {
    var n := |accepted| - |callTimes|;
    assert accepted[n + 1..] == callTimes[1..] && accepted[n] == callTimes[0];
  }

  class Limiter {
    const apiKey: string
    var callTimes: seq<real>
    /** Every accepted call, and the latest reading of the clock. */
    ghost var accepted: seq<real>
    ghost var clock: real

    ghost predicate Valid()
      reads this
    {
      Consistent(callTimes, accepted, clock)
    }

    constructor (apiKey: string)
      ensures Valid() && this.apiKey == apiKey && accepted == []
    {
      this.apiKey := apiKey;
      callTimes, accepted, clock := [], [], 0.0;
    }

    /** Refuses a call with a good key exactly when sixty were accepted in the minute that ends now. */
    method VerifyIntegrationKey(given: Option<string>, now: real) returns (verdict: Verdict)
      requires Valid() && (accepted != [] ==> clock <= now)
      modifies this
      ensures Valid()
      ensures verdict == (
        if apiKey == "" then Disabled
        else if given != Some(apiKey) then Unauthorized
        else if CountIn(old(accepted), now - 60.0, now) >= 60 then Limited
        else Accepted)
      ensures accepted == if verdict.Accepted? then old(accepted) + [now] else old(accepted)
    {
      if apiKey == "" {
        return Disabled;
      }
      if given.None? || given.value != apiKey {
        return Unauthorized;
      }
      var ok := Admit(now);
      return if ok then Accepted else Limited;
    }

    /** The sliding window itself. */
    method Admit(now: real) returns (ok: bool)
      requires Valid() && (accepted != [] ==> clock <= now)
      modifies this
      ensures Valid()
      ensures ok <==> CountIn(old(accepted), now - 60.0, now) < 60
      ensures accepted == if ok then old(accepted) + [now] else old(accepted)
    {
      LaterConsistent(callTimes, accepted, clock, now);
      clock := now;
      DropExpired(now);
      if |callTimes| >= LIMIT {
        return false;
      }
      StaySpaced(callTimes, accepted, now);
      callTimes, accepted := callTimes + [now], accepted + [now];
      return true;
    }

    /** Forgets the calls that are more than a minute old. */
    method DropExpired(now: real)
      requires Consistent(callTimes, accepted, now)
      modifies this`callTimes
      ensures Consistent(callTimes, accepted, now) && |callTimes| == CountIn(accepted, now - SPAN, now)
    {
      while callTimes != [] && now - callTimes[0] > SPAN
        invariant Consistent(callTimes, accepted, now)
        decreases |callTimes|
      {
        ForgetOldest(callTimes, accepted, now);
        callTimes := callTimes[1..];
      }
      RememberedCount(callTimes, accepted, now);
    }
  }
}
