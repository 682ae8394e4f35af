/**
 Several services over one database store: every service claims a message, answers it,
 and marks or releases it, and their steps interleave in any way.
 */
module BotFleet {
  import opened Wrappers
  import opened ClaimStore
  import BotService

  /** Answering: claimed, not sent yet. Answered: to be marked. Refused: to be released. */
  datatype Phase = Answering | Answered | Refused

  datatype Work = Work(id: MessageId, phase: Phase)

  /** The tables, the work of every service at work by its token, and the answers delivered. */
  datatype Fleet = Fleet(tables: Tables, works: map<Token, Work>, answers: seq<MessageId>)

  /** A send that raises ends the service's poll, whether it has delivered the answer or not. */
  datatype Outcome = Delivered | Declined | Raised(delivered: bool)

  datatype Step =
    | Take(id: MessageId, now: int, token: Token)
    | Send(token: Token, outcome: Outcome)
    | Mark(token: Token)
    | Free(token: Token)

  const EMPTY_FLEET := Fleet(EMPTY_TABLES, map[], [])

  predicate At(f: Fleet, token: Token, phase: Phase) {
    token in f.works && f.works[token].phase == phase
  }

  predicate Possible(f: Fleet, step: Step) {
    match step
    case Take(_, _, token) => token !in f.works
    case Send(token, _) => At(f, token, Answering)
    case Mark(token) => At(f, token, Answered)
    case Free(token) => At(f, token, Refused)
  }

  function AfterSend(f: Fleet, token: Token, outcome: Outcome): Fleet
    requires token in f.works
  {
    var id := f.works[token].id;
    match outcome
    case Delivered => f.(works := f.works[token := Work(id, Answered)], answers := f.answers + [id])
    case Declined => f.(works := f.works[token := Work(id, Refused)])
    case Raised(delivered) =>
      f.(works := f.works - {token}, answers := if delivered then f.answers + [id] else f.answers)
  }

  function AfterStep(f: Fleet, step: Step, ttl: int): Fleet
    requires Possible(f, step)
  {
    match step
    case Take(id, now, token) =>
      var claim := Claim(id, now, token);
      f.(tables := After(f.tables, claim, ttl),
         works := if Granted(f.tables, claim, ttl) then f.works[token := Work(id, Answering)] else f.works)
    case Send(token, outcome) => AfterSend(f, token, outcome)
    case Mark(token) =>
      f.(tables := After(f.tables, MarkSeen(f.works[token].id, token), ttl), works := f.works - {token})
    case Free(token) =>
      f.(tables := After(f.tables, Release(f.works[token].id, token), ttl), works := f.works - {token})
  }

  // ---------- One answer per message ----------

  /** A service is about to answer the message, or has answered it and not marked it yet. */
  predicate Active(f: Fleet, token: Token, id: MessageId) {
    token in f.works && f.works[token].id == id && !f.works[token].phase.Refused?
  }

  ghost predicate Answers(f: Fleet, id: MessageId) {
    exists t :: Active(f, t, id)
  }

  /** Only its lease keeps the message from being answered by another service. */
  ghost predicate Guarded(f: Fleet, id: MessageId) {
    Answers(f, id) || (id in f.answers && id !in f.tables.seen)
  }

  /** One service at most is active on the message and holds its lease; an answered one is seen or leased. */
  ghost predicate ExclusiveFor(f: Fleet, id: MessageId) {
    && (forall t, u :: Active(f, t, id) && Active(f, u, id) ==> t == u)
    && (forall t :: Active(f, t, id) ==> Holds(f.tables, id, t) && id !in f.tables.seen)
    && (id in f.answers && id !in f.tables.seen ==> id in f.tables.claims)
    && (forall t :: Active(f, t, id) ==> (At(f, t, Answered) <==> id in f.answers))
    && (forall t :: At(f, t, Refused) && f.works[t].id == id && Holds(f.tables, id, t) ==> !Guarded(f, id))
    && multiset(f.answers)[id] <= 1
  }

  /** The purge of a claim call, on whatever message, takes the lease that guards this one. */
  ghost predicate TakesLease(f: Fleet, step: Step, id: MessageId, ttl: int) {
    && step.Take? && step.id !in f.tables.seen && Guarded(f, id)
    && id in f.tables.claims && f.tables.claims[id].claimedAt < step.now - ttl
  }

  /** A claim is granted only on a message that nothing guards any more, unless it takes the lease. */
  lemma GrantedTakes(f: Fleet, id: MessageId, now: int, token: Token, ttl: int)
    requires token !in f.works && ExclusiveFor(f, id) && !TakesLease(f, Take(id, now, token), id, ttl)
    requires Granted(f.tables, Claim(id, now, token), ttl)
    ensures ExclusiveFor(AfterStep(f, Take(id, now, token), ttl), id)
  {
    assert !Guarded(f, id) && id !in f.answers;
    var f' := AfterStep(f, Take(id, now, token), ttl);
    forall t | Active(f', t, id) ensures t == token {
      assert t != token ==> Active(f, t, id);
    }
  }

  /** The message, its work and, if something guards it, its lease are as before. */
  ghost predicate Untouched(f: Fleet, f': Fleet, id: MessageId) {
    && multiset(f'.answers)[id] == multiset(f.answers)[id] && (id in f'.answers <==> id in f.answers)
    && (id in f'.tables.seen <==> id in f.tables.seen)
    && (forall t :: t in f'.works && f'.works[t].id == id <==> t in f.works && f.works[t].id == id)
    && (forall t :: t in f.works && f.works[t].id == id ==> f'.works[t] == f.works[t])
    && (id in f'.tables.claims ==> id in f.tables.claims && f'.tables.claims[id] == f.tables.claims[id])
    && (Guarded(f, id) ==> (id in f.tables.claims ==> id in f'.tables.claims))
  }

  lemma UntouchedKeeps(f: Fleet, f': Fleet, id: MessageId)
    requires ExclusiveFor(f, id) && Untouched(f, f', id)
    ensures ExclusiveFor(f', id)
  {
    forall t ensures Active(f', t, id) <==> Active(f, t, id) {
    }
    assert Guarded(f', id) ==> Guarded(f, id);
    forall t | Active(f', t, id) ensures Holds(f'.tables, id, t) && id !in f'.tables.seen {
      assert Active(f, t, id);
    }
    forall t | Active(f', t, id) ensures At(f', t, Answered) <==> id in f'.answers {
      assert Active(f, t, id);
    }
  }

  lemma TakeKeeps(f: Fleet, step: Step, id: MessageId, ttl: int)
    requires Possible(f, step) && step.Take? && ExclusiveFor(f, id) && !TakesLease(f, step, id, ttl)
    ensures ExclusiveFor(AfterStep(f, step, ttl), id)
  {
    if step.id == id && Granted(f.tables, Claim(id, step.now, step.token), ttl) {
      GrantedTakes(f, id, step.now, step.token, ttl);
    } else {
      UntouchedKeeps(f, AfterStep(f, step, ttl), id);
    }
  }

  lemma SendKeeps(f: Fleet, token: Token, outcome: Outcome, id: MessageId)
    requires At(f, token, Answering) && ExclusiveFor(f, id)
    ensures ExclusiveFor(AfterSend(f, token, outcome), id)
  {
    var f' := AfterSend(f, token, outcome);
    if f.works[token].id != id {
      UntouchedKeeps(f, f', id);
    } else {
      assert Active(f, token, id) && id !in f.answers;
      forall t | Active(f', t, id) ensures t == token {
        assert t != token ==> Active(f, t, id);
      }
    }
  }

  lemma MarkKeeps(f: Fleet, step: Step, id: MessageId, ttl: int)
    requires Possible(f, step) && (step.Mark? || step.Free?) && ExclusiveFor(f, id)
    ensures ExclusiveFor(AfterStep(f, step, ttl), id)
  {
    var f' := AfterStep(f, step, ttl);
    forall t | Active(f', t, id) ensures Active(f, t, id) {
    }
    if step.Mark? && f.works[step.token].id == id {
      assert Active(f, step.token, id);
    }
    if Guarded(f', id) {
      assert Guarded(f, id);
    }
  }

  lemma TakenStep(f: Fleet, step: Step, id: MessageId, ttl: int)
    requires Possible(f, step) && TakesLease(f, step, id, ttl)
    ensures !ExclusiveFor(AfterStep(f, step, ttl), id) && Guarded(AfterStep(f, step, ttl), id)
    ensures if step.id == id then Active(AfterStep(f, step, ttl), step.token, id)
            else id !in AfterStep(f, step, ttl).tables.claims
  {
    var f' := AfterStep(f, step, ttl);
    if Answers(f, id) {
      var t :| Active(f, t, id);
      assert Active(f', t, id) && t != step.token;
    }
    if step.id == id {
      assert Active(f', step.token, id) && At(f', step.token, Answering);
    }
  }

  /** A step ends the exclusive work on a message exactly when its purge takes the lease that guards it. */
  lemma {:induction false} ExclusiveStep(f: Fleet, step: Step, id: MessageId, ttl: int)
    requires Possible(f, step) && ExclusiveFor(f, id)
    ensures ExclusiveFor(AfterStep(f, step, ttl), id) <==> !TakesLease(f, step, id, ttl)
  {
    if TakesLease(f, step, id, ttl) {
      TakenStep(f, step, id, ttl);
    } else {
      match step {
        case Take(_, _, _) => TakeKeeps(f, step, id, ttl);
        case Send(token, outcome) => SendKeeps(f, token, outcome, id);
        case Mark(_) => MarkKeeps(f, step, id, ttl);
        case Free(_) => MarkKeeps(f, step, id, ttl);
      }
    }
  }

  // ---------- Runs ----------

  datatype Run = Run(ttl: int, states: seq<Fleet>, steps: seq<Step>)

  predicate StepAt(r: Run, i: nat)
    requires i < |r.steps| < |r.states|
  {
    Possible(r.states[i], r.steps[i]) && r.states[i + 1] == AfterStep(r.states[i], r.steps[i], r.ttl)
  }

  ghost predicate IsRun(r: Run) {
    && |r.states| == |r.steps| + 1 && r.states[0] == EMPTY_FLEET
    && forall i :: 0 <= i < |r.steps| ==> StepAt(r, i)
  }

  /** No purge of the first i steps takes the lease that guards the message. */
  ghost predicate LeaseKept(r: Run, id: MessageId, i: nat)
    requires IsRun(r) && i <= |r.steps|
  {
    forall m :: 0 <= m < i ==> !TakesLease(r.states[m], r.steps[m], id, r.ttl)
  }

  /** Whatever the services do, a message is answered at most once while its lease is kept. */
  lemma {:induction false} FleetAnswersOnce(r: Run, id: MessageId, i: nat)
    requires IsRun(r) && i < |r.states| && LeaseKept(r, id, i)
    ensures ExclusiveFor(r.states[i], id) && multiset(r.states[i].answers)[id] <= 1
  {
    if i > 0 {
      FleetAnswersOnce(r, id, i - 1);
      assert StepAt(r, i - 1);
      ExclusiveStep(r.states[i - 1], r.steps[i - 1], id, r.ttl);
    }
  }

  /** Services exclude each other on a message all along exactly when its lease is kept. */
  lemma {:induction false} ExclusiveIff(r: Run, id: MessageId, i: nat)
    requires IsRun(r) && i < |r.states|
    ensures (forall j :: 0 <= j <= i ==> ExclusiveFor(r.states[j], id)) <==> LeaseKept(r, id, i)
  {
    if LeaseKept(r, id, i) {
      forall j | 0 <= j <= i ensures ExclusiveFor(r.states[j], id) {
        FleetAnswersOnce(r, id, j);
      }
    }
    if forall j :: 0 <= j <= i ==> ExclusiveFor(r.states[j], id) {
      forall m | 0 <= m < i ensures !TakesLease(r.states[m], r.steps[m], id, r.ttl) {
        assert StepAt(r, m);
        ExclusiveStep(r.states[m], r.steps[m], id, r.ttl);
      }
    }
  }

  /** From a state, at most two claims and sends that succeed lead to a second answer. */
  ghost predicate CanRepeat(f: Fleet, id: MessageId, ttl: int) {
    exists steps: seq<Step> :: Runs(f, steps, ttl) && multiset(Final(f, steps, ttl).answers)[id] >= 2
  }

  predicate Runs(f: Fleet, steps: seq<Step>, ttl: int)
    decreases |steps|
  {
    steps == [] || (Possible(f, steps[0]) && Runs(AfterStep(f, steps[0], ttl), steps[1..], ttl))
  }

  function Final(f: Fleet, steps: seq<Step>, ttl: int): Fleet
    requires Runs(f, steps, ttl)
    decreases |steps|
  {
    if steps == [] then f else Final(AfterStep(f, steps[0], ttl), steps[1..], ttl)
  }

  lemma RunsOn(f: Fleet, step: Step, rest: seq<Step>, ttl: int)
    requires Possible(f, step) && Runs(AfterStep(f, step, ttl), rest, ttl)
    ensures Runs(f, [step] + rest, ttl) && Final(f, [step] + rest, ttl) == Final(AfterStep(f, step, ttl), rest, ttl)
  {
    assert ([step] + rest)[1..] == rest;
  }

  lemma CanRepeatOn(f: Fleet, step: Step, id: MessageId, ttl: int)
    requires Possible(f, step) && CanRepeat(AfterStep(f, step, ttl), id, ttl)
    ensures CanRepeat(f, id, ttl)
  {
    var rest :| Runs(AfterStep(f, step, ttl), rest, ttl)
      && multiset(Final(AfterStep(f, step, ttl), rest, ttl).answers)[id] >= 2;
    RunsOn(f, step, rest, ttl);
  }

  lemma RepeatedNow(f: Fleet, id: MessageId, ttl: int)
    requires multiset(f.answers)[id] >= 2
    ensures CanRepeat(f, id, ttl)
  {
    assert Runs(f, [], ttl) && Final(f, [], ttl) == f;
  }

  /** A service about to answer an answered message, or a second one about to answer, repeats the answer. */
  lemma SendRepeats(f: Fleet, t: Token, id: MessageId, ttl: int)
    requires Active(f, t, id) && At(f, t, Answering) && id in f.answers
    ensures CanRepeat(f, id, ttl)
  {
    var step := Send(t, Delivered);
    assert multiset(AfterStep(f, step, ttl).answers)[id] >= 2;
    RepeatedNow(AfterStep(f, step, ttl), id, ttl);
    CanRepeatOn(f, step, id, ttl);
  }

  lemma TwoRepeat(f: Fleet, t: Token, u: Token, id: MessageId, ttl: int)
    requires Active(f, t, id) && Active(f, u, id) && t != u && At(f, u, Answering)
    requires At(f, t, Answered) ==> id in f.answers
    ensures CanRepeat(f, id, ttl)
  {
    if At(f, t, Answering) {
      var step := Send(t, Delivered);
      var f' := AfterStep(f, step, ttl);
      assert Active(f', u, id) && At(f', u, Answering) && id in f'.answers;
      SendRepeats(f', u, id, ttl);
      CanRepeatOn(f, step, id, ttl);
    } else {
      SendRepeats(f, u, id, ttl);
    }
  }

  /** Once a lease has been taken so, services with a token to spare can answer the message twice. */
  lemma {:induction false} TakenCanRepeat(r: Run, id: MessageId, m: nat, token: Token)
    requires IsRun(r) && m < |r.steps| && LeaseKept(r, id, m) && TakesLease(r.states[m], r.steps[m], id, r.ttl)
    requires token !in r.states[m + 1].works
    ensures CanRepeat(r.states[m + 1], id, r.ttl)
  {
    FleetAnswersOnce(r, id, m);
    assert StepAt(r, m);
    var f, step, f' := r.states[m], r.steps[m], r.states[m + 1];
    TakenStep(f, step, id, r.ttl);
    if step.id == id {
      SecondRepeats(f, f', step.token, id, r.ttl);
    } else {
      var again := Take(id, 0, token);
      var f'' := AfterStep(f', again, r.ttl);
      assert id !in Purged(f'.tables.claims, 0, r.ttl);
      assert Active(f'', token, id);
      SecondRepeats(f, f'', token, id, r.ttl);
      CanRepeatOn(f', again, id, r.ttl);
    }
  }

  lemma SecondRepeats(f: Fleet, f': Fleet, u: Token, id: MessageId, ttl: int)
    requires ExclusiveFor(f, id) && Guarded(f, id) && u !in f.works && At(f', u, Answering) && f'.works[u].id == id
    requires f'.answers == f.answers && forall t :: t in f.works ==> t in f'.works && f'.works[t] == f.works[t]
    ensures CanRepeat(f', id, ttl)
  {
    if id in f.answers {
      SendRepeats(f', u, id, ttl);
    } else {
      var t :| Active(f, t, id);
      assert Active(f', t, id) && Active(f', u, id);
      TwoRepeat(f', t, u, id, ttl);
    }
  }

  // ---------- One service alone ----------

  /** The steps that serve one offer. */
  function StepsOf(offer: BotService.Offer): seq<Step> {
    [Take(offer.id, offer.now, offer.token)]
    + match offer.send
      case Delivered => [Send(offer.token, Delivered)] + [Mark(offer.token)]
      case Declined => [Send(offer.token, Declined)] + [Free(offer.token)]
      case Raised => [Send(offer.token, Raised(false))]
  }

  /** Serving a granted offer step by step is what the loop of one service does at once. */
  lemma AloneServes(f: Fleet, offer: BotService.Offer, ttl: int)
    requires f.works == map[] && Granted(f.tables, Claim(offer.id, offer.now, offer.token), ttl)
    ensures Runs(f, StepsOf(offer), ttl)
    ensures var after := BotService.ServeDesk(BotService.Desk(f.tables, f.answers, false), offer, ttl);
      Final(f, StepsOf(offer), ttl) == Fleet(after.tables, map[], after.answers)
  {
    var take, token := Take(offer.id, offer.now, offer.token), offer.token;
    var f1 := AfterStep(f, take, ttl);
    var outcome := match offer.send case Delivered => Delivered case Declined => Declined case Raised => Raised(false);
    var f2 := AfterStep(f1, Send(token, outcome), ttl);
    match offer.send {
      case Delivered =>
        assert [Mark(token)] == [Mark(token)] + [];
        RunsOn(f2, Mark(token), [], ttl);
        RunsOn(f1, Send(token, outcome), [Mark(token)], ttl);
        RunsOn(f, take, [Send(token, outcome)] + [Mark(token)], ttl);
      case Declined =>
        assert [Free(token)] == [Free(token)] + [];
        RunsOn(f2, Free(token), [], ttl);
        RunsOn(f1, Send(token, outcome), [Free(token)], ttl);
        RunsOn(f, take, [Send(token, outcome)] + [Free(token)], ttl);
      case Raised =>
        assert [Send(token, outcome)] == [Send(token, outcome)] + [];
        RunsOn(f1, Send(token, outcome), [], ttl);
        RunsOn(f, take, [Send(token, outcome)], ttl);
    }
  }

  // ---------- A slow service ----------

  /** A service marks its answer more than the lifetime of a claim after taking it; another answers again. */
  lemma SlowServiceAnswersTwice()
    ensures var steps :=
        [Take("m", 0, "t")] + ([Send("t", Delivered)] + ([Take("m", 301, "u")] + [Send("u", Delivered)]));
      Runs(EMPTY_FLEET, steps, 300) && Final(EMPTY_FLEET, steps, 300).answers == ["m", "m"]
  {
    var f1 := Fleet(Tables({}, map["m" := Lease("t", 0)]), map["t" := Work("m", Answering)], []);
    var f2 := Fleet(Tables({}, map["m" := Lease("t", 0)]), map["t" := Work("m", Answered)], ["m"]);
    var works := map["t" := Work("m", Answered), "u" := Work("m", Answering)];
    var f3 := Fleet(Tables({}, map["m" := Lease("u", 301)]), works, ["m"]);
    assert AfterStep(EMPTY_FLEET, Take("m", 0, "t"), 300) == f1;
    assert AfterStep(f1, Send("t", Delivered), 300) == f2;
    assert Purged(f2.tables.claims, 301, 300) == map[];
    assert AfterStep(f2, Take("m", 301, "u"), 300) == f3;
    var last := [Send("u", Delivered)];
    assert last == [Send("u", Delivered)] + [];
    RunsOn(f3, Send("u", Delivered), [], 300);
    RunsOn(f2, Take("m", 301, "u"), last, 300);
    RunsOn(f1, Send("t", Delivered), [Take("m", 301, "u")] + last, 300);
    RunsOn(EMPTY_FLEET, Take("m", 0, "t"), [Send("t", Delivered)] + ([Take("m", 301, "u")] + last), 300);
    assert Final(f3, last, 300).answers == ["m", "m"];
  }
}
