/**
 A run of local edits and of their echoes from a server that keeps them in order.
 Which edits and echoes a run has performed does not depend on what the edits do.
 */
module EchoedTrace {
  /** Local: emitted by this board. Echo: the same log coming back from the server. */
  datatype Step<O> = Local(op: O) | Echo(op: O)

  function Locals<O>(trace: seq<Step<O>>): seq<O> {
    if trace == [] then []
    else
      var before, last := Locals(trace[..|trace| - 1]), trace[|trace| - 1];
      if last.Local? then before + [last.op] else before
  }

  function Echoes<O>(trace: seq<Step<O>>): seq<O> {
    if trace == [] then []
    else
      var before, last := Echoes(trace[..|trace| - 1]), trace[|trace| - 1];
      if last.Echo? then before + [last.op] else before
  }

  /** Every echo comes in log order and after the local edit it repeats. */
  ghost predicate Causal<O>(trace: seq<Step<O>>) {
    forall k :: 0 <= k <= |trace| ==> CausalAt(trace, k)
  }

  ghost predicate CausalAt<O>(trace: seq<Step<O>>, k: nat)
    requires k <= |trace|
  {
    Echoes(trace[..k]) <= Locals(trace[..k])
  }

  ghost predicate Complete<O>(trace: seq<Step<O>>) {
    Echoes(trace) == Locals(trace)
  }

  // ---------- Prefixes of a trace ----------

  lemma {:induction false} LocalsPrefix<O>(trace: seq<Step<O>>, k: nat)
    requires k <= |trace|
    ensures Locals(trace[..k]) <= Locals(trace)
    decreases |trace|
  {
    if k == |trace| {
      assert trace[..k] == trace;
    } else {
      var front := trace[..|trace| - 1];
      LocalsPrefix(front, k);
      assert front[..k] == trace[..k];
    }
  }

  lemma {:induction false} EchoesPrefix<O>(trace: seq<Step<O>>, k: nat)
    requires k <= |trace|
    ensures Echoes(trace[..k]) <= Echoes(trace)
    decreases |trace|
  {
    if k == |trace| {
      assert trace[..k] == trace;
    } else {
      var front := trace[..|trace| - 1];
      EchoesPrefix(front, k);
      assert front[..k] == trace[..k];
    }
  }

  /**
   A run that starts with the first e operations of a log emitted but still to be
   echoed: the others are emitted on the way, and no echo comes before its edit.
   */
  ghost predicate Follows<O>(trace: seq<Step<O>>, log: seq<O>, e: nat) {
    && e <= |log| && Locals(trace) == log[e..] && Echoes(trace) <= log
    && forall k :: 0 <= k <= |trace| ==> InStep(trace, e, k)
  }

  ghost predicate InStep<O>(trace: seq<Step<O>>, e: nat, k: nat)
    requires k <= |trace|
  {
    |Echoes(trace[..k])| <= e + |Locals(trace[..k])|
  }

  /** A step that performs the next operation of the log, or echoes the next one emitted. */
  ghost predicate StepAt<O>(before: seq<Step<O>>, step: Step<O>, log: seq<O>, e: nat) {
    var a, b := e + |Locals(before)|, |Echoes(before)|;
    && b <= a <= |log|
    && Locals(before) == log[e..a] && Echoes(before) == log[..b]
    && (step.Local? ==> a < |log| && step.op == log[a])
    && (step.Echo? ==> b < a && step.op == log[b])
  }

  lemma StepFits<O>(before: seq<Step<O>>, step: Step<O>, log: seq<O>, e: nat)
    requires e <= |log| && Locals(before) <= log[e..] && Locals(before + [step]) <= log[e..]
    requires Echoes(before) <= log && Echoes(before + [step]) <= log
    requires |Echoes(before)| <= e + |Locals(before)|
    requires |Echoes(before + [step])| <= e + |Locals(before + [step])|
    ensures StepAt(before, step, log, e)
  {
    LogsSnoc(before, step);
    assert Locals(before) == log[e..][..|Locals(before)|] == log[e..e + |Locals(before)|];
    if step.Local? {
      NextIn(Locals(before), step.op, log[e..]);
    } else {
      NextIn(Echoes(before), step.op, log);
    }
  }

  lemma StepBetween<O>(trace: seq<Step<O>>, log: seq<O>, e: nat, k: nat)
    requires k < |trace| && e <= |log| && InStep(trace, e, k) && InStep(trace, e, k + 1)
    requires Locals(trace[..k]) <= log[e..] && Locals(trace[..k + 1]) <= log[e..]
    requires Echoes(trace[..k]) <= log && Echoes(trace[..k + 1]) <= log
    ensures StepAt(trace[..k], trace[k], log, e) && trace[..k + 1] == trace[..k] + [trace[k]]
  {
    assert trace[..k + 1] == trace[..k] + [trace[k]];
    StepFits(trace[..k], trace[k], log, e);
  }

  /** Every step of such a run continues the log. */
  lemma StepOf<O>(trace: seq<Step<O>>, log: seq<O>, e: nat, k: nat)
    requires Follows(trace, log, e) && k < |trace|
    ensures StepAt(trace[..k], trace[k], log, e) && trace[..k + 1] == trace[..k] + [trace[k]]
  {
    LocalsPrefix(trace, k);
    LocalsPrefix(trace, k + 1);
    EchoesPrefix(trace, k);
    EchoesPrefix(trace, k + 1);
    StepBetween(trace, log, e, k);
  }

  /** A causal run is one that starts with nothing under way. */
  lemma CausalFollows<O>(trace: seq<Step<O>>)
    requires Causal(trace)
    ensures Follows(trace, Locals(trace), 0)
  {
    assert Locals(trace)[0..] == Locals(trace);
    assert trace[..|trace|] == trace && CausalAt(trace, |trace|);
    forall k | 0 <= k <= |trace| ensures InStep(trace, 0, k) {
      assert CausalAt(trace, k);
    }
  }

  /** The rest of a run, seen from the moment its first n steps are done. */
  lemma FollowsOn<O>(trace: seq<Step<O>>, log: seq<O>, e: nat, n: nat)
    requires Follows(trace, log, e) && n <= |trace|
    ensures var a, b := e + |Locals(trace[..n])|, |Echoes(trace[..n])|;
      b <= a <= |log| && Follows(trace[n..], log[b..], a - b)
  {
    var before, after := trace[..n], trace[n..];
    var a, b := e + |Locals(before)|, |Echoes(before)|;
    assert trace == before + after;
    LogsAppend(before, after);
    assert InStep(trace, e, n);
    assert Locals(after) == log[e..][|Locals(before)|..] == log[a..] == log[b..][a - b..];
    assert Echoes(trace) == log[..|Echoes(trace)|];
    assert Echoes(after) == Echoes(trace)[b..];
    assert Echoes(after) <= log[b..];
    var left := a - b;
    forall k | 0 <= k <= |after| ensures InStep(after, left, k) {
      assert InStep(trace, e, n + k);
      assert trace[..n + k] == before + after[..k];
      LogsAppend(before, after[..k]);
    }
  }

  lemma EchoOf<O>(trace: seq<Step<O>>, log: seq<O>, e: nat, n: nat, c: nat)
    requires Follows(trace, log, e) && n < |trace| && trace[n].Echo? && c == |Echoes(trace[..n])|
    ensures c < |log| && log[c] == trace[n].op && |Echoes(trace[..n + 1])| == c + 1
  {
    StepOf(trace, log, e, n);
    LogsSnoc(trace[..n], trace[n]);
  }

  lemma EchoesFrom<O>(trace: seq<Step<O>>, n: nat)
    requires n <= |trace|
    ensures |Echoes(trace[..n])| <= |Echoes(trace)|
    ensures Echoes(trace[n..]) == Echoes(trace)[|Echoes(trace[..n])|..]
  {
    assert trace == trace[..n] + trace[n..];
    LogsAppend(trace[..n], trace[n..]);
  }

  /** What follows an echo is a run of its own, with what was emitted by then under way. */
  lemma AfterEcho<O>(trace: seq<Step<O>>, log: seq<O>, e: nat, n: nat, c: nat)
    requires Follows(trace, log, e) && Echoes(trace) == log && n < |trace| && trace[n].Echo?
    requires c == |Echoes(trace[..n])|
    ensures c < |log| && log[c] == trace[n].op && c + 1 <= e + |Locals(trace[..n + 1])|
    ensures Follows(trace[n + 1..], log[c + 1..], e + |Locals(trace[..n + 1])| - (c + 1))
    ensures Echoes(trace[n + 1..]) == log[c + 1..]
  {
    EchoOf(trace, log, e, n, c);
    FollowsOn(trace, log, e, n + 1);
    EchoesFrom(trace, n + 1);
  }

  lemma NextIn<O>(done: seq<O>, op: O, log: seq<O>)
    requires done + [op] <= log
    ensures |done| < |log| && op == log[|done|] && done == log[..|done|]
  {
    assert (done + [op])[|done|] == op;
  }

  lemma LogsSnoc<O>(trace: seq<Step<O>>, step: Step<O>)
    ensures Locals(trace + [step]) == if step.Local? then Locals(trace) + [step.op] else Locals(trace)
    ensures Echoes(trace + [step]) == if step.Echo? then Echoes(trace) + [step.op] else Echoes(trace)
  {
    assert (trace + [step])[..|trace|] == trace;
  }

  /** What a step does to the echoes of a run that repeats the log. */
  lemma EchoesNext<O>(before: seq<Step<O>>, step: Step<O>, log: seq<O>)
    requires Echoes(before) <= log
    ensures step.Local? ==> Echoes(before + [step]) == Echoes(before)
    ensures step.Echo? && |Echoes(before)| < |log| && step.op == log[|Echoes(before)|] ==>
      Echoes(before + [step]) == log[..|Echoes(before)| + 1]
  {
    LogsSnoc(before, step);
  }

  lemma LocalsAt<O>(before: seq<Step<O>>, step: Step<O>, log: seq<O>, n: nat)
    requires StepAt(before, step, log, 0) && n == |Locals(before)| + if step.Local? then 1 else 0
    ensures n <= |log| && Locals(before + [step]) == log[..n]
  {
    LogsSnoc(before, step);
    assert log[0..|Locals(before)|] == log[..|Locals(before)|];
    if step.Local? {
      assert log[..n] == log[..n - 1] + [step.op];
    }
  }

  lemma {:induction false} LogsAppend<O>(a: seq<Step<O>>, b: seq<Step<O>>)
    ensures Locals(a + b) == Locals(a) + Locals(b) && Echoes(a + b) == Echoes(a) + Echoes(b)
  {
    if b == [] {
      assert a + b == a;
    } else {
      var front := b[..|b| - 1];
      assert (a + b)[..|a + b| - 1] == a + front;
      LogsAppend(a, front);
    }
  }

  // ---------- All edits first, then all echoes ----------

  function Edits<O>(log: seq<O>): seq<Step<O>> {
    seq(|log|, i requires 0 <= i < |log| => Local(log[i]))
  }

  function Returned<O>(log: seq<O>): seq<Step<O>> {
    seq(|log|, i requires 0 <= i < |log| => Echo(log[i]))
  }

  function EditsThenEchoes<O>(log: seq<O>): seq<Step<O>> {
    Edits(log) + Returned(log)
  }

  lemma {:induction false} EditsThenEchoesPrefix<O>(log: seq<O>, k: nat)
    requires k <= 2 * |log|
    ensures Locals(EditsThenEchoes(log)[..k]) == log[..if k < |log| then k else |log|]
    ensures Echoes(EditsThenEchoes(log)[..k]) == log[..if k < |log| then 0 else k - |log|]
  {
    if k > 0 {
      EditsThenEchoesPrefix(log, k - 1);
      var trace := EditsThenEchoes(log)[..k];
      assert trace[..k - 1] == EditsThenEchoes(log)[..k - 1];
      if k <= |log| {
        assert log[..k] == log[..k - 1] + [log[k - 1]];
      } else {
        var j := k - |log|;
        assert log[..j] == log[..j - 1] + [log[j - 1]];
      }
    }
  }

  lemma {:induction false} EditsThenEchoesCausal<O>(log: seq<O>)
    ensures Causal(EditsThenEchoes(log)) && Complete(EditsThenEchoes(log)) && Locals(EditsThenEchoes(log)) == log
  {
    var trace := EditsThenEchoes(log);
    forall k | 0 <= k <= |trace| ensures CausalAt(trace, k) {
      EditsThenEchoesPrefix(log, k);
    }
    EditsThenEchoesPrefix(log, |trace|);
    assert trace[..|trace|] == trace && log[..|log|] == log;
  }

  lemma {:induction false} LogsOfEchoes<O>(ops: seq<O>)
    ensures Locals(Returned(ops)) == [] && Echoes(Returned(ops)) == ops
  {
    if ops != [] {
      var front, last := ops[..|ops| - 1], ops[|ops| - 1];
      LogsOfEchoes(front);
      LogsSnoc(Returned(front), Echo(last));
      assert Returned(ops) == Returned(front) + [Echo(last)];
      assert ops == front + [last];
    }
  }

  /** Echoes at the end of a run. */
  lemma LogsOfReturned<O>(trace: seq<Step<O>>, ops: seq<O>)
    ensures Locals(trace + Returned(ops)) == Locals(trace)
    ensures Echoes(trace + Returned(ops)) == Echoes(trace) + ops
  {
    LogsAppend(trace, Returned(ops));
    LogsOfEchoes(ops);
  }

  // ---------- An operation echoed at once ----------

  function RoundTrip<O>(before: seq<Step<O>>, op: O): seq<Step<O>> {
    before + [Local(op)] + [Echo(op)]
  }

  lemma RoundTripLogs<O>(before: seq<Step<O>>, op: O)
    ensures Locals(RoundTrip(before, op)) == Locals(before) + [op]
    ensures Echoes(RoundTrip(before, op)) == Echoes(before) + [op]
  {
    LogsSnoc(before, Local(op));
    LogsSnoc(before + [Local(op)], Echo(op));
  }

  lemma RoundTripCausal<O>(before: seq<Step<O>>, op: O)
    requires Causal(before) && Complete(before)
    ensures Causal(RoundTrip(before, op)) && Complete(RoundTrip(before, op))
  {
    RoundTripLogs(before, op);
    LogsSnoc(before, Local(op));
    CausalSnoc(before, Local(op));
    CausalSnoc(before + [Local(op)], Echo(op));
  }

  lemma CausalSnoc<O>(before: seq<Step<O>>, step: Step<O>)
    requires Causal(before) && Echoes(before + [step]) <= Locals(before + [step])
    ensures Causal(before + [step])
  {
    var trace := before + [step];
    forall k | 0 <= k <= |trace| ensures CausalAt(trace, k) {
      if k < |trace| {
        assert trace[..k] == before[..k] && CausalAt(before, k);
      } else {
        assert trace[..k] == trace;
      }
    }
  }

  // ---------- Several edits, several echoes ----------

  lemma CausalNow<O>(trace: seq<Step<O>>)
    requires Causal(trace)
    ensures Echoes(trace) <= Locals(trace)
  {
    assert CausalAt(trace, |trace|) && trace[..|trace|] == trace;
  }

  lemma EditOnTop<O>(trace: seq<Step<O>>, op: O)
    requires Causal(trace)
    ensures Causal(trace + [Local(op)])
    ensures Locals(trace + [Local(op)]) == Locals(trace) + [op] && Echoes(trace + [Local(op)]) == Echoes(trace)
  {
    CausalNow(trace);
    LogsSnoc(trace, Local(op));
    CausalSnoc(trace, Local(op));
  }

  lemma EchoOnTop<O>(trace: seq<Step<O>>, op: O)
    requires Causal(trace) && Echoes(trace) + [op] <= Locals(trace)
    ensures Causal(trace + [Echo(op)])
    ensures Locals(trace + [Echo(op)]) == Locals(trace) && Echoes(trace + [Echo(op)]) == Echoes(trace) + [op]
  {
    LogsSnoc(trace, Echo(op));
    CausalSnoc(trace, Echo(op));
  }
}
