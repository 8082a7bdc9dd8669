/** The `while` statement: re-evaluate the condition, run the body statements
    in order until one of them does not succeed, and absorb Break and Continue.

    The condition and the statements are outside this model, so they are
    parameters: `condition(j)` is the value of the j-th evaluation of the
    condition, and `run(j, i)` is what statement i of the body returns when it
    runs in iteration j. An always-true condition never ends the loop, so every
    run is bounded by `fuel`, the number of condition evaluations allowed; a
    run that used up its fuel is reported as not finished. */
module WhileLoops {
  import opened Execution

  /** What an execution of the loop does, in order. */
  datatype Event =
    | Evaluated(value: bool)                                  // the condition was evaluated
    | Ran(iteration: nat, index: nat, result: ExecutionResult) // a body statement ran

  /** What one pass over the body produced: the carried result and the statements run. */
  datatype BodyRun = BodyRun(result: ExecutionResult, trace: seq<Event>)

  /** What an execution of the loop produced: its result, what it did, and
      whether it ended on its own (rather than by running out of fuel). */
  datatype LoopRun = LoopRun(result: ExecutionResult, trace: seq<Event>, finished: bool)

  /** One pass over body statements i.. of an n-statement body, in iteration
      `iteration`: a statement runs only while every earlier one succeeded. */
  function RunBody(run: (nat, nat) -> ExecutionResult, iteration: nat, n: nat, i: nat): BodyRun
    decreases n - i
  {
    if i >= n then BodyRun(Success, [])
    else
      var x := run(iteration, i);
      if x == Success then
        var rest := RunBody(run, iteration, n, i + 1);
        BodyRun(rest.result, [Ran(iteration, i, x)] + rest.trace)
      else
        BodyRun(x, [Ran(iteration, i, x)])
  }

  /** The loop from iteration `iteration` on, with `fuel` condition evaluations left. */
  function Loop(condition: nat -> bool, run: (nat, nat) -> ExecutionResult, n: nat, iteration: nat, fuel: nat): LoopRun
    decreases fuel
  {
    if fuel == 0 then LoopRun(Success, [], false)
    else if !condition(iteration) then LoopRun(Success, [Evaluated(false)], true)
    else
      var body := RunBody(run, iteration, n, 0);
      var head := [Evaluated(true)] + body.trace;
      match body.result
      case Break => LoopRun(Success, head, true)
      case Error => LoopRun(Error, head, true)
      case _ =>
        var rest := Loop(condition, run, n, iteration + 1, fuel - 1);
        LoopRun(rest.result, head + rest.trace, rest.finished)
  }

  /** `run` with the events `t` done before it. */
  function After(t: seq<Event>, r: LoopRun): LoopRun
  {
    LoopRun(r.result, t + r.trace, r.finished)
  }

  class WhileLoop {
    const body: seq<Executable>
    var parent: object?

    constructor (body: seq<Executable>)
      ensures this.body == body && parent == null
    {
      this.body := body;
      parent := null;
    }

    /** Executes the loop: every body statement is first linked to the loop,
        then the condition and the body alternate as the loop prescribes. */
    method Execute(condition: nat -> bool, run: (nat, nat) -> ExecutionResult, fuel: nat) returns (outcome: LoopRun)
      modifies body
      ensures forall s :: s in body ==> s.parent == this
      ensures outcome == Loop(condition, run, |body|, 0, fuel)
    {
      LinkBody();
      outcome := RunLoop(condition, run, fuel);
    }

    /** `body.forEach { it.parent = this }`. */
    method LinkBody()
      modifies body
      ensures forall s :: s in body ==> s.parent == this
    {
      for k := 0 to |body|
        invariant forall j :: 0 <= j < k ==> body[j].parent == this
      {
        body[k].parent := this;
      }
    }

    /** The `while` loop proper: iterations follow one another until one
        of them ends the loop or the fuel runs out. */
    method RunLoop(condition: nat -> bool, run: (nat, nat) -> ExecutionResult, fuel: nat) returns (outcome: LoopRun)
      ensures outcome == Loop(condition, run, |body|, 0, fuel)
    {
      var n := |body|;
      var result := Success;
      var trace: seq<Event> := [];
      var finished := false;
      var iteration := 0;
      assert [] + Loop(condition, run, n, 0, fuel).trace == Loop(condition, run, n, 0, fuel).trace;
      while iteration < fuel
        invariant iteration <= fuel
        invariant result == Success && !finished
        invariant Loop(condition, run, n, 0, fuel) == After(trace, Loop(condition, run, n, iteration, fuel - iteration))
      {
        var events, stop;
        result, events, stop := Iterate(condition, run, iteration, fuel - iteration);
        if stop {
          trace := trace + events;
          finished := true;
          break;
        }
        AfterAppend(trace, events, Loop(condition, run, n, iteration + 1, fuel - iteration - 1));
        trace := trace + events;
        iteration := iteration + 1;
      }
      if !finished {
        assert Loop(condition, run, n, iteration, 0) == LoopRun(Success, [], false);
        assert trace + [] == trace;
      }
      outcome := LoopRun(result, trace, finished);
    }

    /** One iteration: evaluate the condition and, when it holds, make a pass
        over the body; Break ends the loop with Success, Continue goes on
        with Success, Error ends the loop with Error. */
    method Iterate(condition: nat -> bool, run: (nat, nat) -> ExecutionResult, iteration: nat, ghost fuel: nat)
      returns (result: ExecutionResult, events: seq<Event>, stop: bool)
      requires fuel > 0
      ensures stop ==> Loop(condition, run, |body|, iteration, fuel) == LoopRun(result, events, true)
      ensures !stop ==> result == Success
      ensures !stop ==> Loop(condition, run, |body|, iteration, fuel) == After(events, Loop(condition, run, |body|, iteration + 1, fuel - 1))
    {
      LoopUnfolds(condition, run, |body|, iteration, fuel);
      if !condition(iteration) {
        return Success, [Evaluated(false)], true;
      }
      var bodyTrace;
      result, bodyTrace := RunStatements(run, iteration);
      events := [Evaluated(true)] + bodyTrace;
      stop := false;
      if result == Break {
        result := Success;
        stop := true;
      } else if result == Continue {
        result := Success;
      } else if result == Error {
        stop := true;
      }
    }

    /** One pass over the body in iteration `iteration`: statements run in
        order while the carried result is Success. */
    method RunStatements(run: (nat, nat) -> ExecutionResult, iteration: nat) returns (result: ExecutionResult, bodyTrace: seq<Event>)
      ensures BodyRun(result, bodyTrace) == RunBody(run, iteration, |body|, 0)
    {
      var n := |body|;
      result := Success;
      bodyTrace := [];
      for i := 0 to n
        invariant result == Success ==>
          RunBody(run, iteration, n, 0) == BodyRun(RunBody(run, iteration, n, i).result, bodyTrace + RunBody(run, iteration, n, i).trace)
        invariant result != Success ==> RunBody(run, iteration, n, 0) == BodyRun(result, bodyTrace)
      {
        if result == Success {
          result := run(iteration, i);
          bodyTrace := bodyTrace + [Ran(iteration, i, result)];
        } else {
          break;
        }
      }
    }
  }

  lemma AfterAppend(t: seq<Event>, u: seq<Event>, r: LoopRun)
    ensures After(t, After(u, r)) == After(t + u, r)
  {
    assert t + (u + r.trace) == (t + u) + r.trace;
  }

  /** One evaluation of the condition and, when it holds, one pass over the body. */
  lemma LoopUnfolds(condition: nat -> bool, run: (nat, nat) -> ExecutionResult, n: nat, iteration: nat, fuel: nat)
    requires fuel > 0
    ensures !condition(iteration) ==> Loop(condition, run, n, iteration, fuel) == LoopRun(Success, [Evaluated(false)], true)
    ensures condition(iteration) ==>
      var b := RunBody(run, iteration, n, 0);
      var head := [Evaluated(true)] + b.trace;
      && (b.result == Break ==> Loop(condition, run, n, iteration, fuel) == LoopRun(Success, head, true))
      && (b.result == Error ==> Loop(condition, run, n, iteration, fuel) == LoopRun(Error, head, true))
      && (b.result in {Success, Continue} ==>
            Loop(condition, run, n, iteration, fuel) == After(head, Loop(condition, run, n, iteration + 1, fuel - 1)))
  {
  }

  /** Number of condition evaluations that came out true. */
  function TrueEvaluations(t: seq<Event>): nat
  {
    if t == [] then 0 else (if t[0] == Evaluated(true) then 1 else 0) + TrueEvaluations(t[1..])
  }

  /** Number of body statements that ran. */
  function Runs(t: seq<Event>): nat
  {
    if t == [] then 0 else (if t[0].Ran? then 1 else 0) + Runs(t[1..])
  }

  lemma {:induction false} CountsAppend(a: seq<Event>, b: seq<Event>)
    ensures TrueEvaluations(a + b) == TrueEvaluations(a) + TrueEvaluations(b)
    ensures Runs(a + b) == Runs(a) + Runs(b)
  {
    if a == [] {
      assert a + b == b;
    } else {
      assert (a + b)[0] == a[0];
      assert (a + b)[1..] == a[1..] + b;
      CountsAppend(a[1..], b);
    }
  }

  /** An event recording a statement that returned Success. */
  predicate Succeeded(e: Event)
  {
    e.Ran? && e.result == Success
  }

  /** Within one pass over the body, statements run in order from i, and a
      statement runs only if every earlier one returned Success; the pass
      carries Success only when all statements ran and succeeded, and
      otherwise carries the result of the last statement that ran. */
  lemma {:induction false} BodyShortCircuits(run: (nat, nat) -> ExecutionResult, iteration: nat, n: nat, i: nat)
    requires i <= n
    ensures var b := RunBody(run, iteration, n, i);
      && |b.trace| <= n - i
      && (forall k :: 0 <= k < |b.trace| ==> b.trace[k] == Ran(iteration, i + k, run(iteration, i + k)))
      && (forall k :: 0 <= k < |b.trace| - 1 ==> Succeeded(b.trace[k]))
      && (b.result == Success ==> |b.trace| == n - i && forall k :: 0 <= k < |b.trace| ==> Succeeded(b.trace[k]))
      && (b.result != Success ==> |b.trace| > 0 && b.trace[|b.trace| - 1] == Ran(iteration, i + |b.trace| - 1, b.result))
    decreases n - i
  {
    if i < n && run(iteration, i) == Success {
      BodyShortCircuits(run, iteration, n, i + 1);
      var rest := RunBody(run, iteration, n, i + 1);
      var t := [Ran(iteration, i, Success)] + rest.trace;
      assert RunBody(run, iteration, n, i) == BodyRun(rest.result, t);
      forall k | 0 <= k < |t|
        ensures t[k] == Ran(iteration, i + k, run(iteration, i + k))
      {
        if k > 0 { assert t[k] == rest.trace[k - 1]; }
      }
      forall k | 0 <= k < |t| && (k < |t| - 1 || rest.result == Success)
        ensures Succeeded(t[k])
      {
        if k > 0 { assert t[k] == rest.trace[k - 1]; }
      }
      if rest.result != Success {
        assert t[|t| - 1] == rest.trace[|rest.trace| - 1];
      }
    }
  }

  /** The events of one iteration, as the loop sees them: the evaluation that
      came out true, then the statements that ran, all but the last of them
      successful, the last one returning what the pass carries. */
  lemma HeadFacts(run: (nat, nat) -> ExecutionResult, iteration: nat, n: nat)
    ensures var b := RunBody(run, iteration, n, 0);
      var h := [Evaluated(true)] + b.trace;
      && (forall j :: 1 <= j < |h| ==> h[j].Ran?)
      && (forall j :: 1 <= j < |h| - 1 ==> Succeeded(h[j]))
      && (b.result != Success ==> |h| > 1 && h[|h| - 1].Ran? && h[|h| - 1].result == b.result)
      && (b.result == Success ==> forall j :: 1 <= j < |h| ==> Succeeded(h[j]))
  {
    BodyShortCircuits(run, iteration, n, 0);
    var b := RunBody(run, iteration, n, 0);
    var h := [Evaluated(true)] + b.trace;
    forall j | 1 <= j < |h|
      ensures h[j] == b.trace[j - 1]
    {
    }
  }

  /** The loop's result is never Break or Continue: both are absorbed. */
  lemma {:induction false} ResultIsSuccessOrError(condition: nat -> bool, run: (nat, nat) -> ExecutionResult, n: nat, iteration: nat, fuel: nat)
    ensures Loop(condition, run, n, iteration, fuel).result in {Success, Error}
    decreases fuel
  {
    if fuel > 0 && condition(iteration) {
      ResultIsSuccessOrError(condition, run, n, iteration + 1, fuel - 1);
    }
  }

  /** A condition that is false at the first evaluation runs no statement and
      the loop returns Success. */
  lemma FalseConditionRunsNothing(condition: nat -> bool, run: (nat, nat) -> ExecutionResult, n: nat, fuel: nat)
    requires fuel > 0 && !condition(0)
    ensures Loop(condition, run, n, 0, fuel) == LoopRun(Success, [Evaluated(false)], true)
  {
  }

  /** A run with fuel left starts by evaluating the condition. */
  lemma StartsWithEvaluation(condition: nat -> bool, run: (nat, nat) -> ExecutionResult, n: nat, iteration: nat, fuel: nat)
    requires fuel > 0
    ensures var t := Loop(condition, run, n, iteration, fuel).trace; |t| > 0 && t[0] == Evaluated(condition(iteration))
  {
  }

  /** A statement that did not succeed is followed by an evaluation of the
      condition or by nothing. */
  ghost predicate IterationStopsAtNonSuccess(t: seq<Event>)
  {
    forall k :: 0 <= k < |t| - 1 && t[k].Ran? && t[k].result != Success ==> t[k + 1].Evaluated?
  }

  /** Once a statement returns anything but Success, no later statement of that
      iteration runs: the next event, if any, is an evaluation of the condition. */
  lemma {:induction false} NothingRunsAfterNonSuccess(condition: nat -> bool, run: (nat, nat) -> ExecutionResult, n: nat, iteration: nat, fuel: nat)
    ensures IterationStopsAtNonSuccess(Loop(condition, run, n, iteration, fuel).trace)
    decreases fuel
  {
    var r := Loop(condition, run, n, iteration, fuel);
    if fuel > 0 && condition(iteration) {
      HeadFacts(run, iteration, n);
      var b := RunBody(run, iteration, n, 0);
      var head := [Evaluated(true)] + b.trace;
      if b.result == Break || b.result == Error {
        assert r.trace == head && r.finished;
      } else {
        var rest := Loop(condition, run, n, iteration + 1, fuel - 1);
        NothingRunsAfterNonSuccess(condition, run, n, iteration + 1, fuel - 1);
        assert IterationStopsAtNonSuccess(rest.trace);
        if fuel - 1 > 0 {
          StartsWithEvaluation(condition, run, n, iteration + 1, fuel - 1);
        }
        assert r == After(head, rest);
        forall k | 0 <= k < |r.trace| - 1
          ensures r.trace[k].Ran? && r.trace[k].result != Success ==> r.trace[k + 1].Evaluated?
        {
          if k < |head| - 1 {
            assert r.trace[k] == head[k];
          } else if k == |head| - 1 {
            assert r.trace[k + 1] == rest.trace[0];
          } else {
            assert r.trace[k] == rest.trace[k - |head|];
            assert r.trace[k + 1] == rest.trace[(k - |head|) + 1];
          }
        }
      }
    }
  }

  /** Every Break is the last event of the run, and the run then ended on
      its own with Success. */
  ghost predicate BreakIsLast(r: LoopRun)
  {
    forall k :: 0 <= k < |r.trace| && r.trace[k].Ran? && r.trace[k].result == Break ==>
      k == |r.trace| - 1 && r.finished && r.result == Success
  }

  /** A Break ends the loop at once with Success: it is the last event, so
      neither a statement nor the condition runs after it. */
  lemma {:induction false} BreakEndsLoop(condition: nat -> bool, run: (nat, nat) -> ExecutionResult, n: nat, iteration: nat, fuel: nat)
    ensures BreakIsLast(Loop(condition, run, n, iteration, fuel))
    decreases fuel
  {
    var r := Loop(condition, run, n, iteration, fuel);
    if fuel > 0 && condition(iteration) {
      HeadFacts(run, iteration, n);
      var b := RunBody(run, iteration, n, 0);
      var head := [Evaluated(true)] + b.trace;
      if b.result == Break || b.result == Error {
        assert r.trace == head && r.finished;
      } else {
        var rest := Loop(condition, run, n, iteration + 1, fuel - 1);
        BreakEndsLoop(condition, run, n, iteration + 1, fuel - 1);
        assert BreakIsLast(rest);
        assert r == After(head, rest);
        forall k | 0 <= k < |r.trace|
          ensures r.trace[k].Ran? && r.trace[k].result == Break ==> k == |r.trace| - 1 && r.finished && r.result == Success
        {
          if k < |head| {
            assert r.trace[k] == head[k];
            if 1 <= k < |head| - 1 || b.result == Success {
              assert k == 0 || Succeeded(head[k]);
            } else if 1 <= k {
              assert head[k].result == b.result;
            }
            assert !(r.trace[k].Ran? && r.trace[k].result == Break);
          } else {
            assert r.trace[k] == rest.trace[k - |head|];
          }
        }
      }
    }
  }

  /** Every Error is the last event of the run, which then ended on its own
      with Error; and the run returns Error only in that case. */
  ghost predicate ErrorIsLast(r: LoopRun)
  {
    && (forall k :: 0 <= k < |r.trace| && r.trace[k].Ran? && r.trace[k].result == Error ==>
          k == |r.trace| - 1 && r.finished && r.result == Error)
    && (r.result == Error ==> |r.trace| > 0 && r.trace[|r.trace| - 1].Ran? && r.trace[|r.trace| - 1].result == Error)
  }

  /** An Error ends the loop at once and is its result; and the loop returns
      Error only when the last thing it did was a statement returning Error. */
  lemma {:induction false} ErrorEndsLoop(condition: nat -> bool, run: (nat, nat) -> ExecutionResult, n: nat, iteration: nat, fuel: nat)
    ensures ErrorIsLast(Loop(condition, run, n, iteration, fuel))
    decreases fuel
  {
    var r := Loop(condition, run, n, iteration, fuel);
    if fuel > 0 && condition(iteration) {
      HeadFacts(run, iteration, n);
      var b := RunBody(run, iteration, n, 0);
      var head := [Evaluated(true)] + b.trace;
      if b.result == Break || b.result == Error {
        assert r.trace == head && r.finished;
      } else {
        var rest := Loop(condition, run, n, iteration + 1, fuel - 1);
        ErrorEndsLoop(condition, run, n, iteration + 1, fuel - 1);
        assert ErrorIsLast(rest);
        assert r == After(head, rest);
        forall k | 0 <= k < |r.trace|
          ensures r.trace[k].Ran? && r.trace[k].result == Error ==> k == |r.trace| - 1 && r.finished && r.result == Error
        {
          if k < |head| {
            assert r.trace[k] == head[k];
          } else {
            assert r.trace[k] == rest.trace[k - |head|];
          }
        }
        if r.result == Error {
          assert r.trace[|r.trace| - 1] == rest.trace[|rest.trace| - 1];
        }
      }
    }
  }

  /** After every Continue the condition is evaluated next, unless the fuel ran
      out at that point and the run is not finished. */
  ghost predicate ContinueResumes(r: LoopRun)
  {
    forall k {:trigger r.trace[k]} :: 0 <= k < |r.trace| && r.trace[k].Ran? && r.trace[k].result == Continue ==>
      (k + 1 < |r.trace| && r.trace[k + 1].Evaluated?) || (k == |r.trace| - 1 && !r.finished)
  }

  /** A Continue does not end the loop: the condition is evaluated next, unless
      the fuel ran out at that point (and then the run is not finished). */
  lemma {:induction false} ContinueReevaluates(condition: nat -> bool, run: (nat, nat) -> ExecutionResult, n: nat, iteration: nat, fuel: nat)
    ensures ContinueResumes(Loop(condition, run, n, iteration, fuel))
    decreases fuel
  {
    var r := Loop(condition, run, n, iteration, fuel);
    if fuel > 0 && condition(iteration) {
      HeadFacts(run, iteration, n);
      var b := RunBody(run, iteration, n, 0);
      var head := [Evaluated(true)] + b.trace;
      if b.result == Break || b.result == Error {
        assert r.trace == head && r.finished;
      } else {
        var rest := Loop(condition, run, n, iteration + 1, fuel - 1);
        ContinueReevaluates(condition, run, n, iteration + 1, fuel - 1);
        assert ContinueResumes(rest);
        if fuel - 1 > 0 {
          StartsWithEvaluation(condition, run, n, iteration + 1, fuel - 1);
        }
        assert r == After(head, rest);
        forall k | 0 <= k < |r.trace|
          ensures r.trace[k].Ran? && r.trace[k].result == Continue ==>
            (k + 1 < |r.trace| && r.trace[k + 1].Evaluated?) || (k == |r.trace| - 1 && !r.finished)
        {
          if k < |head| - 1 {
            assert r.trace[k] == head[k];
          } else if k == |head| - 1 {
            if fuel - 1 > 0 {
              assert r.trace[k + 1] == rest.trace[0];
            } else {
              assert rest == LoopRun(Success, [], false);
            }
          } else {
            var j := k - |head|;
            assert r.trace[k] == rest.trace[j];
            if k + 1 < |r.trace| {
              assert r.trace[k + 1] == rest.trace[j + 1];
            }
          }
        }
      }
    }
  }

  /** A pass over the body in which every statement succeeds runs all n statements. */
  lemma {:induction false} SuccessfulBodyRunsAll(run: (nat, nat) -> ExecutionResult, iteration: nat, n: nat, i: nat)
    requires i <= n
    requires forall j, k :: run(j, k) == Success
    ensures RunBody(run, iteration, n, i).result == Success
    ensures Runs(RunBody(run, iteration, n, i).trace) == n - i
    ensures TrueEvaluations(RunBody(run, iteration, n, i).trace) == 0
    decreases n - i
  {
    if i < n {
      SuccessfulBodyRunsAll(run, iteration, n, i + 1);
      var rest := RunBody(run, iteration, n, i + 1);
      assert ([Ran(iteration, i, Success)] + rest.trace)[1..] == rest.trace;
    }
  }

  /** When every statement succeeds, the body runs exactly once per true
      evaluation of the condition, the condition held at every one of those
      evaluations, and a finished loop stopped at the first false one. */
  lemma {:induction false} AllSuccessRunsBodyPerTrueEvaluation(condition: nat -> bool, run: (nat, nat) -> ExecutionResult, n: nat, iteration: nat, fuel: nat)
    requires forall j, k :: run(j, k) == Success
    ensures var r := Loop(condition, run, n, iteration, fuel);
      var e := TrueEvaluations(r.trace);
      && r.result == Success
      && Runs(r.trace) == n * e
      && (forall j :: iteration <= j < iteration + e ==> condition(j))
      && (r.finished ==> !condition(iteration + e))
      && (!r.finished ==> e == fuel)
    decreases fuel
  {
    var r := Loop(condition, run, n, iteration, fuel);
    if fuel > 0 && condition(iteration) {
      AllSuccessRunsBodyPerTrueEvaluation(condition, run, n, iteration + 1, fuel - 1);
      SuccessfulIteration(condition, run, n, iteration, fuel);
      var e := TrueEvaluations(Loop(condition, run, n, iteration + 1, fuel - 1).trace);
      assert n * (1 + e) == n + n * e;
    }
  }

  /** One iteration in which every statement succeeds adds one true
      evaluation and n statements to what the rest of the loop does. */
  lemma SuccessfulIteration(condition: nat -> bool, run: (nat, nat) -> ExecutionResult, n: nat, iteration: nat, fuel: nat)
    requires forall j, k :: run(j, k) == Success
    requires fuel > 0 && condition(iteration)
    ensures var r := Loop(condition, run, n, iteration, fuel);
      var rest := Loop(condition, run, n, iteration + 1, fuel - 1);
      && TrueEvaluations(r.trace) == 1 + TrueEvaluations(rest.trace)
      && Runs(r.trace) == n + Runs(rest.trace)
      && r.result == rest.result && r.finished == rest.finished
  {
    SuccessfulBodyRunsAll(run, iteration, n, 0);
    var b := RunBody(run, iteration, n, 0);
    var rest := Loop(condition, run, n, iteration + 1, fuel - 1);
    var head := [Evaluated(true)] + b.trace;
    CountsAppend([Evaluated(true)], b.trace);
    CountsAppend(head, rest.trace);
    assert TrueEvaluations([Evaluated(true)]) == 1;
    assert Runs([Evaluated(true)]) == 0;
  }
}
