/**
 * The meaning of `execute` (src/index.js, class `Transaction`) as functions:
 * the forward pass over the stages, the reverse pass of compensations after
 * the first failure, and the outcome and the order of the calls they make.
 * `Transactions.Transaction.Execute` is proved to compute `Run`; the lemmas
 * here state what `Run` promises.
 */
module Execution {
  import opened Wrappers
  import opened Stages

  /** One invocation of a stage action, by stage index: the call log of a run. */
  datatype Event = CallBefore(stage: nat) | CallUp(stage: nat) | CallAfter(stage: nat) | CallDown(stage: nat)

  /**
   * How `execute` settles. `Completed` resolves with the accumulator and
   * `RolledBack` with the compensation results (most recent stage first);
   * `RollbackFailed` rejects with `Failed to process stage <stage>`;
   * `RollbackRejected` rejects with the reason of a rejected compensation,
   * passed on untouched by `Promise.all`.
   */
  datatype ExecResult =
    | Completed(data: Accumulator)
    | RolledBack(results: seq<Value>)
    | RollbackFailed(stage: string)
    | RollbackRejected
  {
    function Message(): string
      requires RollbackFailed?
    {
      "Failed to process stage " + stage
    }
  }

  /** The outcome of a run together with the calls it made, in order. */
  datatype Execution = Execution(result: ExecResult, calls: seq<Event>)

  /** The calls a stage that completes makes: before, up, after. */
  function StageCalls(i: nat): seq<Event> {
    [CallBefore(i), CallUp(i), CallAfter(i)]
  }

  /** The calls of stages 0..n-1 when all of them complete, in stage order. */
  function CompletedCalls(n: nat): seq<Event> {
    if n == 0 then [] else CompletedCalls(n - 1) + StageCalls(n - 1)
  }

  /** The calls stage `i` makes and, when `before`, `up` and `after` all succeed, the `up` result. */
  datatype StageRun = StageRun(calls: seq<Event>, result: Option<Value>)

  /**
   * Body of the `try` for stage `i`: `before(data)`, then `up(data)`, then
   * `after(d)`, each awaited; any rejection or throw ends the stage.
   */
  function RunStage(s: Stage, i: nat, data: Accumulator): StageRun {
    if !s.before(data).Resolved? then StageRun([CallBefore(i)], None)
    else
      var d := s.up(data);
      if !d.Resolved? then StageRun([CallBefore(i), CallUp(i)], None)
      else if !s.after(d.value).Resolved? then StageRun([CallBefore(i), CallUp(i), CallAfter(i)], None)
      else StageRun([CallBefore(i), CallUp(i), CallAfter(i)], Some(d.value))
  }

  /**
   * A stage completes exactly when its `before`, its `up` and then its
   * `after` on the `up` result all resolve, and it yields the `up` result.
   * `up` is invoked only once `before` resolved and `after` only once `up`
   * resolved.
   */
  lemma RunStageSpec(s: Stage, i: nat, data: Accumulator)
    ensures var run := RunStage(s, i, data);
      && (run.result.Some? <==>
            s.before(data).Resolved? && s.up(data).Resolved? && s.after(s.up(data).value).Resolved?)
      && (run.result.Some? ==> s.up(data) == Resolved(run.result.value))
      && 1 <= |run.calls| <= 3
      && run.calls == StageCalls(i)[..|run.calls|]
      && (2 <= |run.calls| <==> s.before(data).Resolved?)
      && (3 <= |run.calls| <==> s.before(data).Resolved? && s.up(data).Resolved?)
  {
  }

  /** The state of the forward loop: calls made, accumulator, and the stage that failed, if any. */
  datatype Progress = Progress(calls: seq<Event>, data: Accumulator, failed: Option<nat>)

  /** One iteration of the forward loop, at stage `i`; nothing happens once a stage has failed. */
  function Step(stages: seq<Stage>, i: nat, p: Progress): Progress
    requires i < |stages|
  {
    if p.failed.Some? then p
    else
      var run := RunStage(stages[i], i, p.data);
      match run.result
      case None => Progress(p.calls + run.calls, p.data, Some(i))
      case Some(d) => Progress(p.calls + run.calls, p.data.Record(stages[i].name, d), None)
  }

  /** The forward loop over the first `n` stages. */
  function Forward(stages: seq<Stage>, n: nat): Progress
    requires n <= |stages|
  {
    if n == 0 then Progress([], Empty, None) else Step(stages, n - 1, Forward(stages, n - 1))
  }

  /** The forward loop keeps the accumulator well formed. */
  lemma {:induction false} ForwardValid(stages: seq<Stage>, n: nat)
    requires n <= |stages|
    ensures Forward(stages, n).data.Valid()
  {
    if n > 0 {
      ForwardValid(stages, n - 1);
      var prev := Forward(stages, n - 1);
      if prev.failed.None? {
        var run := RunStage(stages[n - 1], n - 1, prev.data);
        if run.result.Some? {
          RecordAssigns(prev.data, stages[n - 1].name, run.result.value);
        }
      }
    }
  }

  /** The stage that failed, if any, is one of the first `n`. */
  lemma {:induction false} ForwardFailedBound(stages: seq<Stage>, n: nat)
    requires n <= |stages|
    ensures Forward(stages, n).failed.Some? ==> Forward(stages, n).failed.value < n
  {
    if n > 0 {
      ForwardFailedBound(stages, n - 1);
    }
  }

  /** Once a stage has failed, the forward loop makes no more calls and records nothing more. */
  lemma {:induction false} ForwardStops(stages: seq<Stage>, k: nat, n: nat)
    requires k <= n <= |stages| && Forward(stages, k).failed.Some?
    ensures Forward(stages, n) == Forward(stages, k)
  {
    if n > k {
      ForwardStops(stages, k, n - 1);
    }
  }

  /** While no stage has failed, the forward calls are before, up, after of each stage in turn. */
  lemma {:induction false} ForwardCallsCompleted(stages: seq<Stage>, n: nat)
    requires n <= |stages| && Forward(stages, n).failed.None?
    ensures Forward(stages, n).calls == CompletedCalls(n)
  {
    if n > 0 {
      var prev := Forward(stages, n - 1);
      assert prev.failed.None?;
      ForwardCallsCompleted(stages, n - 1);
      StepCompletesCalls(stages, n - 1, prev);
    }
  }

  /**
   * The forward calls after the loop has passed `n` stages: before, up,
   * after of each stage in turn while none has failed; once stage `k < n`
   * failed, those of the `k` completed stages and a non-empty prefix of
   * stage `k`'s own, and nothing after.
   */
  ghost predicate CallsInOrder(p: Progress, n: nat) {
    && (p.failed.None? ==> p.calls == CompletedCalls(n))
    && (p.failed.Some? ==>
          && p.failed.value < n
          && p.calls in FailedStageCalls(p.failed.value))
  }

  /** The calls of `k` completed stages followed by a non-empty prefix of stage `k`'s before, up, after. */
  function FailedStageCalls(k: nat): set<seq<Event>> {
    {CompletedCalls(k) + StageCalls(k)[..1], CompletedCalls(k) + StageCalls(k)[..2], CompletedCalls(k) + StageCalls(k)}
  }

  /** Those are exactly the completed calls followed by the first one, two or three calls of stage `k`. */
  lemma {:induction false} FailedStageCallsArePrefixes(k: nat, calls: seq<Event>)
    ensures calls in FailedStageCalls(k) <==> exists m :: 1 <= m <= 3 && calls == CompletedCalls(k) + StageCalls(k)[..m]
  {
    assert StageCalls(k)[..3] == StageCalls(k);
    if calls in FailedStageCalls(k) {
      if calls == CompletedCalls(k) + StageCalls(k)[..1] {
        assert 1 <= 1 <= 3;
      } else if calls == CompletedCalls(k) + StageCalls(k)[..2] {
        assert 1 <= 2 <= 3;
      } else {
        assert calls == CompletedCalls(k) + StageCalls(k)[..3];
      }
    }
  }

  /** The forward calls come strictly in stage order, and nothing is called once a stage failed. */
  lemma {:induction false} ForwardCallOrder(stages: seq<Stage>, n: nat)
    requires n <= |stages|
    ensures CallsInOrder(Forward(stages, n), n)
    decreases n, 1
  {
    if n > 0 {
      ForwardStepCallOrder(stages, n);
    }
  }

  /** The `n`-th step of the forward loop keeps its calls in stage order. */
  lemma {:induction false} ForwardStepCallOrder(stages: seq<Stage>, n: nat)
    requires 0 < n <= |stages|
    ensures CallsInOrder(Forward(stages, n), n)
    decreases n, 0
  {
    ForwardCallOrder(stages, n - 1);
    StepCallOrder(stages, n - 1, Forward(stages, n - 1));
  }

  /** One step of the forward loop keeps its calls in stage order. */
  lemma StepCallOrder(stages: seq<Stage>, k: nat, p: Progress)
    requires k < |stages| && CallsInOrder(p, k)
    ensures CallsInOrder(Step(stages, k, p), k + 1)
  {
    if p.failed.None? {
      if Step(stages, k, p).failed.None? {
        StepCompletesCalls(stages, k, p);
      } else {
        StepFailsCalls(stages, k, p);
      }
    }
  }

  /** A step that completes after the calls of `k` completed stages adds before, up and after. */
  lemma StepCompletesCalls(stages: seq<Stage>, k: nat, p: Progress)
    requires k < |stages| && p.failed.None? && p.calls == CompletedCalls(k)
    requires Step(stages, k, p).failed.None?
    ensures Step(stages, k, p).calls == CompletedCalls(k + 1)
  {
    RunStageSpec(stages[k], k, p.data);
  }

  /** A step that fails after the calls of `k` completed stages adds a non-empty prefix of its own calls. */
  lemma StepFailsCalls(stages: seq<Stage>, k: nat, p: Progress)
    requires k < |stages| && p.failed.None? && p.calls == CompletedCalls(k)
    requires Step(stages, k, p).failed.Some?
    ensures Step(stages, k, p).failed == Some(k)
    ensures Step(stages, k, p).calls in FailedStageCalls(k)
  {
    var run := RunStage(stages[k], k, p.data);
    RunStageSpec(stages[k], k, p.data);
    assert Step(stages, k, p).calls == CompletedCalls(k) + StageCalls(k)[..|run.calls|];
  }

  /** The forward pass never invokes a compensation. */
  lemma {:induction false} ForwardCallsNoDown(stages: seq<Stage>, n: nat)
    requires n <= |stages|
    ensures forall e :: e in Forward(stages, n).calls ==> !e.CallDown?
  {
    if n > 0 {
      ForwardCallsNoDown(stages, n - 1);
      var prev := Forward(stages, n - 1);
      if prev.failed.None? {
        RunStageSpec(stages[n - 1], n - 1, prev.data);
      }
    }
  }

  /** Stage `j` is reached and its before, up and after all succeed. */
  predicate Completes(stages: seq<Stage>, j: nat)
    requires j < |stages|
  {
    Forward(stages, j).failed.None? && RunStage(stages[j], j, Forward(stages, j).data).result.Some?
  }

  /** When the first `n` stages all complete, each of them completed on the accumulator it received. */
  lemma {:induction false} CompletedPrefix(stages: seq<Stage>, n: nat)
    requires n <= |stages| && Forward(stages, n).failed.None?
    ensures forall j :: 0 <= j < n ==> Completes(stages, j)
  {
    if n > 0 {
      var prev := Forward(stages, n - 1);
      assert prev.failed.None?;
      CompletedPrefix(stages, n - 1);
      assert RunStage(stages[n - 1], n - 1, prev.data).result.Some?;
    }
  }

  /** If every one of the first `n` stages completes, the forward loop has not failed. */
  lemma {:induction false} PrefixCompletes(stages: seq<Stage>, n: nat)
    requires n <= |stages| && forall j :: 0 <= j < n ==> Completes(stages, j)
    ensures Forward(stages, n).failed.None?
  {
    if n > 0 {
      assert Completes(stages, n - 1);
    }
  }

  /** No later stage before index `n` carries the name of stage `j`. */
  ghost predicate LastNamed(stages: seq<Stage>, j: nat, n: nat)
    requires j < n <= |stages|
  {
    forall i :: j < i < n ==> stages[i].name != stages[j].name
  }

  /** The `up` result stage `j` produces on the accumulator it receives. */
  function UpResult(stages: seq<Stage>, j: nat): Reply
    requires j < |stages|
  {
    stages[j].up(Forward(stages, j).data)
  }

  /** After the first `n` stages complete, the accumulator's keys are exactly their names. */
  lemma {:induction false} ForwardKeys(stages: seq<Stage>, n: nat)
    requires n <= |stages| && Forward(stages, n).failed.None?
    ensures Forward(stages, n).data.entries.Keys == set j | 0 <= j < n :: stages[j].name
  {
    if n > 0 {
      var prev := Forward(stages, n - 1);
      assert prev.failed.None?;
      ForwardKeys(stages, n - 1);
      StepAddsKey(stages, n - 1, prev);
      NamesUpTo(stages, n);
    }
  }

  /** A completed step adds the stage's name to the accumulator's keys and nothing else. */
  lemma StepAddsKey(stages: seq<Stage>, i: nat, p: Progress)
    requires i < |stages| && p.failed.None? && Step(stages, i, p).failed.None?
    ensures Step(stages, i, p).data.entries.Keys == p.data.entries.Keys + {stages[i].name}
  {
  }

  /** The names of stages `0..n-1` are those of stages `0..n-2` and that of stage `n-1`. */
  lemma NamesUpTo(stages: seq<Stage>, n: nat)
    requires 0 < n <= |stages|
    ensures (set j | 0 <= j < n :: stages[j].name) == (set j | 0 <= j < n - 1 :: stages[j].name) + {stages[n - 1].name}
  {
  }

  /**
   * After the first `n` stages complete, the accumulator holds under each
   * name the `up` result of the last stage so named (a later stage with the
   * same name overwrites an earlier one).
   */
  lemma {:induction false} ForwardValues(stages: seq<Stage>, n: nat)
    requires n <= |stages| && Forward(stages, n).failed.None?
    ensures forall j :: 0 <= j < n && LastNamed(stages, j, n) ==>
              UpResult(stages, j) == Resolved(Forward(stages, n).data.Lookup(stages[j].name))
  {
    if n > 0 {
      ForwardStepRecords(stages, n);
      ForwardValues(stages, n - 1);
      forall j | 0 <= j < n && LastNamed(stages, j, n)
        ensures UpResult(stages, j) == Resolved(Forward(stages, n).data.Lookup(stages[j].name))
      {
        if j < n - 1 {
          assert LastNamed(stages, j, n - 1);
          assert stages[n - 1].name != stages[j].name;
        }
      }
    }
  }

  /** The `n`-th stage, when it completes, records its `up` result under its name. */
  lemma {:induction false} ForwardStepRecords(stages: seq<Stage>, n: nat)
    requires 0 < n <= |stages| && Forward(stages, n).failed.None?
    ensures Forward(stages, n - 1).failed.None? && UpResult(stages, n - 1).Resolved?
    ensures Forward(stages, n).data.entries ==
      Forward(stages, n - 1).data.entries[stages[n - 1].name := UpResult(stages, n - 1).value]
  {
    RunStageSpec(stages[n - 1], n - 1, Forward(stages, n - 1).data);
  }

  /** A completed step that records a name not yet in the accumulator puts it last. */
  lemma StepAppendsKey(stages: seq<Stage>, i: nat, p: Progress)
    requires i < |stages| && p.failed.None? && Step(stages, i, p).failed.None?
    requires p.data.Valid() && stages[i].name !in p.data.order
    ensures Step(stages, i, p).data.order == p.data.order + [stages[i].name]
  {
  }

  /** With distinct names, the keys of the accumulator come in stage order. */
  lemma {:induction false} ForwardKeyOrder(stages: seq<Stage>, n: nat)
    requires n <= |stages| && Forward(stages, n).failed.None?
    requires forall i, j :: 0 <= i < j < n ==> stages[i].name != stages[j].name
    ensures var order := Forward(stages, n).data.order;
      |order| == n && forall j :: 0 <= j < n ==> order[j] == stages[j].name
  {
    if n > 0 {
      var prev := Forward(stages, n - 1);
      assert prev.failed.None?;
      ForwardKeyOrder(stages, n - 1);
      ForwardValid(stages, n - 1);
      NameNotListed(prev.data.order, stages, n - 1);
      StepAppendsKey(stages, n - 1, prev);
    }
  }

  /** The names of stages `0..n-1`, in order, do not include a name none of them carries. */
  lemma NameNotListed(order: seq<string>, stages: seq<Stage>, n: nat)
    requires n < |stages| && |order| == n
    requires forall j :: 0 <= j < n ==> order[j] == stages[j].name
    requires forall j :: 0 <= j < n ==> stages[j].name != stages[n].name
    ensures stages[n].name !in order
  {
  }

  /**
   * When the forward loop fails at stage `k`: stages 0..k-1 all completed,
   * stage `k`'s before, up or after failed, and its result was never recorded.
   */
  lemma {:induction false} FirstFailure(stages: seq<Stage>, n: nat)
    requires n <= |stages| && Forward(stages, n).failed.Some?
    ensures var k := Forward(stages, n).failed.value;
      && k < n
      && Forward(stages, k).failed.None?
      && RunStage(stages[k], k, Forward(stages, k).data).result.None?
      && Forward(stages, n).data == Forward(stages, k).data
  {
    var prev := Forward(stages, n - 1);
    if prev.failed.Some? {
      FirstFailure(stages, n - 1);
    }
  }

  /** What `down` of stage `j` yields when invoked on `data[stages[j].name]`. */
  function Compensation(stages: seq<Stage>, data: Accumulator, j: nat): Reply
    requires j < |stages|
  {
    stages[j].down(data.Lookup(stages[j].name))
  }

  /** The replies of the rollback loop entered at index `k`: stage k-1's first, stage 0's last. */
  function Compensations(stages: seq<Stage>, data: Accumulator, k: nat): (r: seq<Reply>)
    requires k <= |stages|
    ensures |r| == k
  {
    if k == 0 then [] else [Compensation(stages, data, k - 1)] + Compensations(stages, data, k - 1)
  }

  /** The `m`-th reply of the rollback entered at `k` is the compensation of stage `k-1-m`. */
  lemma {:induction false} CompensationsAt(stages: seq<Stage>, data: Accumulator, k: nat)
    requires k <= |stages|
    ensures forall m :: 0 <= m < k ==> Compensations(stages, data, k)[m] == Compensation(stages, data, k - 1 - m)
  {
    if k > 0 {
      CompensationsAt(stages, data, k - 1);
    }
  }

  /** The position of the first reply that is a synchronous throw, if any. */
  function FirstThrow(replies: seq<Reply>): (r: Option<nat>)
    ensures r.Some? ==> r.value < |replies| && replies[r.value].Threw?
    ensures r.Some? ==> forall m :: 0 <= m < r.value ==> !replies[m].Threw?
    ensures r.None? ==> forall m :: 0 <= m < |replies| ==> !replies[m].Threw?
  {
    if replies == [] then None
    else if replies[0].Threw? then Some(0)
    else match FirstThrow(replies[1..])
      case None => None
      case Some(m) => Some(m + 1)
  }

  /** The first throw is at `t` when reply `t` throws and none before it does. */
  lemma FirstThrowAt(replies: seq<Reply>, t: nat)
    requires t < |replies| && replies[t].Threw?
    requires forall m :: 0 <= m < t ==> !replies[m].Threw?
    ensures FirstThrow(replies) == Some(t)
  {
  }

  /** `Promise.all`: every value, in order, when all replies resolve; otherwise nothing. */
  function AwaitAll(replies: seq<Reply>): (r: Option<seq<Value>>)
    ensures r.Some? <==> forall m :: 0 <= m < |replies| ==> replies[m].Resolved?
    ensures r.Some? ==> |r.value| == |replies|
    ensures r.Some? ==> forall m :: 0 <= m < |replies| ==> replies[m] == Resolved(r.value[m])
  {
    if replies == [] then Some([])
    else if !replies[0].Resolved? then None
    else match AwaitAll(replies[1..])
      case None => None
      case Some(vs) => Some([replies[0].value] + vs)
  }

  /** How `return Promise.all(rollbacks)` settles. */
  function Settle(replies: seq<Reply>): ExecResult {
    match AwaitAll(replies)
    case Some(vs) => RolledBack(vs)
    case None => RollbackRejected
  }

  /** The calls of a rollback entered at `k` after `m` compensations: down of k-1, k-2, ... */
  function DownCalls(k: nat, m: nat): (r: seq<Event>)
    requires m <= k
    ensures |r| == m
  {
    if m == 0 then [] else DownCalls(k, m - 1) + [CallDown(k - m)]
  }

  /** The `p`-th call of a rollback entered at `k` is `down` of stage `k-1-p`. */
  lemma {:induction false} DownCallsAt(k: nat, m: nat)
    requires m <= k
    ensures forall p :: 0 <= p < m ==> DownCalls(k, m)[p] == CallDown(k - 1 - p)
  {
    if m > 0 {
      DownCallsAt(k, m - 1);
    }
  }

  /**
   * The catch of `execute` after stage `k` failed with accumulator `data`:
   * the compensations of stages k-1 down to 0, stopping at the first one
   * that throws, and the `down` calls made.
   */
  function Rollback(stages: seq<Stage>, data: Accumulator, k: nat): Execution
    requires k < |stages|
  {
    var replies := Compensations(stages, data, k);
    match FirstThrow(replies)
    case Some(t) => Execution(RollbackFailed(stages[k].name), DownCalls(k, t + 1))
    case None => Execution(Settle(replies), DownCalls(k, k))
  }

  /**
   * The rollback loop at stage `i - 1`, having collected the replies of
   * stages k-1 down to i, none of them a throw: when `down` of stage `i - 1`
   * throws, the rollback fails naming stage `k`, after `k - i + 1` calls.
   */
  lemma RollbackStopsAt(stages: seq<Stage>, data: Accumulator, k: nat, i: nat, collected: seq<Reply>)
    requires 0 < i <= k < |stages| && |collected| == k - i
    requires forall m :: 0 <= m < |collected| ==> collected[m] == Compensation(stages, data, k - 1 - m)
    requires forall m :: 0 <= m < |collected| ==> !collected[m].Threw?
    requires Compensation(stages, data, i - 1).Threw?
    ensures Rollback(stages, data, k) == Execution(RollbackFailed(stages[k].name), DownCalls(k, k - i + 1))
  {
    var replies := Compensations(stages, data, k);
    CompensationsAt(stages, data, k);
    forall m | 0 <= m < k - i ensures !replies[m].Threw? {
      assert replies[m] == collected[m];
    }
    FirstThrowAt(replies, k - i);
  }

  /**
   * The rollback loop after it collected the replies of all `k` stages, none
   * of them a throw: all `k` calls were made and the rollback settles as
   * `Promise.all` of them.
   */
  lemma RollbackSettles(stages: seq<Stage>, data: Accumulator, k: nat, collected: seq<Reply>)
    requires k < |stages| && |collected| == k
    requires forall m :: 0 <= m < k ==> collected[m] == Compensation(stages, data, k - 1 - m)
    requires forall m :: 0 <= m < k ==> !collected[m].Threw?
    ensures Rollback(stages, data, k) == Execution(Settle(collected), DownCalls(k, k))
  {
    CompensationsAt(stages, data, k);
    assert collected == Compensations(stages, data, k);
  }

  /** `execute` on a registry: run forward and, on the first failure, roll back. */
  function Run(stages: seq<Stage>): Execution {
    ForwardFailedBound(stages, |stages|);
    var f := Forward(stages, |stages|);
    match f.failed
    case None => Execution(Completed(f.data), f.calls)
    case Some(k) =>
      var r := Rollback(stages, f.data, k);
      Execution(r.result, f.calls + r.calls)
  }

  /** `Run` when the forward loop completes with `calls` and `data`. */
  lemma RunCompleted(stages: seq<Stage>, calls: seq<Event>, data: Accumulator)
    requires Forward(stages, |stages|) == Progress(calls, data, None)
    ensures Run(stages) == Execution(Completed(data), calls)
  {
  }

  /** `Run` when the forward loop fails at stage `k` after `calls`, with `data`. */
  lemma RunRolledBack(stages: seq<Stage>, calls: seq<Event>, data: Accumulator, k: nat)
    requires k < |stages| && Forward(stages, |stages|) == Progress(calls, data, Some(k))
    ensures Run(stages) ==
              Execution(Rollback(stages, data, k).result, calls + Rollback(stages, data, k).calls)
  {
  }

  /**
   * `Run` when stage `k` is the first to fail, after `calls`, with `data`:
   * no later stage runs, and the rollback entered at `k` follows.
   */
  lemma RunFailsAt(stages: seq<Stage>, k: nat, calls: seq<Event>, data: Accumulator)
    requires k < |stages| && Forward(stages, k + 1) == Progress(calls, data, Some(k))
    ensures Run(stages) ==
              Execution(Rollback(stages, data, k).result, calls + Rollback(stages, data, k).calls)
  {
    ForwardStops(stages, k + 1, |stages|);
    RunRolledBack(stages, calls, data, k);
  }

  /** With no stages, `execute` resolves at once with `{}`. */
  lemma NoStagesCompletesEmpty()
    ensures Run([]) == Execution(Completed(Empty), [])
  {
  }

  /**
   * `execute` resolves with the accumulator exactly when every stage
   * completes; the accumulator then maps each name to the `up` result of the
   * last stage with that name, and with distinct names it lists the names in
   * registration order.
   */
  lemma CompletedRecordsEveryStage(stages: seq<Stage>)
    ensures Run(stages).result.Completed? <==> forall j :: 0 <= j < |stages| ==> Completes(stages, j)
    ensures Run(stages).result.Completed? ==>
              && Run(stages).result.data.entries.Keys == (set j | 0 <= j < |stages| :: stages[j].name)
              && (forall j :: 0 <= j < |stages| && LastNamed(stages, j, |stages|) ==>
                    UpResult(stages, j) == Resolved(Run(stages).result.data.Lookup(stages[j].name)))
              && (UniqueNames(stages) ==> Run(stages).result.data.order == Names(stages))
  {
    var f := Forward(stages, |stages|);
    if f.failed.None? {
      CompletedPrefix(stages, |stages|);
      ForwardKeys(stages, |stages|);
      ForwardValues(stages, |stages|);
      if UniqueNames(stages) {
        ForwardKeyOrder(stages, |stages|);
      }
    } else if forall j :: 0 <= j < |stages| ==> Completes(stages, j) {
      PrefixCompletes(stages, |stages|);
    }
  }

  /**
   * When stage `k` is the first to fail, stage `j < k` is compensated with a
   * value recorded under its name: its own `up` result when no later stage
   * before `k` shares its name.
   */
  lemma CompensationInput(stages: seq<Stage>, k: nat, j: nat)
    requires Forward(stages, |stages|).failed == Some(k) && j < k
    ensures k < |stages|
    ensures var data := Forward(stages, |stages|).data;
      && stages[j].name in data.entries
      && (LastNamed(stages, j, k) ==> UpResult(stages, j) == Resolved(data.Lookup(stages[j].name)))
  {
    FirstFailure(stages, |stages|);
    ForwardKeys(stages, k);
    ForwardValues(stages, k);
  }

  /**
   * A rollback entered at `k` resolves exactly when every compensation of
   * stages 0..k-1 resolves, and then with `k` values: the results of the
   * compensations of stages k-1, k-2, ..., 0, in that order.
   */
  lemma RollbackCompensatesInReverse(stages: seq<Stage>, data: Accumulator, k: nat)
    requires k < |stages|
    ensures Rollback(stages, data, k).result.RolledBack? <==>
              forall j :: 0 <= j < k ==> Compensation(stages, data, j).Resolved?
    ensures var r := Rollback(stages, data, k).result;
      r.RolledBack? ==>
        && |r.results| == k
        && forall m :: 0 <= m < k ==> Compensation(stages, data, k - 1 - m) == Resolved(r.results[m])
  {
    var replies := Compensations(stages, data, k);
    CompensationsAt(stages, data, k);
    if forall j :: 0 <= j < k ==> Compensation(stages, data, j).Resolved? {
      forall m | 0 <= m < k ensures replies[m].Resolved? {
        assert replies[m] == Compensation(stages, data, k - 1 - m);
      }
    } else {
      var j :| 0 <= j < k && !Compensation(stages, data, j).Resolved?;
      assert !replies[k - 1 - j].Resolved?;
    }
  }

  /**
   * A rollback entered at `k` fails with `Failed to process stage <name>`
   * exactly when some compensation throws, and the name is always that of
   * stage `k`, the one that failed forward, never that of the stage whose
   * compensation threw.
   */
  lemma RollbackFailureNamesFailedStage(stages: seq<Stage>, data: Accumulator, k: nat)
    requires k < |stages|
    ensures Rollback(stages, data, k).result.RollbackFailed? <==>
              exists j :: 0 <= j < k && Compensation(stages, data, j).Threw?
    ensures Rollback(stages, data, k).result.RollbackFailed? ==>
              Rollback(stages, data, k).result.stage == stages[k].name
  {
    var replies := Compensations(stages, data, k);
    CompensationsAt(stages, data, k);
    if exists j :: 0 <= j < k && Compensation(stages, data, j).Threw? {
      var j :| 0 <= j < k && Compensation(stages, data, j).Threw?;
      assert replies[k - 1 - j].Threw?;
    } else {
      forall m | 0 <= m < k ensures !replies[m].Threw? {
        assert replies[m] == Compensation(stages, data, k - 1 - m);
      }
    }
  }

  /**
   * A rollback never resolves with the accumulator, and it rejects with a
   * compensation's reason exactly when no compensation throws and some
   * compensation rejects.
   */
  lemma RollbackRejectsExactly(stages: seq<Stage>, data: Accumulator, k: nat)
    requires k < |stages|
    ensures !Rollback(stages, data, k).result.Completed?
    ensures Rollback(stages, data, k).result == RollbackRejected <==>
              && (forall j :: 0 <= j < k ==> !Compensation(stages, data, j).Threw?)
              && exists j :: 0 <= j < k && Compensation(stages, data, j).Rejected?
  {
    var replies := Compensations(stages, data, k);
    CompensationsAt(stages, data, k);
    if exists j :: 0 <= j < k && Compensation(stages, data, j).Threw? {
      var j :| 0 <= j < k && Compensation(stages, data, j).Threw?;
      assert replies[k - 1 - j].Threw?;
    } else {
      forall m | 0 <= m < k ensures !replies[m].Threw? {
        assert replies[m] == Compensation(stages, data, k - 1 - m);
      }
      if exists j :: 0 <= j < k && Compensation(stages, data, j).Rejected? {
        var j :| 0 <= j < k && Compensation(stages, data, j).Rejected?;
        assert !replies[k - 1 - j].Resolved?;
      } else {
        forall m | 0 <= m < k ensures replies[m].Resolved? {
          assert replies[m] == Compensation(stages, data, k - 1 - m);
        }
      }
    }
  }

  /**
   * A rollback entered at `k` invokes `down` of stages k-1, k-2, ... in that
   * order: all `k` of them unless one throws, and then the one that threw is
   * the last call.
   */
  lemma RollbackCallOrder(stages: seq<Stage>, data: Accumulator, k: nat)
    requires k < |stages|
    ensures var r := Rollback(stages, data, k);
      exists m :: 0 <= m <= k && r.calls == DownCalls(k, m)
        && (m < k ==> r.result.RollbackFailed?)
        && (r.result.RollbackFailed? ==> 0 < m && Compensation(stages, data, k - m).Threw?)
  {
    var replies := Compensations(stages, data, k);
    CompensationsAt(stages, data, k);
    var m := match FirstThrow(replies) case Some(t) => t + 1 case None => k;
    assert Rollback(stages, data, k).calls == DownCalls(k, m);
  }

  /**
   * Only stages before the failed stage `k` are compensated: the failed
   * stage's own `down`, and those of the stages after it, are never called.
   */
  lemma RollbackSkipsFailedStage(stages: seq<Stage>, k: nat)
    requires Forward(stages, |stages|).failed == Some(k)
    ensures forall e :: e in Run(stages).calls && e.CallDown? ==> e.stage < k
  {
    ForwardFailedBound(stages, |stages|);
    var f := Forward(stages, |stages|);
    RunRolledBack(stages, f.calls, f.data, k);
    RollbackCallOrder(stages, f.data, k);
    ForwardCallsNoDown(stages, |stages|);
    var m :| 0 <= m <= k && Rollback(stages, f.data, k).calls == DownCalls(k, m);
    DownCallsBelow(f.calls, k, m);
  }

  /** Appending the first `m` rollback calls from `k` to calls without `down` only adds downs below `k`. */
  lemma DownCallsBelow(calls: seq<Event>, k: nat, m: nat)
    requires m <= k && forall e :: e in calls ==> !e.CallDown?
    ensures forall e :: e in calls + DownCalls(k, m) && e.CallDown? ==> e.stage < k
  {
    var all := calls + DownCalls(k, m);
    DownCallsAt(k, m);
    forall q | 0 <= q < |calls| ensures !all[q].CallDown? {
      assert all[q] == calls[q];
    }
    forall e | e in all && e.CallDown? ensures e.stage < k {
      var q :| 0 <= q < |all| && all[q] == e;
      assert q >= |calls|;
      assert e == DownCalls(k, m)[q - |calls|];
    }
  }

  /** When the first stage fails, nothing is compensated and `execute` resolves with `[]`. */
  lemma FirstStageFailureRollsBackNothing(stages: seq<Stage>)
    requires Forward(stages, |stages|).failed == Some(0)
    ensures Run(stages).result == RolledBack([])
    ensures forall e :: e in Run(stages).calls ==> !e.CallDown?
  {
    ForwardFailedBound(stages, |stages|);
    var f := Forward(stages, |stages|);
    RunRolledBack(stages, f.calls, f.data, 0);
    RollbackSkipsFailedStage(stages, 0);
  }

  /**
   * The registry of the rollback scenario: two stages whose `up` resolves,
   * then one whose `up` rejects; the first stage's compensation is a parameter.
   */
  function Scenario(firstDown: Value -> Reply): seq<Stage> {
    [ Wrap("get-user", StageImpl(Some(_ => Resolved(Other(4))), Some(firstDown), None, None)),
      Wrap("get-another-user", StageImpl(Some(_ => Resolved(Other(5))),
                                         Some(_ => Resolved(Str("Rollback for get-another-user"))), None, None)),
      Wrap("get-invalid-user", StageImpl(Some(_ => Rejected(Other(1))), Some(_ => Resolved(Str("Oh no!"))), None, None)) ]
  }

  /** In the scenario the first two stages complete and the third fails. */
  lemma ScenarioForward(firstDown: Value -> Reply)
    ensures Forward(Scenario(firstDown), 3).failed == Some(2)
    ensures Forward(Scenario(firstDown), 3).data.Lookup("get-user") == Other(4)
  {
    var s := Scenario(firstDown);
    assert s[0].up(Empty) == Resolved(Other(4));
    var d1 := Forward(s, 1).data;
    assert Forward(s, 1).failed.None?;
    assert s[1].up(d1) == Resolved(Other(5));
    var d2 := Forward(s, 2).data;
    assert Forward(s, 2).failed.None?;
    assert s[2].up(d2) == Rejected(Other(1));
    assert d1 == Empty.Record("get-user", Other(4));
    assert d2 == d1.Record("get-another-user", Other(5));
    assert |"get-another-user"| != |"get-user"|;
    assert Forward(s, 3).data == d2;
  }

  /**
   * The third stage fails, so the second and then the first stage are
   * compensated, the first on the value its `up` recorded, and `execute`
   * resolves with their results in that order.
   */
  lemma ScenarioRollsBack(firstDown: Value -> Reply, v: Value)
    requires firstDown(Other(4)) == Resolved(v)
    ensures Run(Scenario(firstDown)).result == RolledBack([Str("Rollback for get-another-user"), v])
  {
    ScenarioForward(firstDown);
    var s := Scenario(firstDown);
    var f := Forward(s, 3);
    RunRolledBack(s, f.calls, f.data, 2);
    var replies := Compensations(s, f.data, 2);
    CompensationsAt(s, f.data, 2);
    assert replies == [Resolved(Str("Rollback for get-another-user")), Resolved(v)];
  }

  /**
   * When the first stage's compensation throws, `execute` rejects naming the
   * third stage, the one that failed.
   */
  lemma ScenarioRollbackThrows(firstDown: Value -> Reply)
    requires firstDown(Other(4)).Threw?
    ensures Run(Scenario(firstDown)).result.RollbackFailed?
    ensures Run(Scenario(firstDown)).result.Message() == "Failed to process stage get-invalid-user"
  {
    ScenarioForward(firstDown);
    var s := Scenario(firstDown);
    var f := Forward(s, 3);
    RunRolledBack(s, f.calls, f.data, 2);
    var replies := Compensations(s, f.data, 2);
    CompensationsAt(s, f.data, 2);
    assert !replies[0].Threw? && replies[1].Threw?;
    assert FirstThrow(replies) == Some(1);
    assert Run(s).result == RollbackFailed("get-invalid-user");
  }
}
