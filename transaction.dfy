/**
 * Class `Transaction` of src/index.js: a registry of stages, updated in place
 * by `addStage` and `removeStage`, queried by `getStage`, and run by
 * `execute`, which is proved to compute `Execution.Run`.
 */
module Transactions {
  import opened Wrappers
  import opened Stages
  import opened Execution

  /** The argument of `new Transaction(stages)`: omitted, an array, or anything else. */
  datatype StagesArg = Omitted | AnArray(items: seq<Stage>) | NotAnArray

  class Transaction {
    var stages: seq<Stage>

    /** `this.stages = stages`, once the argument has been checked by `Create`. */
    constructor (initial: seq<Stage>)
      ensures stages == initial
    {
      stages := initial;
    }

    /**
     * `new Transaction(arg)`: a non-array argument throws; an omitted one
     * defaults to `[]`; an array becomes the registry as it is, its elements
     * unchecked.
     */
    static method Create(arg: StagesArg) returns (r: Result<Transaction, Error>)
      ensures r.Failure? <==> arg.NotAnArray?
      ensures r.Failure? ==> r.error == InvalidArgument
      ensures r.Success? ==> fresh(r.value)
      ensures r.Success? && arg.Omitted? ==> r.value.stages == []
      ensures r.Success? && arg.AnArray? ==> r.value.stages == arg.items
    {
      match arg
      case NotAnArray =>
        return Failure(InvalidArgument);
      case Omitted =>
        var t := new Transaction([]);
        return Success(t);
      case AnArray(items) =>
        var t := new Transaction(items);
        return Success(t);
    }

    /**
     * `addStage(name, impl)`: the checks of `CheckRegistration` in their
     * order; on the first that fails the registry is left as it was,
     * otherwise the wrapped stage is pushed at the end. A registry with
     * distinct names keeps them distinct.
     */
    method AddStage(name: Option<string>, impl: Option<StageImpl>) returns (r: Outcome<Error>)
      modifies this
      ensures var c := CheckRegistration(old(stages), name, impl);
        && (c.Failure? ==> r == Fail(c.error) && stages == old(stages))
        && (c.Success? ==> r == Pass && stages == old(stages) + [c.value])
      ensures r.Pass? ==> |stages| == |old(stages)| + 1 && stages[..|old(stages)|] == old(stages)
      ensures r.Pass? ==> stages[|old(stages)|].name == name.value
      ensures UniqueNames(old(stages)) ==> UniqueNames(stages)
    {
      if name.None? {
        return Fail(MissingName);
      }
      if impl.None? {
        return Fail(NotAnObject);
      }
      if impl.value.up.None? || impl.value.down.None? {
        return Fail(IncompleteImplementation);
      }
      if name.value in Names(stages) {
        return Fail(DuplicateStage);
      }
      var stage := Wrap(name.value, impl.value);
      if UniqueNames(stages) {
        RegistrationKeepsNamesUnique(stages, name, impl);
      }
      stages := stages + [stage];
      assert stages[..|old(stages)|] == old(stages);
      r := Pass;
    }

    /**
     * `removeStage(name)`: an undefined name throws and changes nothing;
     * otherwise the registry becomes the stages whose names differ from
     * `name` ignoring case, in their old order.
     */
    method RemoveStage(name: Option<string>) returns (r: Outcome<Error>)
      modifies this
      ensures name.None? ==> r == Fail(MissingRemoveName) && stages == old(stages)
      ensures name.Some? ==> r == Pass && stages == Without(old(stages), name.value)
      ensures UniqueNames(old(stages)) ==> UniqueNames(stages)
    {
      if name.None? {
        return Fail(MissingRemoveName);
      }
      if UniqueNames(stages) {
        WithoutKeepsNamesUnique(stages, name.value);
      }
      stages := Without(stages, name.value);
      r := Pass;
    }

    /**
     * `getStage(name)`: an undefined name throws; otherwise the first stage
     * whose name is exactly `name`, or none when no stage has that name.
     */
    function GetStage(name: Option<string>): (r: Result<Option<Stage>, Error>)
      reads this
      ensures name.None? <==> r == Failure(MissingFindName)
      ensures name.Some? ==> r.Success?
      ensures name.Some? ==>
                (r.value.None? <==> forall i :: 0 <= i < |stages| ==> stages[i].name != name.value)
      ensures r.Success? && r.value.Some? ==>
                exists i :: 0 <= i < |stages| && stages[i] == r.value.value && stages[i].name == name.value
                  && forall j :: 0 <= j < i ==> stages[j].name != name.value
    {
      if name.None? then Failure(MissingFindName)
      else match FindFirst(stages, name.value)
        case None => Success(None)
        case Some(i) => Success(Some(stages[i]))
    }

    /**
     * `execute()`: the forward loop runs each stage's before, up and after
     * and records the `up` result under the stage's name; at the first
     * failure it hands over to the rollback of `Compensate`. `calls` logs
     * every invocation in order.
     */
    method Execute() returns (outcome: ExecResult, ghost calls: seq<Event>)
      ensures Execution(outcome, calls) == Run(stages)
      ensures outcome == Run(stages).result
    {
      var data := Empty;
      calls := [];
      var i := 0;
      while i < |stages|
        invariant 0 <= i <= |stages|
        invariant Forward(stages, i) == Progress(calls, data, None)
      {
        ghost var prev := Progress(calls, data, None);
        var d, stageCalls := TryStage(i, data);
        calls := calls + stageCalls;
        assert Forward(stages, i + 1) == Step(stages, i, prev);
        if d.None? {
          // the catch: stage `i` is the first to fail
          ghost var forward := calls;
          ghost var downs;
          outcome, downs := Compensate(i, data);
          calls := calls + downs;
          RunFailsAt(stages, i, forward, data);
          return;
        }
        data := data.Record(stages[i].name, d.value);
        i := i + 1;
      }
      RunCompleted(stages, calls, data);
      outcome := Completed(data);
    }

    /**
     * The body of the `try` in `execute` for stage `i`: await `before(data)`,
     * then `up(data)`, then `after(d)`; the first that rejects or throws ends
     * the stage without a result. `stageCalls` logs the actions invoked.
     */
    method TryStage(i: nat, data: Accumulator) returns (d: Option<Value>, ghost stageCalls: seq<Event>)
      requires i < |stages|
      ensures StageRun(stageCalls, d) == RunStage(stages[i], i, data)
      ensures d == RunStage(stages[i], i, data).result
    {
      var stage := stages[i];
      stageCalls := [CallBefore(i)];
      var before := stage.before(data);
      if !before.Resolved? {
        return None, stageCalls;
      }
      stageCalls := stageCalls + [CallUp(i)];
      var up := stage.up(data);
      if !up.Resolved? {
        return None, stageCalls;
      }
      stageCalls := stageCalls + [CallAfter(i)];
      var after := stage.after(up.value);
      if !after.Resolved? {
        return None, stageCalls;
      }
      d := Some(up.value);
    }

    /**
     * The body of the catch in `execute` once stage `k` has failed: invoke
     * `down` of stages k-1 down to 0 on the values recorded in `data`,
     * collecting the replies; a synchronous throw ends the rollback with
     * `Failed to process stage <name of stage k>`, otherwise the collected
     * replies settle as `Promise.all`.
     */
    method Compensate(k: nat, data: Accumulator) returns (outcome: ExecResult, ghost downs: seq<Event>)
      requires k < |stages|
      ensures outcome == Rollback(stages, data, k).result
      ensures downs == Rollback(stages, data, k).calls
    {
      var i := k;
      var rollbacks: seq<Reply> := [];
      downs := [];
      while i > 0
        invariant 0 <= i <= k && |rollbacks| == k - i
        invariant forall m :: 0 <= m < |rollbacks| ==> rollbacks[m] == Compensation(stages, data, k - 1 - m)
        invariant forall m :: 0 <= m < |rollbacks| ==> !rollbacks[m].Threw?
        invariant downs == DownCalls(k, k - i)
      {
        if i == -1 {
          assert false;
          break;
        }
        var rollbackStage := stages[i - 1];
        downs := downs + [CallDown(i - 1)];
        assert downs == DownCalls(k, k - i + 1);
        var reply := rollbackStage.down(data.Lookup(stages[i - 1].name));
        if reply.Threw? {
          // the inner catch: a compensation threw synchronously
          RollbackStopsAt(stages, data, k, i, rollbacks);
          outcome := RollbackFailed(stages[k].name);
          return;
        }
        rollbacks := rollbacks + [reply];
        i := i - 1;
      }
      RollbackSettles(stages, data, k, rollbacks);
      outcome := Settle(rollbacks);
    }
  }
}
