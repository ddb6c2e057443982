# A verified model of the Electron saga engine

Electron's `Transaction` class (src/index.js) runs a saga. It holds an ordered
registry of named stages. Each stage has a forward action `up`, a
compensation `down`, and optional `before` and `after` hooks.

`execute` runs the stages in registration order. For each stage it calls
`before(data)`, `up(data)` and `after(d)`, then records `data[name] = d`.
At the first stage `k` whose hook or action fails, it invokes
`down(data[name])` of stages `k-1` down to `0`. It then resolves with their
results, or rejects with `Failed to process stage <name of stage k>` when a
compensation throws.

The project models this in Dafny, in four modules:

- `Wrappers` (wrappers.dfy) holds `Option`, `Result` and `Outcome`: a call
  either returns or throws one of the engine's errors.
- `Stages` (stages.dfy) covers what a stage is and the values stages
  exchange. It also holds the accumulator, which is a map plus the order in
  which keys were first assigned, as a JavaScript object enumerates them.
  - Every user action is an oracle: a total function whose reply is
    `Resolved`, `Rejected` or `Threw`. `Threw` is an exception raised while
    the action is being invoked.
  - It also holds the registry operations as functions: the checks of
    `addStage` (`CheckRegistration`), the stage wrapper (`Wrap`), the
    case-insensitive filter of `removeStage` (`Without`) and the exact-match
    search of `getStage` (`FindFirst`).
- `Execution` (execution.dfy) gives the meaning of `execute` as functions:
  - `Forward` is the forward loop after `n` stages.
  - `Rollback` is the catch block.
  - `Run` is the whole call.
  - A ghost log of `Event`s records every invocation of a stage action in
    order, so the order of calls can be stated.
  - The lemmas state what `execute` promises: the accumulator on success,
    the reverse-order compensations on failure, and the name in the
    rollback-failure message. They also state that the failed stage is never
    compensated, and two scenarios from the test suite.
- `Transactions` (transaction.dfy) holds class `Transaction` with its field
  `stages: seq<Stage>`:
  - `AddStage` and `RemoveStage` update the field in place.
  - `GetStage` reads it.
  - `Execute` is the forward `for` loop. `TryStage` is the body of its
    `try`. On the first failure `Execute` hands over to `Compensate`, the
    `while (i > 0)` rollback loop of the `catch`.
  - Both loops carry invariants proving that `Execute` computes `Run`.

The model keeps these behaviours of the code:

- A synchronous throw from a stage's `before`, `up` or `after` is caught
  like a rejection. The wrapped action is invoked inside the `try`.
- The keys of the accumulator follow registration order only when names are
  distinct. A stage seeded through the constructor with the name of an
  earlier stage overwrites that stage's value and keeps its position.
- Calling `addStage` with a name but no implementation object fails with the
  runtime's TypeError, which is not one of the engine's own errors.

## Model

| member | source | states |
|---|---|---|
| `Transactions.Transaction.constructor` | src/index.js:17-20 | the registry is exactly the given sequence of stages |
| `Transactions.Transaction.Create` | src/index.js:17-20 | a non-array argument fails with `Param stages must be an Array`, and fails exactly then; an omitted argument gives an empty registry and an array gives that array, elements unchecked |
| `Transactions.Transaction.AddStage` | src/index.js:29-49 | fails on the first failing check, in source order, and leaves the registry unchanged; otherwise appends exactly the wrapped stage and keeps every earlier stage; keeps names distinct |
| `Transactions.Transaction.RemoveStage` | src/index.js:56-59 | an undefined name fails with `Cannot remove stage name of undefined` and changes nothing; otherwise the registry becomes the case-insensitive filter of the old one; keeps names distinct |
| `Transactions.Transaction.GetStage` | src/index.js:67-70 | an undefined name fails with `Cannot find stage name of undefined`; otherwise returns none exactly when no name matches exactly, else a stage with that name with no exact match before it |
| `Transactions.Transaction.Execute` | src/index.js:77-122 | its outcome and its sequence of action invocations are those of `Run` on the registry |
| `Transactions.Transaction.TryStage` | src/index.js:83-93 | the `try` body of stage `i` yields exactly what `RunStage` yields: its result and the actions it invoked, before, then up, then after, stopping at the first that does not resolve |
| `Transactions.Transaction.Compensate` | src/index.js:95-117 | outcome and `down` invocations of the rollback loop entered at the failed stage `k` equal `Rollback`: stop at the first synchronous throw naming stage `k`, otherwise settle all replies |
| `Stages.Wrap` | src/index.js:33-46 | keeps the name; `up` and `down` yield the user's replies; a missing `before` or `after` resolves to `true`, a supplied one yields the user's reply |
| `Stages.CheckRegistration` | src/index.js:30-32 | missing name, missing implementation object, missing `up` or `down`, and exact duplicate fail in that order; a duplicate fails exactly when some registered name is equal; success exactly when all checks pass, with the wrapped stage |
| `Stages.RegistrationKeepsNamesUnique` | src/index.js:32-48 | a successful registration keeps the registry's names distinct |
| `Stages.RecordAssigns` | src/index.js:93 | `data[name] = d` sets that key to `d`, leaves every other key unchanged; a new key goes last, an existing key keeps its place |
| `Stages.Without` | src/index.js:58 | never longer than the input; the survivors are exactly the stages whose names differ from the argument once both are upper-cased |
| `Stages.WithoutDistributes` | src/index.js:58 | the filter splits over concatenation, so survivors keep their relative order |
| `Stages.WithoutKeepsNamesUnique` | src/index.js:56-59 | removing stages from a registry whose names are distinct leaves the names distinct |
| `Stages.WithoutNoMatch` | src/index.js:56-59 | removing a name that no stage matches, ignoring case, leaves the registry as it was |
| `Stages.WithoutIdempotent` | src/index.js:56-59 | removing the same name twice is the same as removing it once |
| `Stages.FindFirst` | src/index.js:69 | returns the index of a stage with exactly that name with no such stage before it, or none exactly when no name matches |
| `Stages.CaseAsymmetry` | src/index.js:32-58 | next to `Foo`, registering `Foo` is a duplicate but `FOO` is accepted, and removing `foo` removes both |
| `Execution.RunStageSpec` | src/index.js:86-88 | a stage completes exactly when `before`, `up` and `after` of the `up` result all resolve, yielding the `up` result; `up` is called only after `before` resolved, `after` only after `up` resolved |
| `Execution.ForwardValid` | src/index.js:79-93 | the forward loop keeps the accumulator's keys distinct and in step with its entries |
| `Execution.ForwardFailedBound` | src/index.js:80-95 | the stage at which the forward loop failed is one it has reached |
| `Execution.ForwardStops` | src/index.js:95-111 | once a stage has failed no later stage is run and nothing more is recorded |
| `Execution.ForwardCallsCompleted` | src/index.js:80-93 | while no stage has failed, the forward calls are before, up, after of stage 0, then of stage 1, and so on |
| `Execution.ForwardCallOrder` | src/index.js:80-88 | forward calls are before, up, after of stage 0, then of stage 1, and so on; the failed stage, always one already reached, makes a non-empty prefix of these, then nothing follows |
| `Execution.StepCallOrder` | src/index.js:80-88 | one pass of the loop body keeps the forward calls in that order |
| `Execution.FailedStageCallsArePrefixes` | src/index.js:80-85 | the calls a failed stage leaves are exactly the completed stages' calls followed by its own first one, two or three calls |
| `Execution.ForwardCallsNoDown` | src/index.js:80-93 | the forward loop never invokes a compensation |
| `Execution.CompletedPrefix` | src/index.js:80-93 | when the forward loop has not failed, every stage so far completed on the accumulator it received |
| `Execution.PrefixCompletes` | src/index.js:80-93 | when every stage so far completes, the forward loop has not failed |
| `Execution.ForwardKeys` | src/index.js:93 | after stages complete, the accumulator's keys are exactly their names |
| `Execution.ForwardValues` | src/index.js:87-93 | after stages complete, each name maps to the `up` result of the last stage with that name, on the accumulator that stage received |
| `Execution.ForwardStepRecords` | src/index.js:87-93 | a stage that completes records its `up` result under its name, on the accumulator it received |
| `Execution.ForwardKeyOrder` | src/index.js:93 | when the first `n` stages complete and their names are distinct, the accumulator lists exactly `n` keys, the `j`-th being the name of stage `j` |
| `Execution.FirstFailure` | src/index.js:83-95 | at the failure index `k` all earlier stages completed, stage `k` did not, and its result was not recorded |
| `Execution.Compensations` | src/index.js:100-107 | the replies `down` of stages `k-1` down to `0` would give, `k` of them; the loop collects all of them when none throws, otherwise only the prefix before the first throw |
| `Execution.CompensationsAt` | src/index.js:100-107 | the `m`-th reply collected by the rollback entered at `k` is `down` of stage `k-1-m` on the value recorded under its name |
| `Execution.FirstThrow` | src/index.js:104-112 | the position of the first synchronous throw, with no throw before it, or none when nothing throws |
| `Execution.FirstThrowAt` | src/index.js:104-112 | a throw at `t` with none before it is the first throw |
| `Execution.AwaitAll` | src/index.js:111 | all values, in order, exactly when every reply resolves |
| `Execution.DownCalls` | src/index.js:100-107 | a rollback from `k` makes exactly `m` `down` calls in its first `m` steps |
| `Execution.DownCallsAt` | src/index.js:100-107 | the `down` calls of a rollback from `k` after `m` steps are of stages `k-1`, `k-2`, ... in that order |
| `Execution.RollbackStopsAt` | src/index.js:100-116 | when the loop has collected the replies of stages `k-1` down to `i`, none a throw, and `down` of stage `i-1` throws, the rollback fails naming stage `k`, after exactly `k-i+1` `down` calls |
| `Execution.RollbackSettles` | src/index.js:100-111 | when the loop has collected the replies of stages `k-1` down to `0` and none throws, the rollback has made all `k` `down` calls and settles as `Promise.all` of the collected replies |
| `Execution.RunCompleted` | src/index.js:119-121 | when the forward loop completes, `execute` resolves with the accumulator after exactly the forward calls |
| `Execution.RunRolledBack` | src/index.js:95-118 | when the forward loop fails at `k`, `execute` settles as the rollback entered at `k` on the accumulator, and its calls are the forward calls followed by the rollback's |
| `Execution.RunFailsAt` | src/index.js:95-118 | once stage `k` fails, no later stage runs: `execute` settles as the rollback entered at `k`, and its calls are those up to the failure followed by the rollback's |
| `Execution.NoStagesCompletesEmpty` | src/index.js:77-122 | with no stages `execute` resolves with `{}` and calls nothing |
| `Execution.CompletedRecordsEveryStage` | src/index.js:80-121 | `execute` resolves with the accumulator exactly when every stage completes; the keys are then the stage names, each mapped to the last same-named stage's `up` result, in registration order when names are distinct |
| `Execution.CompensationInput` | src/index.js:105 | stage `j` before the failed stage is compensated with a recorded value, its own `up` result when no later stage before the failure shares its name |
| `Execution.RollbackCompensatesInReverse` | src/index.js:100-111 | the rollback entered at `k` resolves with a sequence exactly when every compensation of stages `0..k-1` resolves; the sequence has `k` elements, the results of stages `k-1` down to `0` |
| `Execution.RollbackFailureNamesFailedStage` | src/index.js:112-116 | the rollback entered at `k` fails with the rollback-failure message exactly when some compensation of stages `0..k-1` throws, and the message names stage `k` |
| `Execution.RollbackRejectsExactly` | src/index.js:100-111 | the rollback never resolves with the accumulator; it rejects with a compensation's reason exactly when no compensation of stages `0..k-1` throws and some rejects |
| `Execution.RollbackCallOrder` | src/index.js:100-116 | the rollback entered at `k` calls `down` of `k-1`, `k-2`, ...; all `k` unless one throws, and the one that threw is the last call |
| `Execution.RollbackSkipsFailedStage` | src/index.js:100-107 | `down` is invoked only for stages before the failed stage, never its own |
| `Execution.DownCallsBelow` | src/index.js:100-107 | appending rollback calls from `k` to calls without `down` adds only `down` calls of stages below `k` |
| `Execution.FirstStageFailureRollsBackNothing` | src/index.js:100-111 | when stage 0 fails, `execute` resolves with an empty sequence and invokes no compensation |
| `Execution.ScenarioForward` | test/index.test.js:253-272 | in the three-stage scenario the first two stages complete, the third fails, and `get-user` holds the first stage's result |
| `Execution.ScenarioRollsBack` | test/index.test.js:253-272 | the scenario resolves with the second then the first compensation's result |
| `Execution.ScenarioRollbackThrows` | test/index.test.js:274-295 | when the first compensation throws, `execute` fails with `Failed to process stage get-invalid-user` |

## Left out

- The `DEBUG`/`chalk` console output (src/index.js:82, 94, 97-98, 106, 113-115) is I/O that never affects control flow.
- The `lodash` predicates are not modelled as calls. `_.isUndefined` becomes an `Option` argument. `_.isArray` becomes the three-way `StagesArg`.
- Promise timing is not modelled; only the order of invocations and the settled values are.
  - All compensations are started before `Promise.all` awaits them.
  - A compensation whose promise rejects makes `execute` reject with the earliest rejection in time. That reason is not modelled: the outcome is the bare `RollbackRejected`.
  - Rejections of compensations invoked before one that throws go unhandled. The model does not track them.
- `toUpperCase` is modelled on ASCII letters only. Unicode case mappings (including those that change a string's length) are not modelled.
- Seeded constructor elements that are not stage objects, such as `{}`, are not modelled. Names that are not strings, on which `removeStage` would throw a TypeError, are not modelled either.
- The constructor keeps the caller's array itself, so the caller and the transaction see each other's pushes. The model holds a copy of the sequence, so that aliasing is not captured.
- The wrappers read `impl.up`, `impl.before` and the other members when invoked, not when the stage is added. The model snapshots them at `addStage`, so changes made to `impl` afterwards are not captured.
- Stage actions receive the live `data` object and could mutate it or keep it. Stage actions could also call back into the transaction during `execute`. The model passes each action the accumulator's current value and assumes neither happens.
- Stage actions are modelled as pure functions of their argument. Their side effects, such as network requests, are not modelled, and neither are results that differ from one run to the next. So in the model two `execute` calls on the same registry always end the same way.
- JavaScript enumerates integer-like keys of an object first, in ascending order. The accumulator's key order ignores that rule, and ignores the special `__proto__` key.
