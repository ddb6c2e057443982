/**
 * Stages and the stage registry of the saga engine (class `Transaction` in
 * src/index.js): what a stage is, how `addStage` validates and wraps a stage
 * implementation, how `removeStage` filters by name ignoring case and how
 * `getStage` finds a stage by its exact name.
 */
module Stages {
  import opened Wrappers

  /**
   * A JavaScript value as far as the engine is concerned. The engine never
   * inspects the results of stages: it stores and forwards them. `Bool(true)`
   * is what the default hooks resolve to; `Other` stands for any other value.
   */
  datatype Value = Undefined | Bool(b: bool) | Str(s: string) | Other(id: int)

  /**
   * What invoking a user-supplied action yields once the wrapper has passed it
   * through `Promise.resolve`: a value (returned directly or by a promise that
   * fulfils), a promise that rejects, or an exception thrown synchronously
   * while the action is being invoked.
   */
  datatype Reply = Resolved(value: Value) | Rejected(reason: Value) | Threw(error: Value)

  /**
   * The accumulator `data` of `execute`: stage results keyed by stage name,
   * with the keys in the order in which they were first assigned (the order
   * in which a JavaScript object enumerates its string keys).
   */
  datatype Accumulator = Accumulator(entries: map<string, Value>, order: seq<string>) {

    ghost predicate Valid() {
      && (forall i, j :: 0 <= i < j < |order| ==> order[i] != order[j])
      && (forall key :: key in entries <==> key in order)
    }

    /** `data[name] = value`: a new key goes last, an existing key keeps its place. */
    function Record(name: string, value: Value): Accumulator {
      Accumulator(entries[name := value], if name in entries then order else order + [name])
    }

    /** `data[name]`: a key never assigned reads as `undefined`. */
    function Lookup(name: string): Value {
      if name in entries then entries[name] else Undefined
    }
  }

  /**
   * Assigning `data[name]` keeps the accumulator well formed, sets that one
   * key and leaves every other key and the order of the existing keys alone.
   */
  lemma RecordAssigns(acc: Accumulator, name: string, value: Value)
    requires acc.Valid()
    ensures var r := acc.Record(name, value);
      && r.Valid()
      && r.entries.Keys == acc.entries.Keys + {name}
      && r.Lookup(name) == value
      && (forall key :: key != name ==> r.Lookup(key) == acc.Lookup(key))
      && (name in acc.entries ==> r.order == acc.order)
      && (name !in acc.entries ==> r.order == acc.order + [name])
  {
  }

  /** The accumulator `execute` starts from: `{}`. */
  const Empty := Accumulator(map[], [])

  /**
   * A registered stage: its name and the four wrapped actions. Actions are
   * oracles: `up` and `before` receive the accumulator, `down` receives the
   * result recorded under the stage's name, `after` receives the `up` result.
   */
  datatype Stage = Stage(
    name: string,
    up: Accumulator -> Reply,
    down: Value -> Reply,
    before: Accumulator -> Reply,
    after: Value -> Reply)

  /** The `impl` argument of `addStage`: each member may be undefined. */
  datatype StageImpl = StageImpl(
    up: Option<Accumulator -> Reply>,
    down: Option<Value -> Reply>,
    before: Option<Accumulator -> Reply>,
    after: Option<Value -> Reply>)

  /** The errors the registry throws, each with the message the source throws. */
  datatype Error =
    | InvalidArgument
    | MissingName
    | NotAnObject
    | IncompleteImplementation
    | DuplicateStage
    | MissingRemoveName
    | MissingFindName
  {
    function Message(): string {
      match this
      case InvalidArgument => "Param stages must be an Array"
      case MissingName => "Your stage must have a unique name"
      // the runtime's TypeError for reading `impl.up` of undefined, not the engine's own;
      // its wording depends on the JavaScript engine and its version (this is recent V8's)
      case NotAnObject => "Cannot read properties of undefined (reading 'up')"
      case IncompleteImplementation => "Your stage implementation must have an up() and down() methods"
      case DuplicateStage => "That stage name is already used in a previous stage please choose another."
      case MissingRemoveName => "Cannot remove stage name of undefined"
      case MissingFindName => "Cannot find stage name of undefined"
    }
  }

  /** `toUpperCase` on one character, restricted to ASCII letters. */
  function UpperChar(c: char): char {
    if 'a' <= c <= 'z' then (c as int - 32) as char else c
  }

  function Upper(s: string): string {
    seq(|s|, i requires 0 <= i < |s| => UpperChar(s[i]))
  }

  /** The name test of `removeStage`: equal once both sides are upper-cased. */
  predicate SameIgnoringCase(a: string, b: string) {
    Upper(a) == Upper(b)
  }

  /** `stages.map(stage => stage.name)` */
  function Names(stages: seq<Stage>): seq<string> {
    seq(|stages|, i requires 0 <= i < |stages| => stages[i].name)
  }

  ghost predicate UniqueNames(stages: seq<Stage>) {
    forall i, j :: 0 <= i < j < |stages| ==> stages[i].name != stages[j].name
  }

  /**
   * The stage object `addStage` builds: `up` and `down` pass the user's
   * actions through; a hook the implementation lacks resolves to `true`, a
   * hook it supplies yields the user's reply.
   */
  function Wrap(name: string, impl: StageImpl): (s: Stage)
    requires impl.up.Some? && impl.down.Some?
    ensures s.name == name
    ensures forall data :: s.up(data) == impl.up.value(data)
    ensures forall v :: s.down(v) == impl.down.value(v)
    ensures impl.before.None? ==> forall data :: s.before(data) == Resolved(Bool(true))
    ensures impl.before.Some? ==> forall data :: s.before(data) == impl.before.value(data)
    ensures impl.after.None? ==> forall v :: s.after(v) == Resolved(Bool(true))
    ensures impl.after.Some? ==> forall v :: s.after(v) == impl.after.value(v)
  {
    Stage(
      name,
      impl.up.value,
      impl.down.value,
      (data: Accumulator) => if impl.before.Some? then impl.before.value(data) else Resolved(Bool(true)),
      (v: Value) => if impl.after.Some? then impl.after.value(v) else Resolved(Bool(true)))
  }

  /**
   * The checks of `addStage`, in the order the source makes them, and the
   * stage to append when all of them pass.
   */
  function CheckRegistration(stages: seq<Stage>, name: Option<string>, impl: Option<StageImpl>): (r: Result<Stage, Error>)
    ensures name.None? ==> r == Failure(MissingName)
    ensures name.Some? && impl.None? ==> r == Failure(NotAnObject)
    ensures name.Some? && impl.Some? && (impl.value.up.None? || impl.value.down.None?) ==>
              r == Failure(IncompleteImplementation)
    ensures r == Failure(DuplicateStage) <==>
              && name.Some? && impl.Some? && impl.value.up.Some? && impl.value.down.Some?
              && exists i :: 0 <= i < |stages| && stages[i].name == name.value
    ensures r.Success? <==>
              && name.Some? && impl.Some? && impl.value.up.Some? && impl.value.down.Some?
              && forall i :: 0 <= i < |stages| ==> stages[i].name != name.value
    ensures r.Success? ==> r.value == Wrap(name.value, impl.value)
  {
    if name.None? then Failure(MissingName)
    else if impl.None? then Failure(NotAnObject)
    else if impl.value.up.None? || impl.value.down.None? then Failure(IncompleteImplementation)
    else
      assert forall i :: 0 <= i < |stages| ==> Names(stages)[i] == stages[i].name;
      if name.value in Names(stages) then Failure(DuplicateStage)
      else Success(Wrap(name.value, impl.value))
  }

  /** `stages.filter(({ name }) => name.toUpperCase() !== stageName.toUpperCase())` */
  function Without(stages: seq<Stage>, name: string): (r: seq<Stage>)
    ensures |r| <= |stages|
    ensures forall i :: 0 <= i < |r| ==> !SameIgnoringCase(r[i].name, name)
    ensures forall s :: s in r <==> s in stages && !SameIgnoringCase(s.name, name)
  {
    if stages == [] then []
    else (if SameIgnoringCase(stages[0].name, name) then [] else [stages[0]]) + Without(stages[1..], name)
  }

  /** The index `stages.find(stage => stage.name === name)` stops at, if any. */
  function FindFirst(stages: seq<Stage>, name: string): (r: Option<nat>)
    ensures r.Some? ==> r.value < |stages| && stages[r.value].name == name
    ensures r.Some? ==> forall j :: 0 <= j < r.value ==> stages[j].name != name
    ensures r.None? ==> forall j :: 0 <= j < |stages| ==> stages[j].name != name
  {
    if stages == [] then None
    else if stages[0].name == name then Some(0)
    else match FindFirst(stages[1..], name)
      case None => None
      case Some(j) => Some(j + 1)
  }

  /** A successful registration keeps the names of the registry distinct. */
  lemma RegistrationKeepsNamesUnique(stages: seq<Stage>, name: Option<string>, impl: Option<StageImpl>)
    requires UniqueNames(stages)
    requires CheckRegistration(stages, name, impl).Success?
    ensures UniqueNames(stages + [CheckRegistration(stages, name, impl).value])
  {
    var s := CheckRegistration(stages, name, impl).value;
    forall i, j | 0 <= i < j < |stages + [s]|
      ensures (stages + [s])[i].name != (stages + [s])[j].name
    {
      if j == |stages| {
        assert (stages + [s])[j].name == name.value;
      }
    }
  }

  /** Removal splits over concatenation: survivors keep their relative order. */
  lemma {:induction false} WithoutDistributes(a: seq<Stage>, b: seq<Stage>, name: string)
    ensures Without(a + b, name) == Without(a, name) + Without(b, name)
  {
    if a == [] {
      assert a + b == b;
    } else {
      assert (a + b)[1..] == a[1..] + b;
      WithoutDistributes(a[1..], b, name);
    }
  }

  /** Removing a name no stage carries, in any case, leaves the registry as it was. */
  lemma {:induction false} WithoutNoMatch(stages: seq<Stage>, name: string)
    requires forall i :: 0 <= i < |stages| ==> !SameIgnoringCase(stages[i].name, name)
    ensures Without(stages, name) == stages
  {
    if stages != [] {
      WithoutNoMatch(stages[1..], name);
    }
  }

  /** Removal keeps the names of a registry distinct. */
  lemma {:induction false} WithoutKeepsNamesUnique(stages: seq<Stage>, name: string)
    requires UniqueNames(stages)
    ensures UniqueNames(Without(stages, name))
  {
    if stages != [] {
      var head, rest := stages[0], stages[1..];
      UniqueNamesSplit(stages);
      WithoutKeepsNamesUnique(rest, name);
      var tail := Without(rest, name);
      if !SameIgnoringCase(head.name, name) {
        forall x | x in tail ensures x.name != head.name {
          var q :| 0 <= q < |rest| && rest[q] == x;
          assert stages[q + 1] == x;
        }
        UniqueNamesCons(head, tail);
      }
    }
  }

  /** A registry with distinct names: its tail has distinct names too. */
  lemma UniqueNamesSplit(stages: seq<Stage>)
    requires stages != [] && UniqueNames(stages)
    ensures UniqueNames(stages[1..])
  {
    var rest := stages[1..];
    forall i, j | 0 <= i < j < |rest| ensures rest[i].name != rest[j].name {
      assert stages[i + 1].name != stages[j + 1].name;
    }
  }

  /** A stage in front of a registry with distinct names, none equal to its own, keeps them distinct. */
  lemma UniqueNamesCons(head: Stage, tail: seq<Stage>)
    requires UniqueNames(tail) && forall x :: x in tail ==> x.name != head.name
    ensures UniqueNames([head] + tail)
  {
    var r := [head] + tail;
    forall i, j | 0 <= i < j < |r| ensures r[i].name != r[j].name {
      if i == 0 {
        assert r[j] == tail[j - 1];
      } else {
        assert r[i].name == tail[i - 1].name && r[j].name == tail[j - 1].name;
      }
    }
  }

  /** Removal keeps exactly the stages that do not match, so it is idempotent. */
  lemma {:induction false} WithoutIdempotent(stages: seq<Stage>, name: string)
    ensures Without(Without(stages, name), name) == Without(stages, name)
  {
    var r := Without(stages, name);
    WithoutNoMatch(r, name);
  }

  /**
   * Duplicate detection is exact but removal ignores case: next to "Foo",
   * "FOO" is accepted as a new stage, and removing "foo" removes both.
   */
  lemma CaseAsymmetry(foo: Stage, impl: StageImpl)
    requires foo.name == "Foo" && impl.up.Some? && impl.down.Some?
    ensures CheckRegistration([foo], Some("Foo"), Some(impl)) == Failure(DuplicateStage)
    ensures CheckRegistration([foo], Some("FOO"), Some(impl)).Success?
    ensures Without([foo, Wrap("FOO", impl)], "foo") == []
  {
    assert "FOO" != "Foo" by { assert "FOO"[1] != "Foo"[1]; }
    assert Upper("Foo") == "FOO";
    assert Upper("FOO") == "FOO";
    assert Upper("foo") == "FOO";
    assert Names([foo]) == ["Foo"];
    var s := [foo, Wrap("FOO", impl)];
    assert s[1..][1..] == [];
  }
}
