/**
  Change notification. A binding's `notifyChange` slot holds nothing, a
  user callback, or one of the state-key setters the binders build; calling
  it is recorded as an event instead of being performed. `component.state`
  is the world value the bindings read, and `component.setState(patch)` is
  recorded with the patch it receives.
 */
module Notifiers {
  import opened JsValue

  datatype Event =
    | Called(callback: nat, arg: JVal)
    | SetState(patch: map<string, JVal>)

  datatype Notifier =
    | Silent
      // `notifyChange` is undefined: nothing is called.
    | Callback(id: nat)
      // a user function, named by a number.
    | StateKeySetter(key: string)
      // `Binder.createStateKeySetter(component, key)`.
    | LiteralKeySetter(key: string)
      // the mixin's `createStateKeySetter(component, key)`, as written.
    | NotCallable
      // a value that is not a function ended up in the slot.

  /** What an operation on a binding leaves behind: the world (the
      component state) after it, the notifications made, and its answer. */
  datatype Step<T> = Step(world: JVal, events: seq<Event>, out: T)

  /** `notifyChange(arg)` (`arg` is undefined for a call without one) with
      the component state `state`.

      - The state-key setter publishes the argument under `key`, or, without
        an argument, the current `state[key]`.
      - The mixin's setter ignores its argument and publishes `state[key]`
        under the literal property name `"key"`.
      - Calling something that is not a function throws.

      Reading `state[key]` of a null or undefined state would throw in
      the code; here it reads as undefined. The binders refuse a nullish
      state when they build a setter, so only a hand-built node meets
      this case. */
  function Invoke(state: JVal, n: Notifier, arg: JVal): (r: Res<seq<Event>>)
    ensures n.Silent? ==> r == Ok([])
    ensures n.NotCallable? <==> r.Throw?
    ensures r.Ok? && !n.Silent? ==> |r.value| == 1
  {
    match n
    case Silent => Ok([])
    case Callback(id) => Ok([Called(id, arg)])
    case StateKeySetter(key) => Ok([SetState(map[key := if arg != Undef then arg else Prop(state, key)])])
    case LiteralKeySetter(key) => Ok([SetState(map["key" := Prop(state, key)])])
    case NotCallable => Throw(TypeError)
  }

  /** The binder's setter resubmits the current state under its key when
      called without a value, and submits the value itself otherwise. */
  lemma StateKeySetterPublishes(state: JVal, key: string, arg: JVal)
    ensures var r := Invoke(state, StateKeySetter(key), arg);
            r.Ok? && |r.value| == 1 && r.value[0].SetState? &&
            r.value[0].patch.Keys == {key} &&
            r.value[0].patch[key] == (if arg == Undef then Prop(state, key) else arg)
  {
  }

  /** The mixin's setter, as written, publishes under `"key"` whatever the
      key: for any other key the state property it was built for is never
      in the patch. */
  lemma LiteralKeySetterMisses(state: JVal, key: string, arg: JVal)
    requires key != "key"
    ensures var r := Invoke(state, LiteralKeySetter(key), arg);
            r.Ok? && |r.value| == 1 && r.value[0].SetState? && key !in r.value[0].patch
  {
  }

  /** `createStateKeySetter(this, "data")` of the mixin, as written, sets
      `{key: state.data}`. */
  lemma LiteralKeySetterExample(state: JVal)
    ensures Invoke(state, LiteralKeySetter("data"), Undef) == Ok([SetState(map["key" := Prop(state, "data")])])
    ensures Invoke(state, StateKeySetter("data"), Undef) == Ok([SetState(map["data" := Prop(state, "data")])])
  {
  }
}
