/**
  The binder of the provider-based revision: `Binder.bindToState`,
  `bindArrayToState`, `bindTo` and `bindArrayTo`, and `BinderCore`, which
  decides whether `bindTo` builds a child of a binding or a new
  store-anchored binding over plain data.

  The component is its `state`, the world value; a data parent is
  described by where it lives (an `Anchor`).
 */
module Binders {
  import opened JsValue
  import opened Converters
  import opened Notifiers
  import opened Store
  import opened Bindings

  /** What `bindTo` is handed as its `parent`: a value binding (a
      `PathObjectBinding` or `PathParentBinding`, the classes the
      `instanceof` test recognises) or plain data. */
  datatype BindParent =
    | Binding(node: Node)
    | Data(anchor: Anchor)

  predicate IsValueBinding(n: Node) {
    n.PathObject? || n.PathParent?
  }

  predicate WellFormed(p: BindParent) {
    p.Binding? ==> IsValueBinding(p.node)
  }

  // ---------------------------------------------------------------------
  // BinderCore, as written

  /** `BinderCore.bindTo` as written: over plain data it passes the
      converter as the fourth constructor argument, which is the
      `notifyChange` slot, and no converter at all. A converter object is
      not callable. */
  function BindToAsWritten(p: BindParent, path: Option<string>, c: Option<Converter>, params: JVal): (r: Res<Node>)
    requires WellFormed(p)
    ensures r.Ok? <==> CurryOrPass(c, params).Ok?
    ensures r.Ok? && p.Data? ==>
              r.value.PathObject? && r.value.conv.None? &&
              (NotifySlot(r.value) == NotCallable <==> CurryOrPass(c, params).value.Some?)
  {
    var conv :- CurryOrPass(c, params);
    match p
    case Binding(n) => Ok(PathParent(n, path, conv))
    case Data(a) => Ok(PathObject(a, path, if conv.Some? then NotCallable else Silent, None, None))
  }

  /** `BinderCore.bindArrayTo` as written, with the same argument slip. */
  function BindArrayToAsWritten(p: BindParent, path: Option<string>, c: Option<Converter>, params: JVal): (r: Res<Node>)
    requires WellFormed(p)
    ensures r.Ok? <==> CurryOrPass(c, params).Ok?
    ensures r.Ok? && p.Data? ==>
              r.value.ArrayObject? && r.value.conv.None? &&
              (NotifySlot(r.value) == NotCallable <==> CurryOrPass(c, params).value.Some?)
  {
    var conv :- CurryOrPass(c, params);
    match p
    case Binding(n) => Ok(ArrayParent(n, path, conv))
    case Data(a) => Ok(ArrayObject(a, path, if conv.Some? then NotCallable else Silent, None))
  }

  /** With the slip, a binding over data with a converter never formats:
      it shows the raw stored value. */
  lemma BindToAsWrittenSkipsFormat(impl: Impl, w: JVal, a: Anchor, path: string, c: Converter)
    requires Get(Provider, w, a, Some(path)).Ok?
    ensures BindToAsWritten(Data(a), Some(path), Some(c), Undef).Ok?
    ensures Value(impl, w, BindToAsWritten(Data(a), Some(path), Some(c), Undef).value) ==
            Ok(Step(Get(Provider, w, a, Some(path)).value.world, [], Get(Provider, w, a, Some(path)).value.value))
  {
  }

  /** With the slip, every changed value that is stored is then followed by
      a call of the converter object, which throws. */
  lemma BindToAsWrittenSetThrows(impl: Impl, w: JVal, a: Anchor, path: string, c: Converter, v: JVal)
    requires Get(Provider, w, a, Some(path)).Ok?
    requires var prev := Get(Provider, w, a, Some(path)).value;
             !(prev.value != Undef && prev.value == v) && Set(Provider, prev.world, a, Some(path), v).Ok?
    ensures BindToAsWritten(Data(a), Some(path), Some(c), Undef).Ok?
    ensures SetNodeValue(impl, w, BindToAsWritten(Data(a), Some(path), Some(c), Undef).value, v) == Throw(TypeError)
  {
  }

  /** A concrete case: `bindTo(person, "age", converter)` over
      `{person: {age: 1}}`, then setting 2, throws instead of storing
      quietly. */
  lemma BindToAsWrittenExample(impl: Impl)
    ensures var w := Obj(map["person" := Obj(map["age" := Num(1)])]);
            var c := Functions(Some(0), Some(1));
            BindToAsWritten(Data(InWorld(["person"])), Some("age"), Some(c), Undef).Ok? &&
            SetNodeValue(impl, w, BindToAsWritten(Data(InWorld(["person"])), Some("age"), Some(c), Undef).value, Num(2)) == Throw(TypeError)
  {
    var w := Obj(map["person" := Obj(map["age" := Num(1)])]);
    PersonAge(w);
    BindToAsWrittenSetThrows(impl, w, InWorld(["person"]), "age", Functions(Some(0), Some(1)), Num(2));
  }

  /** The store facts both concrete cases rest on. */
  lemma PersonAge(w: JVal)
    requires w == Obj(map["person" := Obj(map["age" := Num(1)])])
    ensures Get(Provider, w, InWorld(["person"]), Some("age")) == Ok(Read(w, Num(1), Some(["person", "age"])))
    ensures Set(Provider, w, InWorld(["person"]), Some("age"), Num(2)) == Ok(Obj(map["person" := Obj(map["age" := Num(2)])]))
  {
    assert ObjectProvider.NoDot("age");
    ReadUnderKey(w, "person", "age");
    WriteUnderKey(w, "person", "age", Num(2));
    PersonAgeUpdated(w);
  }

  lemma PersonAgeUpdated(w: JVal)
    requires w == Obj(map["person" := Obj(map["age" := Num(1)])])
    ensures Update(w, ["person"], Put(Prop(w, "person"), "age", Num(2))) == Obj(map["person" := Obj(map["age" := Num(2)])])
  {
    assert map["age" := Num(1)]["age" := Num(2)] == map["age" := Num(2)];
    assert Update(w, ["person"], Obj(map["age" := Num(2)])) == Put(w, "person", Obj(map["age" := Num(2)]));
    assert map["person" := Obj(map["age" := Num(1)])]["person" := Obj(map["age" := Num(2)])] == map["person" := Obj(map["age" := Num(2)])];
  }

  // ---------------------------------------------------------------------
  // BinderCore, corrected

  /** `BinderCore.bindTo` with the converter in its own slot: a child of a
      value binding, or a store-anchored node over data with no
      `notifyChange`. */
  function BindTo(p: BindParent, path: Option<string>, c: Option<Converter>, params: JVal): (r: Res<Node>)
    requires WellFormed(p)
    ensures r.Ok? <==> CurryOrPass(c, params).Ok?
    ensures r.Ok? ==> r.value.conv == CurryOrPass(c, params).value
    ensures r.Ok? && p.Binding? ==>
              r.value.PathParent? && Parent(r.value) == Some(p.node) &&
              SourceAnchor(r.value) == SourceAnchor(p.node) && NotifySlot(r.value) == NotifySlot(p.node)
    ensures r.Ok? && p.Data? ==>
              r.value.PathObject? && Root(r.value) == r.value && SourceAnchor(r.value) == p.anchor &&
              NotifySlot(r.value) == Silent && Path(r.value) == path
  {
    var conv :- CurryOrPass(c, params);
    match p
    case Binding(n) => Ok(PathParent(n, path, conv))
    case Data(a) => Ok(PathObject(a, path, Silent, conv, None))
  }

  /** `BinderCore.bindArrayTo` with the converter in its own slot. */
  function BindArrayTo(p: BindParent, path: Option<string>, c: Option<Converter>, params: JVal): (r: Res<Node>)
    requires WellFormed(p)
    ensures r.Ok? <==> CurryOrPass(c, params).Ok?
    ensures r.Ok? ==> r.value.conv == CurryOrPass(c, params).value
    ensures r.Ok? && p.Binding? ==>
              r.value.ArrayParent? && Parent(r.value) == Some(p.node) &&
              SourceAnchor(r.value) == SourceAnchor(p.node) && NotifySlot(r.value) == NotifySlot(p.node)
    ensures r.Ok? && p.Data? ==>
              r.value.ArrayObject? && SourceAnchor(r.value) == p.anchor &&
              NotifySlot(r.value) == Silent && Path(r.value) == path
  {
    var conv :- CurryOrPass(c, params);
    match p
    case Binding(n) => Ok(ArrayParent(n, path, conv))
    case Data(a) => Ok(ArrayObject(a, path, Silent, conv))
  }

  /** The corrected binder formats what it shows: over data, the value is
      the stored value through the (curried) converter. */
  lemma BindToFormats(impl: Impl, w: JVal, a: Anchor, path: string, c: Converter, params: JVal)
    requires Get(Provider, w, a, Some(path)).Ok?
    ensures BindTo(Data(a), Some(path), Some(c), params).Ok?
    ensures var raw := Get(Provider, w, a, Some(path)).value;
            var conv := if params == Undef then c else Curry(c, params);
            Value(impl, w, BindTo(Data(a), Some(path), Some(c), params).value).Ok? <==> Convert(impl, conv, Format, raw.value).Ok?
    ensures var raw := Get(Provider, w, a, Some(path)).value;
            var conv := if params == Undef then c else Curry(c, params);
            Value(impl, w, BindTo(Data(a), Some(path), Some(c), params).value).Ok? ==>
              Value(impl, w, BindTo(Data(a), Some(path), Some(c), params).value).value.out == Convert(impl, conv, Format, raw.value).value
  {
  }

  /** The corrected binder over data parses the value, stores it and
      notifies nobody, where the written one throws. */
  lemma BindToSetStores(impl: Impl, w: JVal, a: Anchor, path: string, c: Converter, v: JVal)
    requires Get(Provider, w, a, Some(path)).Ok? && Convert(impl, c, Parse, v).Ok?
    requires var prev := Get(Provider, w, a, Some(path)).value;
             var x := Convert(impl, c, Parse, v).value;
             !(prev.value != Undef && prev.value == x) && Set(Provider, prev.world, a, Some(path), x).Ok?
    ensures BindTo(Data(a), Some(path), Some(c), Undef).Ok?
    ensures var prev := Get(Provider, w, a, Some(path)).value;
            var x := Convert(impl, c, Parse, v).value;
            SetNodeValue(impl, w, BindTo(Data(a), Some(path), Some(c), Undef).value, v) ==
              Ok(Step(Set(Provider, prev.world, a, Some(path), x).value, [], ()))
  {
  }

  /** The same concrete case goes through and notifies nobody. */
  lemma BindToExample(impl: Impl)
    requires impl(1, Num(2), Undef) == Num(2)
    ensures var w := Obj(map["person" := Obj(map["age" := Num(1)])]);
            var c := Functions(Some(0), Some(1));
            BindTo(Data(InWorld(["person"])), Some("age"), Some(c), Undef).Ok? &&
            SetNodeValue(impl, w, BindTo(Data(InWorld(["person"])), Some("age"), Some(c), Undef).value, Num(2)) ==
              Ok(Step(Obj(map["person" := Obj(map["age" := Num(2)])]), [], ()))
  {
    var w := Obj(map["person" := Obj(map["age" := Num(1)])]);
    PersonAge(w);
    BindToSetStores(impl, w, InWorld(["person"]), "age", Functions(Some(0), Some(1)), Num(2));
  }

  // ---------------------------------------------------------------------
  // Binder

  /** `Binder.bindToState(component, key, path, converter, params)`: a
      root binding over `state[key]` whose `notifyChange` publishes
      `key`. Reading a property of a nullish state throws, and so does
      currying a missing converter. */
  function BindToState(w: JVal, key: string, path: Option<string>, c: Option<Converter>, params: JVal): (r: Res<Node>)
    ensures r.Ok? <==> !IsNullish(w) && CurryOrPass(c, params).Ok?
    ensures r.Ok? ==>
              r.value.PathObject? && Root(r.value) == r.value &&
              SourceOf(w, SourceAnchor(r.value)) == Prop(w, key) &&
              NotifySlot(r.value) == StateKeySetter(key) && Path(r.value) == path &&
              r.value.conv == CurryOrPass(c, params).value
  {
    if IsNullish(w) then Throw(TypeError)
    else
      var conv :- CurryOrPass(c, params);
      assert Lookup(w, [key]) == Prop(w, key);
      Ok(PathObject(InWorld([key]), path, StateKeySetter(key), conv, None))
  }

  /** `Binder.bindArrayToState(component, key, path)`. */
  function BindArrayToState(w: JVal, key: string, path: Option<string>): (r: Res<Node>)
    ensures r.Ok? <==> !IsNullish(w)
    ensures r.Ok? ==>
              r.value.ArrayObject? && r.value.conv.None? &&
              SourceOf(w, SourceAnchor(r.value)) == Prop(w, key) &&
              NotifySlot(r.value) == StateKeySetter(key) && Path(r.value) == path
  {
    if IsNullish(w) then Throw(TypeError)
    else
      assert Lookup(w, [key]) == Prop(w, key);
      Ok(ArrayObject(InWorld([key]), path, StateKeySetter(key), None))
  }

  /** A write through a state binding publishes the state key's new value:
      the patch handed to `setState` agrees with the world the write left. */
  lemma StateBindingPublishesKey(impl: Impl, w: JVal, key: string, p: string, c: Option<Converter>, v: JVal)
    requires BindToState(w, key, Some(p), c, Undef).Ok?
    requires SetNodeValue(impl, w, BindToState(w, key, Some(p), c, Undef).value, v).Ok?
    ensures var s := SetNodeValue(impl, w, BindToState(w, key, Some(p), c, Undef).value, v).value;
            s.events == [] || s.events == [SetState(map[key := Prop(s.world, key)])]
  {
  }

  /** Binding `b` below a state binding of `a` addresses what a state
      binding of `a.b` does: it shows the same value and, except that only
      the root rewrites undefined over undefined, stores alike. */
  lemma BindToBelowState(impl: Impl, w: JVal, key: string, a: string, b: string, c1: Option<Converter>, c: Option<Converter>, v: JVal)
    requires BindToState(w, key, Some(a), c1, Undef).Ok?
    ensures var parent := BindToState(w, key, Some(a), c1, Undef).value;
            BindTo(Binding(parent), Some(b), c, Undef).Ok? && BindToState(w, key, Some(a + "." + b), c, Undef).Ok?
    ensures var child := BindTo(Binding(BindToState(w, key, Some(a), c1, Undef).value), Some(b), c, Undef).value;
            var direct := BindToState(w, key, Some(a + "." + b), c, Undef).value;
            Value(impl, w, child) == Value(impl, w, direct)
    ensures var child := BindTo(Binding(BindToState(w, key, Some(a), c1, Undef).value), Some(b), c, Undef).value;
            var direct := BindToState(w, key, Some(a + "." + b), c, Undef).value;
            (RawRead(w, direct).Ok? && RawRead(w, direct).value.value == Undef && Apply(impl, c, Parse, v) == Ok(Undef)) ||
            SetNodeValue(impl, w, child, v) == SetNodeValue(impl, w, direct, v)
  {
    var parent := BindToState(w, key, Some(a), c1, Undef).value;
    var child := BindTo(Binding(parent), Some(b), c, Undef).value;
    var direct := BindToState(w, key, Some(a + "." + b), c, Undef).value;
    assert Path(child) == Path(direct);
    SameReads(w, child, direct);
    SameAddressWrites(impl, w, child, direct, v);
  }

  /** A child and a root with a path that address the same place through
      the same converter and notifier store alike, except where the root
      rewrites undefined over undefined. */
  lemma SameAddressWrites(impl: Impl, w: JVal, child: Node, direct: Node, v: JVal)
    requires child.PathParent? && direct.PathObject? && direct.path.Some?
    requires Path(child) == Path(direct) && SourceAnchor(child) == SourceAnchor(direct)
    requires NotifySlot(child) == NotifySlot(direct) && child.conv == direct.conv
    requires RawRead(w, child) == RawRead(w, direct)
    ensures (RawRead(w, direct).Ok? && RawRead(w, direct).value.value == Undef && Apply(impl, direct.conv, Parse, v) == Ok(Undef)) ||
            SetNodeValue(impl, w, child, v) == SetNodeValue(impl, w, direct, v)
  {
  }
}
