/**
  The `Binder` class of `src/DataBinding.ts`, which builds the embedded
  revision's nodes. `bindTo` and `bindArrayTo` always build a child of the
  binding they are handed; only `bindTo` takes a converter.
 */
module EmbeddedBinder {
  import opened JsValue
  import opened Converters
  import opened Notifiers
  import opened Store
  import opened EmbeddedBindings

  /** `Binder.bindToState(component, key, path, converter, params)`. */
  function BindToState(w: JVal, key: string, path: Option<string>, c: Option<Converter>, params: JVal): (r: Res<Node>)
    ensures r.Ok? <==> !IsNullish(w) && CurryOrPass(c, params).Ok?
    ensures r.Ok? ==>
              r.value.PathObject? && SourceOf(w, SourceAnchor(r.value)) == Prop(w, key) &&
              NotifySlot(r.value) == StateKeySetter(key) && Path(r.value) == path &&
              r.value.conv == CurryOrPass(c, params).value
  {
    if IsNullish(w) then Throw(TypeError)
    else
      var conv :- CurryOrPass(c, params);
      assert Lookup(w, [key]) == Prop(w, key);
      Ok(PathObject(InWorld([key]), path, StateKeySetter(key), conv))
  }

  /** `Binder.bindArrayToState(component, key, path)`. */
  function BindArrayToState(w: JVal, key: string, path: Option<string>): (r: Res<Node>)
    ensures r.Ok? <==> !IsNullish(w)
    ensures r.Ok? ==>
              r.value.ArrayObject? && SourceOf(w, SourceAnchor(r.value)) == Prop(w, key) &&
              NotifySlot(r.value) == StateKeySetter(key) && Path(r.value) == path
  {
    if IsNullish(w) then Throw(TypeError)
    else
      assert Lookup(w, [key]) == Prop(w, key);
      Ok(ArrayObject(InWorld([key]), path, StateKeySetter(key)))
  }

  /** `Binder.bindTo(parent, path, converter, params)`: a child that shares
      its parent's source and `notifyChange`. */
  function BindTo(parent: Node, path: Option<string>, c: Option<Converter>, params: JVal): (r: Res<Node>)
    ensures r.Ok? <==> CurryOrPass(c, params).Ok?
    ensures r.Ok? ==>
              r.value.PathParent? && r.value.parentBinding == parent && r.value.conv == CurryOrPass(c, params).value &&
              SourceAnchor(r.value) == SourceAnchor(parent) && NotifySlot(r.value) == NotifySlot(parent)
  {
    var conv :- CurryOrPass(c, params);
    Ok(PathParent(parent, path, conv))
  }

  /** `Binder.bindArrayTo(parent, path)`. */
  function BindArrayTo(parent: Node, path: Option<string>): (r: Node)
    ensures r.ArrayParent? && r.parentBinding == parent
    ensures SourceAnchor(r) == SourceAnchor(parent) && NotifySlot(r) == NotifySlot(parent)
    ensures path.Some? ==> Path(r) == Path(BindTo(parent, path, None, Undef).value)
  {
    ArrayParent(parent, path)
  }

  /** A write through a state binding publishes the state key's new value. */
  lemma StateBindingPublishesKey(impl: Impl, w: JVal, key: string, p: string, c: Option<Converter>, v: JVal)
    requires BindToState(w, key, Some(p), c, Undef).Ok?
    requires SetNodeValue(impl, w, BindToState(w, key, Some(p), c, Undef).value, v).Ok?
    ensures var s := SetNodeValue(impl, w, BindToState(w, key, Some(p), c, Undef).value, v).value;
            s.events == [] || s.events == [SetState(map[key := Prop(s.world, key)])]
  {
  }

  /** Binding `b` below a state binding addresses what a state binding of
      the joined path does, for reading and writing alike. */
  lemma BindToBelowState(impl: Impl, w: JVal, key: string, pa: Option<string>, b: string, c1: Option<Converter>, c: Option<Converter>, v: JVal)
    requires BindToState(w, key, pa, c1, Undef).Ok?
    ensures var joined := if pa.None? then b else pa.value + "." + b;
            BindTo(BindToState(w, key, pa, c1, Undef).value, Some(b), c, Undef).Ok? &&
            BindToState(w, key, Some(joined), c, Undef).Ok?
    ensures var joined := if pa.None? then b else pa.value + "." + b;
            var child := BindTo(BindToState(w, key, pa, c1, Undef).value, Some(b), c, Undef).value;
            var direct := BindToState(w, key, Some(joined), c, Undef).value;
            Value(impl, w, child) == Value(impl, w, direct) &&
            SetNodeValue(impl, w, child, v) == SetNodeValue(impl, w, direct, v)
  {
    var joined := if pa.None? then b else pa.value + "." + b;
    var parent := BindToState(w, key, pa, c1, Undef).value;
    var child := BindTo(parent, Some(b), c, Undef).value;
    var direct := BindToState(w, key, Some(joined), c, Undef).value;
    assert Path(child) == Some(joined);
    SameAddressAlike(impl, w, child, direct, v);
  }

  /** A child and a store-anchored node with a path that address the same
      place through the same converter and notifier behave alike. */
  lemma SameAddressAlike(impl: Impl, w: JVal, child: Node, direct: Node, v: JVal)
    requires child.PathParent? && direct.PathObject? && direct.path.Some?
    requires Path(child) == Path(direct) && SourceAnchor(child) == SourceAnchor(direct)
    requires NotifySlot(child) == NotifySlot(direct) && child.conv == direct.conv
    ensures Value(impl, w, child) == Value(impl, w, direct)
    ensures SetNodeValue(impl, w, child, v) == SetNodeValue(impl, w, direct, v)
  {
    SameAddressReads(w, child, direct);
    SameAddressWrites(impl, w, child, direct, v);
  }

  lemma SameAddressWrites(impl: Impl, w: JVal, child: Node, direct: Node, v: JVal)
    requires child.PathParent? && direct.PathObject? && direct.path.Some?
    requires Path(child) == Path(direct) && SourceAnchor(child) == SourceAnchor(direct)
    requires NotifySlot(child) == NotifySlot(direct) && child.conv == direct.conv
    requires RawRead(w, child) == RawRead(w, direct)
    ensures SetNodeValue(impl, w, child, v) == SetNodeValue(impl, w, direct, v)
  {
  }

  lemma SameAddressReads(w: JVal, child: Node, direct: Node)
    requires child.PathParent? && direct.PathObject? && direct.path.Some?
    requires Path(child) == Path(direct) && SourceAnchor(child) == SourceAnchor(direct)
    ensures RawRead(w, child) == RawRead(w, direct)
  {
  }
}
