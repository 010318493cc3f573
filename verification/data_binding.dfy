/**
  The binding nodes of the provider-based revision: `PathObjectBinding`
  and `ArrayObjectBinding` anchored at a store, `PathParentBinding` and
  `ArrayParentBinding` relative to a parent node. Every store goes through
  the plain-object provider.

  A node is an immutable value; an operation takes the world (the
  component state) and returns the world after it, the notifications it
  made, and its answer. A `notifyChange` setter on a child returns the
  rebuilt node. Object identity is approximated by value equality, and an
  item node refers to its element by the element's place in the world.
 */
module Bindings {
  import opened JsValue
  import opened JsArray
  import opened Converters
  import opened Notifiers
  import opened Store
  import ObjectProvider

  const Provider := ObjectProvider.Plain

  datatype Node =
    | PathObject(anchor: Anchor, path: Option<string>, notify: Notifier, conv: Option<Converter>, parentNode: Option<Node>)
    | ArrayObject(anchor: Anchor, path: Option<string>, notify: Notifier, conv: Option<Converter>)
    | PathParent(parentBinding: Node, relativePath: Option<string>, conv: Option<Converter>)
    | ArrayParent(parentBinding: Node, relativePath: Option<string>, conv: Option<Converter>)

  // ---------------------------------------------------------------------
  // The parent chain

  /** The `parent` getter. */
  function Parent(n: Node): Option<Node> {
    match n
    case PathObject(_, _, _, _, p) => p
    case ArrayObject(_, _, _, _) => None
    case PathParent(p, _, _) => Some(p)
    case ArrayParent(p, _, _) => Some(p)
  }

  /** The `root` getter: the top of the parent chain, a store-anchored node
      without a parent, and its own root. */
  function Root(n: Node): (r: Node)
    ensures Parent(r).None? && (r.PathObject? || r.ArrayObject?)
    decreases n
  {
    match n
    case PathObject(_, _, _, _, p) => if p.Some? then Root(p.value) else n
    case ArrayObject(_, _, _, _) => n
    case PathParent(p, _, _) => Root(p)
    case ArrayParent(p, _, _) => Root(p)
  }

  /** The root is reached by following `parent`: a node with a parent has
      that parent's root. */
  lemma RootFollowsParent(n: Node)
    ensures Parent(n).Some? ==> Root(n) == Root(Parent(n).value)
    ensures Parent(n).None? ==> Root(n) == n
    ensures Root(Root(n)) == Root(n)
  {
  }

  /** The `source` a node reads and writes through: a child delegates to
      its parent. */
  function SourceAnchor(n: Node): Anchor
    decreases n
  {
    match n
    case PathObject(a, _, _, _, _) => a
    case ArrayObject(a, _, _, _) => a
    case PathParent(p, _, _) => SourceAnchor(p)
    case ArrayParent(p, _, _) => SourceAnchor(p)
  }

  /** The `notifyChange` getter: a child reads its parent's slot. */
  function NotifySlot(n: Node): Notifier
    decreases n
  {
    match n
    case PathObject(_, _, f, _, _) => f
    case ArrayObject(_, _, f, _) => f
    case PathParent(p, _, _) => NotifySlot(p)
    case ArrayParent(p, _, _) => NotifySlot(p)
  }

  /** The `notifyChange` setter: a child writes its parent's slot. */
  function WithNotify(n: Node, f: Notifier): (r: Node)
    ensures NotifySlot(r) == f
    ensures Path(r) == Path(n) && SourceAnchor(r) == SourceAnchor(n) && r.conv == n.conv
    ensures (r.PathParent? || r.ArrayParent?) ==> NotifySlot(r.parentBinding) == f
    decreases n
  {
    match n
    case PathObject(a, p, _, c, pn) => PathObject(a, p, f, c, pn)
    case ArrayObject(a, p, _, c) => ArrayObject(a, p, f, c)
    case PathParent(p, rel, c) => PathParent(WithNotify(p, f), rel, c)
    case ArrayParent(p, rel, c) => ArrayParent(WithNotify(p, f), rel, c)
  }

  /** The `path` getter: a child's path is its parent's path, a dot, and
      the relative path. Without a parent path it is the relative path; an
      undefined relative path joins as empty text, except that an array
      child then keeps its parent's path. */
  function Path(n: Node): Option<string>
    decreases n
  {
    match n
    case PathObject(_, p, _, _, _) => p
    case ArrayObject(_, p, _, _) => p
    case PathParent(parent, rel, _) =>
      var pp := Path(parent);
      if pp.None? then rel else Some(pp.value + "." + rel.GetOr(""))
    case ArrayParent(parent, rel, _) =>
      var pp := Path(parent);
      if pp.None? then rel else if rel.None? then pp else Some(pp.value + "." + rel.value)
  }

  /** The provider sees a child's path as the parent's parts followed by
      the relative parts. */
  lemma ChildPathParts(parent: Node, rel: string, c: Option<Converter>)
    requires Path(parent).Some?
    ensures Path(PathParent(parent, Some(rel), c)).Some?
    ensures Path(ArrayParent(parent, Some(rel), c)) == Path(PathParent(parent, Some(rel), c))
    ensures ObjectProvider.SplitDots(Path(PathParent(parent, Some(rel), c)).value) ==
            ObjectProvider.SplitDots(Path(parent).value) + ObjectProvider.SplitDots(rel)
  {
    ObjectProvider.SplitDotsOfJoin(Path(parent).value, rel);
  }

  /** Without a relative path, an array child addresses its parent's path,
      and a value child its parent's path and an empty name. */
  lemma ChildWithoutRelativePath(parent: Node, c: Option<Converter>)
    requires Path(parent).Some?
    ensures Path(ArrayParent(parent, None, c)) == Path(parent)
    ensures Path(PathParent(parent, None, c)) == Some(Path(parent).value + ".")
    ensures ObjectProvider.GetProperty(Path(PathParent(parent, None, c)).value) == ""
  {
    assert Path(parent).value + "." + "" == Path(parent).value + ".";
    ObjectProvider.LastDotOfJoin(Path(parent).value, "");
  }

  /** Binding `b` below a binding of `a` addresses what binding `a.b`
      directly does. */
  lemma NestedPathsCompose(parent: Node, a: string, b: string, c1: Option<Converter>, c2: Option<Converter>)
    ensures Path(PathParent(PathParent(parent, Some(a), c1), Some(b), c2)) == Path(PathParent(parent, Some(a + "." + b), c2))
  {
    if Path(parent).Some? {
      assert Path(parent).value + "." + a + "." + b == Path(parent).value + "." + (a + "." + b);
    }
  }

  // ---------------------------------------------------------------------
  // Values

  /** The raw value at the node's path, through its source. */
  function RawRead(w: JVal, n: Node): (r: Res<Read>)
    ensures r.Ok? && r.value.at.Some? ==> Lookup(r.value.world, r.value.at.value) == r.value.value
  {
    Get(Provider, w, SourceAnchor(n), Path(n))
  }

  /** The `value` getter: the raw value, formatted when the node has a
      converter. Reading notifies nobody; the answer is the formatted value
      stored where the read located it, and without a converter a read
      that resolves never fails. */
  function Value(impl: Impl, w: JVal, n: Node): (r: Res<Step<JVal>>)
    requires n.PathObject? || n.PathParent?
    ensures r.Ok? ==> r.value.events == [] && RawRead(w, n).Ok? && r.value.world == RawRead(w, n).value.world
    ensures r.Ok? && RawRead(w, n).value.at.Some? ==>
              Apply(impl, n.conv, Format, Lookup(r.value.world, RawRead(w, n).value.at.value)) == Ok(r.value.out)
    ensures n.conv.None? ==> (r.Ok? <==> RawRead(w, n).Ok?)
    ensures n.conv.None? && r.Ok? ==> r.value.out == RawRead(w, n).value.value
    ensures RawRead(w, n).Ok? && !Apply(impl, n.conv, Format, RawRead(w, n).value.value).Ok? ==> r.Throw?
  {
    var raw :- RawRead(w, n);
    var v :- Apply(impl, n.conv, Format, raw.value);
    Ok(Step(raw.world, [], v))
  }

  /** When the setter skips the write: a root node skips only a defined
      value equal to the stored one, a child any equal value. */
  predicate Unchanged(n: Node, prev: JVal, x: JVal) {
    if n.PathObject? then prev != Undef && prev == x else prev == x
  }

  /** The `value` setter. The stored value is read, the new one parsed when
      there is a converter, and an unchanged value ends it there.
      Otherwise a root node without a path hands the value to
      `notifyChange` without storing it; every other node stores it and
      then calls `notifyChange()` without an argument. */
  function SetNodeValue(impl: Impl, w: JVal, n: Node, v: JVal): (r: Res<Step<()>>)
    requires n.PathObject? || n.PathParent?
    ensures r.Ok? ==> |r.value.events| <= 1
    ensures r.Ok? ==> RawRead(w, n).Ok?
    ensures r.Ok? && r.value.events == [] && NotifySlot(n) != Silent ==>
              r.value.world == RawRead(w, n).value.world
  {
    var prev :- RawRead(w, n);
    var x :- Apply(impl, n.conv, Parse, v);
    if Unchanged(n, prev.value, x) then Ok(Step(prev.world, [], ()))
    else if n.PathObject? && n.path.None? then
      var evs :- Invoke(prev.world, NotifySlot(n), x);
      Ok(Step(prev.world, evs, ()))
    else
      var w2 :- Set(Provider, prev.world, SourceAnchor(n), Path(n), x);
      var evs :- Invoke(w2, NotifySlot(n), Undef);
      Ok(Step(w2, evs, ()))
  }

  /** An unchanged value is neither stored nor announced. */
  lemma SetterSkipsUnchanged(impl: Impl, w: JVal, n: Node, v: JVal)
    requires n.PathObject? || n.PathParent?
    requires RawRead(w, n).Ok? && Apply(impl, n.conv, Parse, v).Ok?
    requires Unchanged(n, RawRead(w, n).value.value, Apply(impl, n.conv, Parse, v).value)
    ensures SetNodeValue(impl, w, n, v) == Ok(Step(RawRead(w, n).value.world, [], ()))
  {
  }

  /** A changed value is stored and announced exactly once, by one call of
      the node's (or its root's) `notifyChange` without an argument. */
  lemma SetterNotifiesOnce(impl: Impl, w: JVal, n: Node, v: JVal)
    requires n.PathObject? || n.PathParent?
    requires !(n.PathObject? && n.path.None?)
    requires RawRead(w, n).Ok? && Apply(impl, n.conv, Parse, v).Ok?
    requires !Unchanged(n, RawRead(w, n).value.value, Apply(impl, n.conv, Parse, v).value)
    requires Set(Provider, RawRead(w, n).value.world, SourceAnchor(n), Path(n), Apply(impl, n.conv, Parse, v).value).Ok?
    requires NotifySlot(n) != NotCallable
    ensures var w2 := Set(Provider, RawRead(w, n).value.world, SourceAnchor(n), Path(n), Apply(impl, n.conv, Parse, v).value).value;
            SetNodeValue(impl, w, n, v) == Ok(Step(w2, Invoke(w2, NotifySlot(n), Undef).value, ()))
    ensures |SetNodeValue(impl, w, n, v).value.events| == if NotifySlot(n) == Silent then 0 else 1
  {
  }

  /** A root node without a path stores nothing: it hands the parsed value
      to its `notifyChange`, which is how a binding to a whole state key
      publishes a new value. */
  lemma PathlessRootPublishes(impl: Impl, w: JVal, key: string, v: JVal)
    requires v != Undef && v != Prop(w, key)
    ensures var n := PathObject(InWorld([key]), None, StateKeySetter(key), None, None);
            SetNodeValue(impl, w, n, v) == Ok(Step(w, [SetState(map[key := v])], ()))
  {
    var n := PathObject(InWorld([key]), None, StateKeySetter(key), None, None);
    ObjectProvider.GetWithoutPath(Provider, Prop(w, key));
    assert Lookup(w, [key]) == Prop(w, key);
  }

  /** Unlike a child, a root node does not skip writing undefined over
      undefined: it stores it again and notifies. */
  lemma RootRewritesUndefined(impl: Impl, w: JVal, a: Anchor, p: string, id: nat)
    requires RawRead(w, PathObject(a, Some(p), Callback(id), None, None)).Ok?
    requires RawRead(w, PathObject(a, Some(p), Callback(id), None, None)).value.value == Undef
    requires Set(Provider, RawRead(w, PathObject(a, Some(p), Callback(id), None, None)).value.world, a, Some(p), Undef).Ok?
    ensures SetNodeValue(impl, w, PathObject(a, Some(p), Callback(id), None, None), Undef).Ok?
    ensures SetNodeValue(impl, w, PathObject(a, Some(p), Callback(id), None, None), Undef).value.events == [Called(id, Undef)]
    ensures SetNodeValue(impl, w, PathParent(PathObject(a, None, Callback(id), None, None), Some(p), None), Undef).Ok?
    ensures SetNodeValue(impl, w, PathParent(PathObject(a, None, Callback(id), None, None), Some(p), None), Undef).value.events == []
  {
    var root := PathObject(a, Some(p), Callback(id), None, None);
    var child := PathParent(PathObject(a, None, Callback(id), None, None), Some(p), None);
    assert Path(child) == Some(p) && SourceAnchor(child) == a && NotifySlot(child) == Callback(id);
    SameReads(w, child, root);
    var prev := RawRead(w, root).value;
    var w2 := Set(Provider, prev.world, a, Some(p), Undef).value;
    assert SetNodeValue(impl, w, root, Undef) == Ok(Step(w2, [Called(id, Undef)], ()));
    assert SetNodeValue(impl, w, child, Undef) == Ok(Step(prev.world, [], ()));
  }

  /** Nodes with the same source and path read the same. */
  lemma SameReads(w: JVal, n: Node, m: Node)
    requires Path(n) == Path(m) && SourceAnchor(n) == SourceAnchor(m)
    ensures RawRead(w, n) == RawRead(w, m)
  {
  }

  /** Without a converter, the value set is the value read back, provided
      the parent of the addressed property resolves to an object. */
  lemma SetThenValue(impl: Impl, w: JVal, n: Node, v: JVal)
    requires n.PathObject? || n.PathParent?
    requires n.conv.None? && Path(n).Some? && SourceAnchor(n).InWorld?
    requires NotifySlot(n) != NotCallable
    requires RawRead(w, n).Ok?
    requires var src := Lookup(RawRead(w, n).value.world, SourceAnchor(n).keys);
             var res := ObjectProvider.GetParent(Provider, src, Path(n));
             res.Ok? && res.value.parent.At? && IsObject(Lookup(res.value.src, res.value.parent.keys))
    ensures SetNodeValue(impl, w, n, v).Ok?
    ensures Value(impl, SetNodeValue(impl, w, n, v).value.world, n).Ok?
    ensures Value(impl, SetNodeValue(impl, w, n, v).value.world, n).value.out == v
  {
    var prev := RawRead(w, n).value;
    var keys := SourceAnchor(n).keys;
    SetThenGetInWorld(Provider, prev.world, keys, Path(n).value, v);
    if Unchanged(n, prev.value, v) {
      GetIsStable(Provider, w, SourceAnchor(n), Path(n));
    }
  }

  // ---------------------------------------------------------------------
  // Arrays

  /** The array an array node works on. A parent-relative array node reads
      it through `getItems`, which formats it when the node has a
      converter; the formatted array is not in the world. */
  function ReadItems(impl: Impl, w: JVal, n: Node): (r: Res<Read>)
    requires n.ArrayObject? || n.ArrayParent?
    ensures r.Ok? && r.value.at.Some? ==> Lookup(r.value.world, r.value.at.value) == r.value.value
    ensures r.Ok? && (n.ArrayObject? || n.conv.None?) ==> r == RawRead(w, n)
    ensures r.Ok? && n.ArrayParent? && n.conv.Some? ==>
              RawRead(w, n).Ok? && r.value.at.None? && r.value.world == RawRead(w, n).value.world &&
              Convert(impl, n.conv.value, Format, RawRead(w, n).value.value) == Ok(r.value.value)
    ensures r.Throw? ==>
              RawRead(w, n).Throw? ||
              (n.ArrayParent? && n.conv.Some? && Convert(impl, n.conv.value, Format, RawRead(w, n).value.value).Throw?)
  {
    var raw :- RawRead(w, n);
    if n.ArrayParent? && n.conv.Some? then
      var v :- Convert(impl, n.conv.value, Format, raw.value);
      Ok(Read(raw.world, v, None))
    else Ok(raw)
  }

  /** The item nodes: one root-anchored node per element, without a path,
      sharing the array node's `notifyChange`, with the array node as
      parent. */
  function ItemNodes(n: Node, at: Option<seq<string>>, es: seq<JVal>): (r: seq<Node>)
    ensures |r| == |es|
    ensures forall i :: 0 <= i < |r| ==> r[i] == PathObject(ItemAnchor(at, es, i), None, NotifySlot(n), None, Some(n))
  {
    seq(|es|, i requires 0 <= i < |es| => PathObject(ItemAnchor(at, es, i), None, NotifySlot(n), None, Some(n)))
  }

  /** The `items` getter: none for an undefined array, one node per
      element of an array, and a TypeError for anything else (it has no
      `map`). */
  function Items(impl: Impl, w: JVal, n: Node): (r: Res<Step<seq<Node>>>)
    requires n.ArrayObject? || n.ArrayParent?
    ensures r.Ok? ==> r.value.events == [] && ReadItems(impl, w, n).Ok?
    ensures r.Ok? ==> var a := ReadItems(impl, w, n).value.value;
                      (a == Undef ==> r.value.out == []) && (a != Undef ==> a.Arr? && |r.value.out| == |a.elems|)
    ensures ReadItems(impl, w, n).Ok? ==> (r.Ok? <==> ReadItems(impl, w, n).value.value.Undef? || ReadItems(impl, w, n).value.value.Arr?)
  {
    var a :- ReadItems(impl, w, n);
    match a.value
    case Undef => Ok(Step(a.world, [], []))
    case Arr(es, _) => Ok(Step(a.world, [], ItemNodes(n, a.at, es)))
    case _ => Throw(TypeError)
  }

  /** Every item has the array node as its parent, so it shares the array
      node's root and `notifyChange`; and an item read with no converter
      answers its element. */
  lemma ItemsBelongToArray(impl: Impl, w: JVal, n: Node, i: nat)
    requires n.ArrayObject? || n.ArrayParent?
    requires Items(impl, w, n).Ok? && i < |Items(impl, w, n).value.out|
    ensures var item := Items(impl, w, n).value.out[i];
            Parent(item) == Some(n) && Root(item) == Root(n) && NotifySlot(item) == NotifySlot(n) &&
            Path(item).None? && item.conv.None?
    ensures var s := Items(impl, w, n).value;
            var item := s.out[i];
            Value(impl, s.world, item) == Ok(Step(s.world, [], ReadItems(impl, w, n).value.value.elems[i]))
  {
    var a := ReadItems(impl, w, n).value;
    var es := a.value.elems;
    var item := Items(impl, w, n).value.out[i];
    assert item == PathObject(ItemAnchor(a.at, es, i), None, NotifySlot(n), None, Some(n));
    ItemAnchorHolds(a.world, a.at, es, a.value.extra, i);
    ObjectProvider.GetWithoutPath(Provider, es[i]);
  }

  /** The array the mutating operations work on: a missing array is first
      stored as `[]` and read again (raw, without the converter). */
  function ReadOrCreate(impl: Impl, w: JVal, n: Node): (r: Res<Read>)
    requires n.ArrayObject? || n.ArrayParent?
    ensures r.Ok? && r.value.at.Some? ==> Lookup(r.value.world, r.value.at.value) == r.value.value
    ensures ReadItems(impl, w, n).Ok? && ReadItems(impl, w, n).value.value != Undef ==> r == ReadItems(impl, w, n)
  {
    var a :- ReadItems(impl, w, n);
    if a.value != Undef then Ok(a)
    else
      var w2 :- Set(Provider, a.world, SourceAnchor(n), Path(n), EmptyArr);
      Get(Provider, w2, SourceAnchor(n), Path(n))
  }

  /** `add(defaultItem)`: push the item (`{}` when undefined) onto the
      array, then notify once. Only arrays have `push`. */
  function Add(impl: Impl, w: JVal, n: Node, item: JVal): (r: Res<Step<()>>)
    requires n.ArrayObject? || n.ArrayParent?
    ensures r.Ok? ==> |r.value.events| <= 1
  {
    var a :- ReadOrCreate(impl, w, n);
    if !a.value.Arr? then Throw(TypeError)
    else
      var d := if item == Undef then EmptyObj else item;
      var w2 := ReplaceAt(a.world, a.at, Arr(a.value.elems + [d], a.value.extra));
      var evs :- Invoke(w2, NotifySlot(n), Undef);
      Ok(Step(w2, evs, ()))
  }

  /** `add` appends exactly the item (or `{}`) to the array in the world
      and notifies exactly once. */
  lemma AddAppends(impl: Impl, w: JVal, n: Node, item: JVal)
    requires n.ArrayObject? || n.ArrayParent?
    requires ReadOrCreate(impl, w, n).Ok? && ReadOrCreate(impl, w, n).value.value.Arr?
    requires ReadOrCreate(impl, w, n).value.at.Some?
    requires NotifySlot(n) != NotCallable
    ensures Add(impl, w, n, item).Ok?
    ensures var a := ReadOrCreate(impl, w, n).value;
            var after := Lookup(Add(impl, w, n, item).value.world, a.at.value);
            after.Arr? && after.elems == a.value.elems + [if item == Undef then EmptyObj else item]
    ensures |Add(impl, w, n, item).value.events| == if NotifySlot(n) == Silent then 0 else 1
  {
    var a := ReadOrCreate(impl, w, n).value;
    var d := if item == Undef then EmptyObj else item;
    ReplaceAtReads(a.world, a.at.value, Arr(a.value.elems + [d], a.value.extra));
  }

  /** A dot-free path under a state key whose value is an object reads
      the property in place. */
  lemma ReadUnderKey(w: JVal, k: string, p: string)
    requires ObjectProvider.NoDot(p) && IsObject(Prop(w, k))
    ensures Get(Provider, w, InWorld([k]), Some(p)) == Ok(Read(w, Prop(Prop(w, k), p), Some([k, p])))
  {
    var src := Prop(w, k);
    assert Lookup(w, [k]) == src;
    ObjectProvider.GetPropertyMeaning(p);
    ObjectProvider.NoDotParentIsSource(Provider, src, p);
    assert Lookup(src, []) == src;
    assert ObjectProvider.GetValue(Provider, src, Some(p)) == Ok(ObjectProvider.Got(src, Prop(src, p), Some([] + [p])));
    assert [k] + ([] + [p]) == [k, p];
  }

  /** And writes it in place. */
  lemma WriteUnderKey(w: JVal, k: string, p: string, v: JVal)
    requires ObjectProvider.NoDot(p) && IsObject(Prop(w, k))
    ensures Set(Provider, w, InWorld([k]), Some(p), v) == Ok(Update(w, [k], Put(Prop(w, k), p, v)))
  {
    var src := Prop(w, k);
    assert Lookup(w, [k]) == src;
    ObjectProvider.GetPropertyMeaning(p);
    ObjectProvider.NoDotParentIsSource(Provider, src, p);
    assert Lookup(src, []) == src;
    assert Update(src, [], Put(src, p, v)) == Put(src, p, v);
    if Put(src, p, v) == src {
      ObjectProvider.PropDefined(w, k);
      UpdateSame(w, [k]);
    }
  }

  /** A missing array under a state key is created empty, in place. */
  lemma CreateUnderKey(impl: Impl, w: JVal, k: string, p: string, f: Notifier)
    requires ObjectProvider.NoDot(p) && IsObject(Prop(w, k)) && Prop(Prop(w, k), p) == Undef
    ensures var n := ArrayObject(InWorld([k]), Some(p), f, None);
            var w2 := Update(w, [k], Put(Prop(w, k), p, EmptyArr));
            ReadOrCreate(impl, w, n) == Ok(Read(w2, EmptyArr, Some([k, p])))
  {
    var n := ArrayObject(InWorld([k]), Some(p), f, None);
    ReadUnderKey(w, k, p);
    WriteUnderKey(w, k, p, EmptyArr);
    var w2 := Update(w, [k], Put(Prop(w, k), p, EmptyArr));
    PropPut(Prop(w, k), p, EmptyArr);
    assert Prop(w2, k) == Put(Prop(w, k), p, EmptyArr);
    ReadUnderKey(w2, k, p);
  }

  /** `bindArrayToState(component, "data", "Hobbies").add()` on state
      `{data: {}}` creates the array and puts one empty object in it. */
  lemma AddCreatesArray(impl: Impl)
    ensures var w := Obj(map["data" := EmptyObj]);
            var n := ArrayObject(InWorld(["data"]), Some("Hobbies"), StateKeySetter("data"), None);
            var hobbies := Obj(map["Hobbies" := Arr([EmptyObj], map[])]);
            Add(impl, w, n, Undef) == Ok(Step(Obj(map["data" := hobbies]), [SetState(map["data" := hobbies])], ()))
  {
    var w := Obj(map["data" := EmptyObj]);
    var n := ArrayObject(InWorld(["data"]), Some("Hobbies"), StateKeySetter("data"), None);
    var p := "Hobbies";
    assert ObjectProvider.LastDot(p).None?;
    CreateUnderKey(impl, w, "data", p, StateKeySetter("data"));
    var inner := Obj(map["Hobbies" := EmptyArr]);
    var w2 := Obj(map["data" := inner]);
    CreatedWorld();
    AppendedWorld(w2, inner);
    var hobbies := Obj(map["Hobbies" := Arr([EmptyObj], map[])]);
    AddOnRead(impl, w, n, Undef, Read(w2, EmptyArr, Some(["data", p])), [SetState(map["data" := hobbies])]);
  }

  /** `add` once the array is read and the notifier has answered. */
  lemma AddOnRead(impl: Impl, w: JVal, n: Node, item: JVal, a: Read, evs: seq<Event>)
    requires n.ArrayObject? || n.ArrayParent?
    requires ReadOrCreate(impl, w, n) == Ok(a) && a.value.Arr?
    requires var d := if item == Undef then EmptyObj else item;
             Invoke(ReplaceAt(a.world, a.at, Arr(a.value.elems + [d], a.value.extra)), NotifySlot(n), Undef) == Ok(evs)
    ensures var d := if item == Undef then EmptyObj else item;
            Add(impl, w, n, item) == Ok(Step(ReplaceAt(a.world, a.at, Arr(a.value.elems + [d], a.value.extra)), evs, ()))
  {
  }

  /** The world after the array is created in `AddCreatesArray`. */
  lemma CreatedWorld()
    ensures Update(Obj(map["data" := EmptyObj]), ["data"], Put(EmptyObj, "Hobbies", EmptyArr)) ==
            Obj(map["data" := Obj(map["Hobbies" := EmptyArr])])
  {
    var w := Obj(map["data" := EmptyObj]);
    assert Update(EmptyObj, [], Put(EmptyObj, "Hobbies", EmptyArr)) == Obj(map["Hobbies" := EmptyArr]);
    assert Prop(w, "data") == EmptyObj;
    assert w.props["data" := Obj(map["Hobbies" := EmptyArr])] == map["data" := Obj(map["Hobbies" := EmptyArr])];
  }

  /** The world after the append in `AddCreatesArray`, and what its
      notifier publishes. */
  lemma AppendedWorld(w2: JVal, inner: JVal)
    requires inner == Obj(map["Hobbies" := EmptyArr]) && w2 == Obj(map["data" := inner])
    ensures var hobbies := Obj(map["Hobbies" := Arr([EmptyObj], map[])]);
            var w3 := ReplaceAt(w2, Some(["data", "Hobbies"]), Arr([] + [EmptyObj], map[]));
            w3 == Obj(map["data" := hobbies]) &&
            Invoke(w3, StateKeySetter("data"), Undef) == Ok([SetState(map["data" := hobbies])])
  {
    var hobbies := Obj(map["Hobbies" := Arr([EmptyObj], map[])]);
    var w3 := Obj(map["data" := hobbies]);
    AppendedUnderKey(w2, inner, hobbies);
    assert Prop(w3, "data") == hobbies;
  }

  lemma AppendedUnderKey(w2: JVal, inner: JVal, hobbies: JVal)
    requires inner == Obj(map["Hobbies" := EmptyArr]) && w2 == Obj(map["data" := inner])
    requires hobbies == Obj(map["Hobbies" := Arr([EmptyObj], map[])])
    ensures Update(w2, ["data", "Hobbies"], Arr([] + [EmptyObj], map[])) == Obj(map["data" := hobbies])
  {
    var arr := Arr([] + [EmptyObj], map[]);
    assert [] + [EmptyObj] == [EmptyObj];
    assert map["Hobbies" := EmptyArr]["Hobbies" := arr] == map["Hobbies" := arr];
    assert Update(inner, ["Hobbies"], arr) == Put(inner, "Hobbies", arr) == hobbies;
    assert Update(w2, ["data", "Hobbies"], arr) == Put(w2, "data", Update(inner, ["Hobbies"], arr));
  }

  /** `remove(item)`: nothing for an undefined array or an absent item;
      otherwise the first occurrence is cut out and one notification
      follows. */
  function Remove(impl: Impl, w: JVal, n: Node, item: JVal): (r: Res<Step<()>>)
    requires n.ArrayObject? || n.ArrayParent?
    ensures r.Ok? ==> |r.value.events| <= 1
    ensures ReadItems(impl, w, n).Ok? && ReadItems(impl, w, n).value.value.Arr? &&
            item !in ReadItems(impl, w, n).value.value.elems ==>
              r == Ok(Step(ReadItems(impl, w, n).value.world, [], ()))
    ensures ReadItems(impl, w, n).Ok? && ReadItems(impl, w, n).value.value == Undef ==>
              r == Ok(Step(ReadItems(impl, w, n).value.world, [], ()))
  {
    var a :- ReadItems(impl, w, n);
    if a.value == Undef then Ok(Step(a.world, [], ()))
    else
      var removed :- RemoveItem(a.value, item);
      match removed
      case None => Ok(Step(a.world, [], ()))
      case Some(rest) =>
        var w2 := ReplaceAt(a.world, a.at, Arr(rest, a.value.extra));
        var evs :- Invoke(w2, NotifySlot(n), Undef);
        Ok(Step(w2, evs, ()))
  }

  /** Removing a present item leaves the array without its first
      occurrence, in the world, and notifies once. */
  lemma RemoveDeletesOne(impl: Impl, w: JVal, n: Node, item: JVal)
    requires n.ArrayObject? || n.ArrayParent?
    requires ReadItems(impl, w, n).Ok? && ReadItems(impl, w, n).value.value.Arr?
    requires ReadItems(impl, w, n).value.at.Some?
    requires item in ReadItems(impl, w, n).value.value.elems
    requires NotifySlot(n) != NotCallable
    ensures Remove(impl, w, n, item).Ok?
    ensures var a := ReadItems(impl, w, n).value;
            var after := Lookup(Remove(impl, w, n, item).value.world, a.at.value);
            after.Arr? && |after.elems| == |a.value.elems| - 1 &&
            multiset(after.elems) + multiset{item} == multiset(a.value.elems)
    ensures |Remove(impl, w, n, item).value.events| == if NotifySlot(n) == Silent then 0 else 1
  {
    var a := ReadItems(impl, w, n).value;
    RemoveInPlace(a.world, a.at.value, a.value.elems, a.value.extra, item);
    var rest := RemoveFirst(a.value.elems, item).value;
    var w2 := ReplaceAt(a.world, a.at, Arr(rest, a.value.extra));
    assert RemoveItem(a.value, item) == Ok(Some(rest));
    assert Remove(impl, w, n, item) == Ok(Step(w2, Invoke(w2, NotifySlot(n), Undef).value, ()));
  }

  /** `splice(start, deleteCount, elementsToAdd)`: the bound `splice` on the
      array in place; it answers the removed elements (undefined for an
      undefined array) and notifies nobody. */
  function SpliceItems(impl: Impl, w: JVal, n: Node, start: int, deleteCount: int, elementsToAdd: JVal): (r: Res<Step<Option<seq<JVal>>>>)
    requires n.ArrayObject? || n.ArrayParent?
    ensures r.Ok? ==> r.value.events == [] && ReadItems(impl, w, n).Ok?
    ensures r.Ok? && r.value.out.Some? ==>
              var a := ReadItems(impl, w, n).value;
              a.value.Arr? &&
              r.value.out.value == SpliceIfTruthy(a.value.elems, start, deleteCount, elementsToAdd).removed &&
              (a.at.Some? ==> Lookup(r.value.world, a.at.value) ==
                                Arr(SpliceIfTruthy(a.value.elems, start, deleteCount, elementsToAdd).result, a.value.extra))
  {
    var a :- ReadItems(impl, w, n);
    if a.value == Undef then Ok(Step(a.world, [], None))
    else if !a.value.Arr? then Throw(TypeError)
    else
      var sp := SpliceIfTruthy(a.value.elems, start, deleteCount, elementsToAdd);
      var w2 := ReplaceAt(a.world, a.at, Arr(sp.result, a.value.extra));
      if a.at.Some? then
        ReplaceAtReads(a.world, a.at.value, Arr(sp.result, a.value.extra));
        Ok(Step(w2, [], Some(sp.removed)))
      else Ok(Step(w2, [], Some(sp.removed)))
  }

  /** `move(x, y)` of a store-anchored array node: the array is copied
      through JSON, the copy has the element moved with the native
      `splice` (which always inserts), and the copy is stored through the
      provider. Nobody is notified. */
  function MoveRootItems(w: JVal, n: Node, x: int, y: int): (r: Res<Step<()>>)
    requires n.ArrayObject?
    ensures r.Ok? ==> r.value.events == []
  {
    var a :- RawRead(w, n);
    if a.value == Undef then Ok(Step(a.world, [], ()))
    else
      var copy := JsonClone(a.value);
      if !copy.Arr? then Throw(TypeError)
      else
        var w2 :- Set(Provider, a.world, n.anchor, n.path, Arr(MoveAlwaysInserting(copy.elems, x, y), map[]));
        Ok(Step(w2, [], ()))
  }

  /** On plain data (no undefined anywhere) inside the world, the copy is
      the array itself, so the stored array is the moved one. */
  lemma MoveRootMovesPlainData(w: JVal, n: Node, x: int, y: int)
    requires n.ArrayObject? && n.anchor.InWorld? && n.path.Some?
    requires RawRead(w, n).Ok? && RawRead(w, n).value.value.Arr?
    requires IsPlainData(RawRead(w, n).value.value)
    requires StartIndex(x, |RawRead(w, n).value.value.elems|) < |RawRead(w, n).value.value.elems|
    requires var src := Lookup(RawRead(w, n).value.world, n.anchor.keys);
             var res := ObjectProvider.GetParent(Provider, src, n.path);
             res.Ok? && res.value.parent.At? && IsObject(Lookup(res.value.src, res.value.parent.keys))
    ensures MoveRootItems(w, n, x, y).Ok?
    ensures var a := RawRead(w, n).value;
            var after := RawRead(MoveRootItems(w, n, x, y).value.world, n);
            after.Ok? && after.value.value == Arr(MoveItem(a.value.elems, x, y), map[])
  {
    var a := RawRead(w, n).value;
    JsonCloneOfPlainData(a.value);
    SetThenGetInWorld(Provider, a.world, n.anchor.keys, n.path.value, Arr(MoveItem(a.value.elems, x, y), map[]));
  }

  /** `move(x, y)` of a parent-relative array node: the element is taken
      out with the node's own `splice` and put back with it, so a falsy
      element is lost (see `JsArray.MoveAsWritten`); one notification
      follows. A missing array throws, as taking element 0 of an undefined
      splice result does. */
  function MoveChildItems(impl: Impl, w: JVal, n: Node, x: int, y: int): (r: Res<Step<()>>)
    requires n.ArrayParent?
    ensures r.Ok? ==> |r.value.events| <= 1
    ensures r.Ok? ==> ReadItems(impl, w, n).Ok? && ReadItems(impl, w, n).value.value.Arr?
  {
    var a :- ReadItems(impl, w, n);
    if !a.value.Arr? then Throw(TypeError)
    else
      var w2 := ReplaceAt(a.world, a.at, Arr(MoveAsWritten(a.value.elems, x, y), a.value.extra));
      var evs :- Invoke(w2, NotifySlot(n), Undef);
      Ok(Step(w2, evs, ()))
  }

  /** The node's `move` as written keeps the array intact when the moved
      element is truthy, and shortens it by exactly that element when it is
      falsy; either way the move is announced once. */
  lemma MoveChildLosesFalsy(impl: Impl, w: JVal, n: Node, x: int, y: int)
    requires n.ArrayParent?
    requires ReadItems(impl, w, n).Ok? && ReadItems(impl, w, n).value.value.Arr?
    requires ReadItems(impl, w, n).value.at.Some?
    requires NotifySlot(n) != NotCallable
    requires var es := ReadItems(impl, w, n).value.value.elems;
             StartIndex(x, |es|) < |es|
    ensures MoveChildItems(impl, w, n, x, y).Ok?
    ensures var a := ReadItems(impl, w, n).value;
            var es := a.value.elems;
            var after := Lookup(MoveChildItems(impl, w, n, x, y).value.world, a.at.value);
            after.Arr? &&
            (Truthy(Taken(es, x)) ==> after.elems == MoveItem(es, x, y) && multiset(after.elems) == multiset(es)) &&
            (!Truthy(Taken(es, x)) ==> |after.elems| == |es| - 1 &&
                                       multiset(after.elems) + multiset{Taken(es, x)} == multiset(es))
    ensures |MoveChildItems(impl, w, n, x, y).value.events| == if NotifySlot(n) == Silent then 0 else 1
  {
    var a := ReadItems(impl, w, n).value;
    MoveAsWrittenLosesFalsy(a.value.elems, x, y);
    MoveItemPlaces(a.value.elems, x, y);
    ReplaceAtReads(a.world, a.at.value, Arr(MoveAsWritten(a.value.elems, x, y), a.value.extra));
  }

  /** The same `move` with the element move corrected (`JsArray.MoveItem`):
      the element from `x` is put back at `y` whatever its value. */
  function MoveChildItemsCorrected(impl: Impl, w: JVal, n: Node, x: int, y: int): (r: Res<Step<()>>)
    requires n.ArrayParent?
    ensures r.Ok? ==> |r.value.events| <= 1
    ensures r.Ok? ==> ReadItems(impl, w, n).Ok? && ReadItems(impl, w, n).value.value.Arr?
  {
    var a :- ReadItems(impl, w, n);
    if !a.value.Arr? then Throw(TypeError)
    else
      var w2 := ReplaceAt(a.world, a.at, Arr(MoveItem(a.value.elems, x, y), a.value.extra));
      var evs :- Invoke(w2, NotifySlot(n), Undef);
      Ok(Step(w2, evs, ()))
  }

  /** The corrected move keeps every element, with the moved one at its new
      place, and is announced once. */
  lemma MoveChildPermutes(impl: Impl, w: JVal, n: Node, x: int, y: int)
    requires n.ArrayParent?
    requires ReadItems(impl, w, n).Ok? && ReadItems(impl, w, n).value.value.Arr?
    requires ReadItems(impl, w, n).value.at.Some?
    requires NotifySlot(n) != NotCallable
    ensures MoveChildItemsCorrected(impl, w, n, x, y).Ok?
    ensures var a := ReadItems(impl, w, n).value;
            var after := Lookup(MoveChildItemsCorrected(impl, w, n, x, y).value.world, a.at.value);
            after.Arr? && multiset(after.elems) == multiset(a.value.elems) && |after.elems| == |a.value.elems|
    ensures |MoveChildItemsCorrected(impl, w, n, x, y).value.events| == if NotifySlot(n) == Silent then 0 else 1
  {
    var a := ReadItems(impl, w, n).value;
    MoveItemPlaces(a.value.elems, x, y);
    ReplaceAtReads(a.world, a.at.value, Arr(MoveItem(a.value.elems, x, y), a.value.extra));
  }
}
