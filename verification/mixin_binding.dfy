/**
  The older binding nodes of `src/BindToMixin.ts`, over the mixin's own
  dotted-path binder (the `Mixin` dialect of the provider model), and the
  mixin's binding methods. There are no converters, a child cannot set
  `notifyChange`, a store-anchored node without a path answers its source
  object and ignores writes, and `add` does nothing when the array is
  missing.

  Nodes are immutable values; an operation takes the world (the
  component state) and returns a `Step`.
 */
module MixinBindings {
  import opened JsValue
  import opened JsArray
  import opened Notifiers
  import opened Store
  import ObjectProvider

  const Provider := ObjectProvider.Mixin

  datatype Node =
    | PathObject(anchor: Anchor, path: Option<string>, notify: Notifier)
    | ArrayObject(anchor: Anchor, path: Option<string>, notify: Notifier)
    | PathParent(parentBinding: Node, relativePath: Option<string>)

  /** The `source` getter: a child delegates to its parent. */
  function SourceAnchor(n: Node): Anchor
    decreases n
  {
    if n.PathParent? then SourceAnchor(n.parentBinding) else n.anchor
  }

  /** The `notifyChange` getter: a child reads its parent's. */
  function NotifySlot(n: Node): Notifier
    decreases n
  {
    if n.PathParent? then NotifySlot(n.parentBinding) else n.notify
  }

  /** The `path` getter: the relative path when the parent has none,
      otherwise `[parent.path, relativePath].join(".")`. */
  function Path(n: Node): Option<string>
    decreases n
  {
    if !n.PathParent? then n.path
    else
      var pp := Path(n.parentBinding);
      if pp.None? then n.relativePath else Some(pp.value + "." + n.relativePath.GetOr(""))
  }

  /** The paths of the person bindings in the repository's tests: a child
      of a pathless root has its relative path, a grandchild the parent's
      path, a dot and its own. */
  lemma PersonPaths(a: Anchor, f: Notifier)
    ensures var root := PathObject(a, None, f);
            var person := PathParent(root, Some("Person"));
            Path(person) == Some("Person") &&
            Path(PathParent(person, Some("FirstName"))) == Some("Person.FirstName") &&
            Path(PathParent(person, Some("LastName"))) == Some("Person.LastName") &&
            Path(PathParent(person, Some("Contact.Email"))) == Some("Person.Contact.Email")
  {
    assert "Person" + "." + "FirstName" == "Person.FirstName";
    assert "Person" + "." + "LastName" == "Person.LastName";
    assert "Person" + "." + "Contact.Email" == "Person.Contact.Email";
  }

  /** A child addresses the parent's parts followed by its own. */
  lemma ChildPathParts(parent: Node, rel: string)
    requires Path(parent).Some?
    ensures Path(PathParent(parent, Some(rel))).Some?
    ensures ObjectProvider.SplitDots(Path(PathParent(parent, Some(rel))).value) ==
            ObjectProvider.SplitDots(Path(parent).value) + ObjectProvider.SplitDots(rel)
  {
    ObjectProvider.SplitDotsOfJoin(Path(parent).value, rel);
  }

  // ---------------------------------------------------------------------
  // Values

  /** The `value` getter: the source object for a store-anchored node
      without a path, the binder's `getValue(path)` otherwise (which throws
      without a path). A located answer is what the world holds at the
      location. */
  function Value(w: JVal, n: Node): (r: Res<Step<JVal>>)
    requires n.PathObject? || n.PathParent?
    ensures r.Ok? ==> r.value.events == []
    ensures n.PathObject? && n.path.None? ==> r.Ok? && r.value.world == w && r.value.out == SourceOf(w, n.anchor)
    ensures n.PathParent? && Path(n).None? ==> r.Throw?
    ensures !(n.PathObject? && n.path.None?) ==>
              (r.Ok? <==> Get(Provider, w, SourceAnchor(n), Path(n)).Ok?) &&
              (r.Ok? && Get(Provider, w, SourceAnchor(n), Path(n)).value.at.Some? ==>
                 r.value.out == Lookup(r.value.world, Get(Provider, w, SourceAnchor(n), Path(n)).value.at.value))
  {
    if n.PathObject? && n.path.None? then Ok(Step(w, [], SourceOf(w, n.anchor)))
    else
      var g :- Get(Provider, w, SourceAnchor(n), Path(n));
      Ok(Step(g.world, [], g.value))
  }

  /** The `value` setter: nothing at all for a store-anchored node without
      a path; otherwise stop when the stored value equals the new one, and
      else store it and call `notifyChange()`. */
  function SetNodeValue(w: JVal, n: Node, v: JVal): (r: Res<Step<()>>)
    requires n.PathObject? || n.PathParent?
    ensures n.PathObject? && n.path.None? ==> r == Ok(Step(w, [], ()))
    ensures r.Ok? ==> |r.value.events| <= 1
  {
    if n.PathObject? && n.path.None? then Ok(Step(w, [], ()))
    else
      var prev :- Get(Provider, w, SourceAnchor(n), Path(n));
      if prev.value == v then Ok(Step(prev.world, [], ()))
      else
        var w2 :- Set(Provider, prev.world, SourceAnchor(n), Path(n), v);
        var evs :- Invoke(w2, NotifySlot(n), Undef);
        Ok(Step(w2, evs, ()))
  }

  /** An equal value is neither stored nor announced; a different one is
      stored and announced by exactly one call. */
  lemma SetterNotifiesOnChange(w: JVal, n: Node, v: JVal)
    requires n.PathParent? || (n.PathObject? && n.path.Some?)
    requires Get(Provider, w, SourceAnchor(n), Path(n)).Ok?
    requires NotifySlot(n) != NotCallable
    ensures var prev := Get(Provider, w, SourceAnchor(n), Path(n)).value;
            prev.value == v ==> SetNodeValue(w, n, v) == Ok(Step(prev.world, [], ()))
    ensures var prev := Get(Provider, w, SourceAnchor(n), Path(n)).value;
            prev.value != v && Set(Provider, prev.world, SourceAnchor(n), Path(n), v).Ok? ==>
              var w2 := Set(Provider, prev.world, SourceAnchor(n), Path(n), v).value;
              SetNodeValue(w, n, v) == Ok(Step(w2, Invoke(w2, NotifySlot(n), Undef).value, ())) &&
              |SetNodeValue(w, n, v).value.events| == (if NotifySlot(n) == Silent then 0 else 1)
  {
    var prev := Get(Provider, w, SourceAnchor(n), Path(n)).value;
    if prev.value != v && Set(Provider, prev.world, SourceAnchor(n), Path(n), v).Ok? {
      var w2 := Set(Provider, prev.world, SourceAnchor(n), Path(n), v).value;
      SetterStores(w, n, v, prev, w2);
    }
  }

  /** A changed value is stored, then announced. */
  lemma SetterStores(w: JVal, n: Node, v: JVal, prev: Read, w2: JVal)
    requires n.PathParent? || (n.PathObject? && n.path.Some?)
    requires Get(Provider, w, SourceAnchor(n), Path(n)) == Ok(prev) && prev.value != v
    requires Set(Provider, prev.world, SourceAnchor(n), Path(n), v) == Ok(w2)
    requires NotifySlot(n) != NotCallable
    ensures SetNodeValue(w, n, v) == Ok(Step(w2, Invoke(w2, NotifySlot(n), Undef).value, ()))
  {
  }

  /** The value set is the value read back, provided the parent of the
      addressed property resolves to an object. */
  lemma SetThenValue(w: JVal, n: Node, v: JVal)
    requires n.PathParent? || (n.PathObject? && n.path.Some?)
    requires Path(n).Some? && SourceAnchor(n).InWorld?
    requires NotifySlot(n) != NotCallable
    requires Get(Provider, w, SourceAnchor(n), Path(n)).Ok?
    requires var src := Lookup(Get(Provider, w, SourceAnchor(n), Path(n)).value.world, SourceAnchor(n).keys);
             var res := ObjectProvider.GetParent(Provider, src, Path(n));
             res.Ok? && res.value.parent.At? && IsObject(Lookup(res.value.src, res.value.parent.keys))
    ensures SetNodeValue(w, n, v).Ok?
    ensures Value(SetNodeValue(w, n, v).value.world, n).Ok?
    ensures Value(SetNodeValue(w, n, v).value.world, n).value.out == v
  {
    var prev := Get(Provider, w, SourceAnchor(n), Path(n)).value;
    SetThenGetInWorld(Provider, prev.world, SourceAnchor(n).keys, Path(n).value, v);
    if prev.value == v {
      GetIsStable(Provider, w, SourceAnchor(n), Path(n));
    }
  }

  /** Binding `a.b.c` below a pathless root over an empty object, as one
      of the repository's tests does, loses the write: the mixin's walk
      does not create the first intermediate, so nothing is stored, nobody
      is notified, and the value reads back undefined. */
  lemma DeepPathOverEmptyIsLost(k: string, a: string, b: string, c: string, v: JVal)
    requires ObjectProvider.NoDot(a) && ObjectProvider.NoDot(b) && ObjectProvider.NoDot(c) && b != ""
    requires v != Undef
    ensures var w := Obj(map[k := EmptyObj]);
            var leaf := PathParent(PathObject(InWorld([k]), None, Silent), Some(a + "." + b + "." + c));
            SetNodeValue(w, leaf, v) == Ok(Step(w, [], ())) &&
            Value(w, leaf) == Ok(Step(w, [], Undef))
  {
    var w := Obj(map[k := EmptyObj]);
    var p := a + "." + b + "." + c;
    var root := PathObject(InWorld([k]), None, Silent);
    var leaf := PathParent(root, Some(p));
    assert SourceAnchor(root) == InWorld([k]) && NotifySlot(root) == Silent && Path(root).None?;
    assert Path(leaf) == Some(p) && SourceAnchor(leaf) == InWorld([k]) && NotifySlot(leaf) == Silent;
    ObjectProvider.DeepPathOverEmpty(Provider, a, b, c, v);
    assert Lookup(w, [k]) == EmptyObj;
    assert SourceOf(w, InWorld([k])) == EmptyObj;
    assert WriteBack(w, InWorld([k]), EmptyObj) == w;
    assert Get(Provider, w, InWorld([k]), Some(p)) == Ok(Read(w, Undef, None));
    assert Set(Provider, w, InWorld([k]), Some(p), v) == Ok(w);
  }

  // ---------------------------------------------------------------------
  // Arrays

  /** The item nodes: one pathless node per element, sharing the array
      node's `notifyChange`. */
  function ItemNodes(n: Node, at: Option<seq<string>>, es: seq<JVal>): (r: seq<Node>)
    ensures |r| == |es|
    ensures forall i :: 0 <= i < |r| ==> r[i] == PathObject(ItemAnchor(at, es, i), None, NotifySlot(n))
  {
    seq(|es|, i requires 0 <= i < |es| => PathObject(ItemAnchor(at, es, i), None, NotifySlot(n)))
  }

  /** The array an array node works on, through the binder (which throws
      without a path). */
  function ReadArray(w: JVal, n: Node): (r: Res<Read>)
    requires n.ArrayObject?
    ensures r.Ok? && r.value.at.Some? ==> Lookup(r.value.world, r.value.at.value) == r.value.value
    ensures n.path.None? ==> r == Throw(TypeError)
  {
    ObjectProvider.GetWithoutPath(Provider, SourceOf(w, n.anchor));
    Get(Provider, w, n.anchor, n.path)
  }

  /** The `items` getter: none for an undefined array, one node per element
      of an array, a TypeError for anything else. */
  function Items(w: JVal, n: Node): (r: Res<Step<seq<Node>>>)
    requires n.ArrayObject?
    ensures r.Ok? ==> r.value.events == [] && ReadArray(w, n).Ok?
    ensures ReadArray(w, n).Ok? ==> (r.Ok? <==> ReadArray(w, n).value.value.Undef? || ReadArray(w, n).value.value.Arr?)
  {
    var a :- ReadArray(w, n);
    match a.value
    case Undef => Ok(Step(a.world, [], []))
    case Arr(es, _) => Ok(Step(a.world, [], ItemNodes(n, a.at, es)))
    case _ => Throw(TypeError)
  }

  /** `items` has one node per element, in order, each answering its
      element. */
  lemma ItemsFollowElements(w: JVal, n: Node)
    requires n.ArrayObject? && Items(w, n).Ok?
    ensures var a := ReadArray(w, n).value.value;
            var s := Items(w, n).value;
            (a == Undef ==> s.out == []) &&
            (a != Undef ==>
               a.Arr? && |s.out| == |a.elems| &&
               forall i :: 0 <= i < |s.out| ==>
                 NotifySlot(s.out[i]) == NotifySlot(n) && Value(s.world, s.out[i]) == Ok(Step(s.world, [], a.elems[i])))
  {
    var a := ReadArray(w, n).value;
    if a.value.Arr? {
      forall i | 0 <= i < |a.value.elems|
        ensures SourceOf(a.world, ItemAnchor(a.at, a.value.elems, i)) == a.value.elems[i]
      {
        ItemAnchorHolds(a.world, a.at, a.value.elems, a.value.extra, i);
      }
    }
  }

  /** `add(defaultItem)`: nothing, and no notification, when the array is
      missing; otherwise push the item (`{}` when undefined) and notify
      once. */
  function Add(w: JVal, n: Node, item: JVal): (r: Res<Step<()>>)
    requires n.ArrayObject?
    ensures r.Ok? ==> |r.value.events| <= 1 && ReadArray(w, n).Ok?
    ensures ReadArray(w, n).Ok? && ReadArray(w, n).value.value == Undef ==>
              r == Ok(Step(ReadArray(w, n).value.world, [], ()))
  {
    var a :- ReadArray(w, n);
    if a.value == Undef then Ok(Step(a.world, [], ()))
    else if !a.value.Arr? then Throw(TypeError)
    else
      var d := if item == Undef then EmptyObj else item;
      var w2 := ReplaceAt(a.world, a.at, Arr(a.value.elems + [d], a.value.extra));
      var evs :- Invoke(w2, NotifySlot(n), Undef);
      Ok(Step(w2, evs, ()))
  }

  /** `add` on an existing array appends exactly the item (or `{}`) in the
      world and notifies exactly once. */
  lemma AddAppends(w: JVal, n: Node, item: JVal)
    requires n.ArrayObject?
    requires ReadArray(w, n).Ok? && ReadArray(w, n).value.value.Arr? && ReadArray(w, n).value.at.Some?
    requires NotifySlot(n) != NotCallable
    ensures Add(w, n, item).Ok?
    ensures var a := ReadArray(w, n).value;
            var after := Lookup(Add(w, n, item).value.world, a.at.value);
            after.Arr? && after.elems == a.value.elems + [if item == Undef then EmptyObj else item]
    ensures |Add(w, n, item).value.events| == if NotifySlot(n) == Silent then 0 else 1
  {
    var a := ReadArray(w, n).value;
    var d := if item == Undef then EmptyObj else item;
    ReplaceAtReads(a.world, a.at.value, Arr(a.value.elems + [d], a.value.extra));
  }

  /** `remove(item)`: nothing for a missing array or an absent item;
      otherwise the first occurrence is cut out and one notification
      follows. Values other than arrays behave as `JsArray.RemoveItem`
      says. */
  function Remove(w: JVal, n: Node, item: JVal): (r: Res<Step<()>>)
    requires n.ArrayObject?
    ensures r.Ok? ==> |r.value.events| <= 1
    ensures ReadArray(w, n).Ok? && ReadArray(w, n).value.value.Arr? && item !in ReadArray(w, n).value.value.elems ==>
              r == Ok(Step(ReadArray(w, n).value.world, [], ()))
    ensures ReadArray(w, n).Ok? && ReadArray(w, n).value.value == Undef ==>
              r == Ok(Step(ReadArray(w, n).value.world, [], ()))
  {
    var a :- ReadArray(w, n);
    if a.value == Undef then Ok(Step(a.world, [], ()))
    else
      var removed :- RemoveItem(a.value, item);
      match removed
      case None => Ok(Step(a.world, [], ()))
      case Some(rest) =>
        var w2 := ReplaceAt(a.world, a.at, Arr(rest, a.value.extra));
        var evs :- Invoke(w2, NotifySlot(n), Undef);
        Ok(Step(w2, evs, ()))
  }

  /** Removing a present item leaves the array without its first
      occurrence, in the world, and notifies once. */
  lemma RemoveDeletesOne(w: JVal, n: Node, item: JVal)
    requires n.ArrayObject?
    requires ReadArray(w, n).Ok? && ReadArray(w, n).value.value.Arr? && ReadArray(w, n).value.at.Some?
    requires item in ReadArray(w, n).value.value.elems
    requires NotifySlot(n) != NotCallable
    ensures Remove(w, n, item).Ok?
    ensures var a := ReadArray(w, n).value;
            var after := Lookup(Remove(w, n, item).value.world, a.at.value);
            after.Arr? && |after.elems| == |a.value.elems| - 1 &&
            multiset(after.elems) + multiset{item} == multiset(a.value.elems)
    ensures |Remove(w, n, item).value.events| == if NotifySlot(n) == Silent then 0 else 1
  {
    var a := ReadArray(w, n).value;
    var rest := RemoveFirst(a.value.elems, item).value;
    ReplaceAtReads(a.world, a.at.value, Arr(rest, a.value.extra));
  }

  // ---------------------------------------------------------------------
  // The mixin's binding methods

  /** `bindToState(key, path)`: a node anchored at `state[key]`, notifying
      through the mixin's own state-key setter, which publishes under the
      literal name `"key"` (`Notifiers.LiteralKeySetter`). Reading a key of
      a nullish state throws. */
  function BindToState(w: JVal, key: string, path: Option<string>): (r: Res<Node>)
    ensures r.Ok? <==> !IsNullish(w)
    ensures r.Ok? ==> r.value.PathObject? && SourceOf(w, SourceAnchor(r.value)) == Prop(w, key) &&
                      Path(r.value) == path && NotifySlot(r.value) == LiteralKeySetter(key)
  {
    if IsNullish(w) then Throw(TypeError)
    else
      assert Lookup(w, [key]) == Prop(w, key);
      Ok(PathObject(InWorld([key]), path, LiteralKeySetter(key)))
  }

  /** `bindArrayToState(key, path)`: the same for an array node. */
  function BindArrayToState(w: JVal, key: string, path: Option<string>): (r: Res<Node>)
    ensures r.Ok? <==> !IsNullish(w)
    ensures r.Ok? ==> r.value.ArrayObject? && SourceOf(w, SourceAnchor(r.value)) == Prop(w, key) &&
                      Path(r.value) == path && NotifySlot(r.value) == LiteralKeySetter(key)
  {
    if IsNullish(w) then Throw(TypeError)
    else
      assert Lookup(w, [key]) == Prop(w, key);
      Ok(ArrayObject(InWorld([key]), path, LiteralKeySetter(key)))
  }

  /** `bindToState` with the setter corrected to publish under the key
      itself (`Notifiers.StateKeySetter`). */
  function BindToStateCorrected(w: JVal, key: string, path: Option<string>): (r: Res<Node>)
    ensures r.Ok? <==> !IsNullish(w)
    ensures r.Ok? ==> r.value.PathObject? && SourceOf(w, SourceAnchor(r.value)) == Prop(w, key) &&
                      Path(r.value) == path && NotifySlot(r.value) == StateKeySetter(key)
  {
    if IsNullish(w) then Throw(TypeError)
    else
      assert Lookup(w, [key]) == Prop(w, key);
      Ok(PathObject(InWorld([key]), path, StateKeySetter(key)))
  }

  /** `bindArrayToState` with the corrected setter. */
  function BindArrayToStateCorrected(w: JVal, key: string, path: Option<string>): (r: Res<Node>)
    ensures r.Ok? <==> !IsNullish(w)
    ensures r.Ok? ==> r.value.ArrayObject? && SourceOf(w, SourceAnchor(r.value)) == Prop(w, key) &&
                      Path(r.value) == path && NotifySlot(r.value) == StateKeySetter(key)
  {
    if IsNullish(w) then Throw(TypeError)
    else
      assert Lookup(w, [key]) == Prop(w, key);
      Ok(ArrayObject(InWorld([key]), path, StateKeySetter(key)))
  }

  /** `bindTo(parent, path)`: always a parent-relative node, which reads
      and notifies through the parent. */
  function BindTo(parent: Node, path: Option<string>): (r: Node)
    ensures r.PathParent? && r.parentBinding == parent
    ensures SourceAnchor(r) == SourceAnchor(parent) && NotifySlot(r) == NotifySlot(parent)
    ensures Path(parent).None? ==> Path(r) == path
  {
    PathParent(parent, path)
  }

  /** A changed value set through `bindToState` as written is announced by
      one `setState` whose patch holds only the literal name `"key"`: for
      any other key the state property the binding writes never reaches
      the component. */
  lemma BindToStateMisses(w: JVal, key: string, p: string, v: JVal)
    requires !IsNullish(w) && key != "key"
    requires var n := BindToState(w, key, Some(p)).value;
             Get(Provider, w, SourceAnchor(n), Some(p)).Ok? &&
             Get(Provider, w, SourceAnchor(n), Some(p)).value.value != v &&
             Set(Provider, Get(Provider, w, SourceAnchor(n), Some(p)).value.world, SourceAnchor(n), Some(p), v).Ok?
    ensures var s := SetNodeValue(w, BindToState(w, key, Some(p)).value, v);
            s.Ok? && |s.value.events| == 1 &&
            s.value.events[0] == SetState(map["key" := Prop(s.value.world, key)]) &&
            key !in s.value.events[0].patch
  {
    var n := BindToState(w, key, Some(p)).value;
    SetterNotifiesOnChange(w, n, v);
  }

  /** A value set through the corrected `bindToState` is published under
      its state key by one `setState`. */
  lemma BindToStatePublishes(w: JVal, key: string, p: string, v: JVal)
    requires !IsNullish(w)
    requires var n := BindToStateCorrected(w, key, Some(p)).value;
             Get(Provider, w, SourceAnchor(n), Some(p)).Ok? &&
             Get(Provider, w, SourceAnchor(n), Some(p)).value.value != v &&
             Set(Provider, Get(Provider, w, SourceAnchor(n), Some(p)).value.world, SourceAnchor(n), Some(p), v).Ok?
    ensures var s := SetNodeValue(w, BindToStateCorrected(w, key, Some(p)).value, v);
            s.Ok? && |s.value.events| == 1 && s.value.events[0] == SetState(map[key := Prop(s.value.world, key)])
  {
    var n := BindToStateCorrected(w, key, Some(p)).value;
    SetterNotifiesOnChange(w, n, v);
  }
}
