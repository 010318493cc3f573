/**
  The binding nodes of `src/DataBinding.ts`, the revision that embeds its
  own dotted-path binder (`PathObjectBinder`, the `Embedded` dialect of
  the provider model). Unlike the provider-based revision the nodes have
  no `parent` or `root`, an array node relative to a parent has no
  converter, `splice` or `move`, a store-anchored node without a path
  reads its source object directly, and every setter skips any equal
  value.

  Nodes are immutable values; an operation takes the world (the
  component state) and returns a `Step`.
 */
module EmbeddedBindings {
  import opened JsValue
  import opened JsArray
  import opened Converters
  import opened Notifiers
  import opened Store
  import ObjectProvider

  const Provider := ObjectProvider.Embedded

  datatype Node =
    | PathObject(anchor: Anchor, path: Option<string>, notify: Notifier, conv: Option<Converter>)
    | ArrayObject(anchor: Anchor, path: Option<string>, notify: Notifier)
    | PathParent(parentBinding: Node, relativePath: Option<string>, conv: Option<Converter>)
    | ArrayParent(parentBinding: Node, relativePath: Option<string>)

  predicate IsRoot(n: Node) {
    n.PathObject? || n.ArrayObject?
  }

  /** The `source` getter: a child delegates to its parent. */
  function SourceAnchor(n: Node): Anchor
    decreases n
  {
    if IsRoot(n) then n.anchor else SourceAnchor(n.parentBinding)
  }

  /** The `notifyChange` getter: a child reads its parent's slot. */
  function NotifySlot(n: Node): Notifier
    decreases n
  {
    if IsRoot(n) then n.notify else NotifySlot(n.parentBinding)
  }

  /** The `notifyChange` setter: a child writes its parent's slot. */
  function WithNotify(n: Node, f: Notifier): (r: Node)
    ensures NotifySlot(r) == f
    ensures Path(r) == Path(n) && SourceAnchor(r) == SourceAnchor(n)
    ensures !IsRoot(n) ==> !IsRoot(r) && NotifySlot(r.parentBinding) == f && r.relativePath == n.relativePath
    decreases n
  {
    match n
    case PathObject(a, p, _, c) => PathObject(a, p, f, c)
    case ArrayObject(a, p, _) => ArrayObject(a, p, f)
    case PathParent(p, rel, c) => PathParent(WithNotify(p, f), rel, c)
    case ArrayParent(p, rel) => ArrayParent(WithNotify(p, f), rel)
  }

  /** The `path` getter: the relative path when the parent has no path,
      otherwise `[parent.path, relativePath].join(".")`, which renders an
      undefined relative path as empty text. */
  function Path(n: Node): Option<string>
    decreases n
  {
    if IsRoot(n) then n.path
    else
      var pp := Path(n.parentBinding);
      if pp.None? then n.relativePath else Some(pp.value + "." + n.relativePath.GetOr(""))
  }

  /** Both kinds of child address the parent's parts followed by the
      relative parts. */
  lemma ChildPathParts(parent: Node, rel: string, c: Option<Converter>)
    ensures Path(PathParent(parent, Some(rel), c)) == Path(ArrayParent(parent, Some(rel)))
    ensures Path(parent).None? ==> Path(PathParent(parent, Some(rel), c)) == Some(rel)
    ensures Path(parent).Some? ==>
              Path(PathParent(parent, Some(rel), c)).Some? &&
              ObjectProvider.SplitDots(Path(PathParent(parent, Some(rel), c)).value) ==
              ObjectProvider.SplitDots(Path(parent).value) + ObjectProvider.SplitDots(rel)
  {
    if Path(parent).Some? {
      ObjectProvider.SplitDotsOfJoin(Path(parent).value, rel);
    }
  }

  /** A child without a relative path under a parent with a path addresses
      the parent's path followed by an empty property name. */
  lemma UndefinedRelativePath(parent: Node, c: Option<Converter>)
    requires Path(parent).Some?
    ensures Path(PathParent(parent, None, c)) == Some(Path(parent).value + ".")
    ensures ObjectProvider.GetProperty(Path(PathParent(parent, None, c)).value) == ""
  {
    var p := Path(parent).value + ".";
    assert p + "" == p;
    assert p[|p| - 1] == '.';
    assert ObjectProvider.LastDot(p) == Some(|p| - 1);
  }

  // ---------------------------------------------------------------------
  // Values

  /** The raw value: the source object itself for a store-anchored node
      without a path, the binder's `getValue(path)` otherwise. */
  function RawRead(w: JVal, n: Node): (r: Res<Read>)
    ensures r.Ok? && r.value.at.Some? ==> Lookup(r.value.world, r.value.at.value) == r.value.value
  {
    if IsRoot(n) && n.path.None? then
      Ok(Read(w, SourceOf(w, n.anchor), if n.anchor.InWorld? then Some(n.anchor.keys) else None))
    else Get(Provider, w, SourceAnchor(n), Path(n))
  }

  /** The `value` getter: the raw value, formatted when the node has a
      converter. A root without a path answers its source object and
      leaves the world alone; a child whose path is undefined cannot be
      read, the binder needing a path; otherwise the answer is the
      formatted value stored where the binder located it. */
  function Value(impl: Impl, w: JVal, n: Node): (r: Res<Step<JVal>>)
    requires n.PathObject? || n.PathParent?
    ensures r.Ok? ==> r.value.events == [] && RawRead(w, n).Ok? && r.value.world == RawRead(w, n).value.world
    ensures n.PathObject? && n.path.None? ==>
              (r.Ok? <==> Apply(impl, n.conv, Format, SourceOf(w, n.anchor)).Ok?) &&
              (r.Ok? ==> r.value.world == w && Apply(impl, n.conv, Format, SourceOf(w, n.anchor)) == Ok(r.value.out))
    ensures n.PathParent? && Path(n).None? ==> r.Throw?
    ensures r.Ok? && RawRead(w, n).value.at.Some? ==>
              Apply(impl, n.conv, Format, Lookup(r.value.world, RawRead(w, n).value.at.value)) == Ok(r.value.out)
    ensures n.conv.None? ==> (r.Ok? <==> RawRead(w, n).Ok?)
  {
    var raw :- RawRead(w, n);
    var v :- Apply(impl, n.conv, Format, raw.value);
    Ok(Step(raw.world, [], v))
  }

  /** A store-anchored node without a path answers its source object,
      formatted; reading it changes nothing. A child whose path ends up
      undefined cannot be read at all: the binder needs a path. */
  lemma ValueWithoutPath(impl: Impl, w: JVal, a: Anchor, f: Notifier, c: Option<Converter>, parent: Node, c2: Option<Converter>)
    requires Path(parent).None?
    ensures Value(impl, w, PathObject(a, None, f, c)).Ok? <==> Apply(impl, c, Format, SourceOf(w, a)).Ok?
    ensures Value(impl, w, PathObject(a, None, f, c)).Ok? ==>
              Value(impl, w, PathObject(a, None, f, c)) == Ok(Step(w, [], Apply(impl, c, Format, SourceOf(w, a)).value))
    ensures Value(impl, w, PathParent(parent, None, c2)) == Throw(TypeError)
  {
    ObjectProvider.GetWithoutPath(Provider, SourceOf(w, SourceAnchor(parent)));
  }

  /** The `value` setter: read the stored value, parse the new one, stop
      when they are equal. Otherwise a store-anchored node without a path
      hands the value to `notifyChange`; every other node stores it and
      calls `notifyChange()`. */
  function SetNodeValue(impl: Impl, w: JVal, n: Node, v: JVal): (r: Res<Step<()>>)
    requires n.PathObject? || n.PathParent?
    ensures r.Ok? ==> |r.value.events| <= 1 && RawRead(w, n).Ok?
  {
    var prev :- RawRead(w, n);
    var x :- Apply(impl, n.conv, Parse, v);
    if prev.value == x then Ok(Step(prev.world, [], ()))
    else if n.PathObject? && n.path.None? then
      var evs :- Invoke(prev.world, NotifySlot(n), x);
      Ok(Step(prev.world, evs, ()))
    else
      var w2 :- Set(Provider, prev.world, SourceAnchor(n), Path(n), x);
      var evs :- Invoke(w2, NotifySlot(n), Undef);
      Ok(Step(w2, evs, ()))
  }

  /** An equal value is neither stored nor announced. */
  lemma SetterSkipsEqual(impl: Impl, w: JVal, n: Node, v: JVal)
    requires n.PathObject? || n.PathParent?
    requires RawRead(w, n).Ok? && Apply(impl, n.conv, Parse, v) == Ok(RawRead(w, n).value.value)
    ensures SetNodeValue(impl, w, n, v) == Ok(Step(RawRead(w, n).value.world, [], ()))
  {
  }

  /** A different value is stored, then announced by exactly one call of
      `notifyChange` without an argument. */
  lemma SetterNotifiesOnce(impl: Impl, w: JVal, n: Node, v: JVal)
    requires n.PathObject? || n.PathParent?
    requires !(n.PathObject? && n.path.None?)
    requires RawRead(w, n).Ok? && Apply(impl, n.conv, Parse, v).Ok?
    requires RawRead(w, n).value.value != Apply(impl, n.conv, Parse, v).value
    requires Set(Provider, RawRead(w, n).value.world, SourceAnchor(n), Path(n), Apply(impl, n.conv, Parse, v).value).Ok?
    requires NotifySlot(n) != NotCallable
    ensures var w2 := Set(Provider, RawRead(w, n).value.world, SourceAnchor(n), Path(n), Apply(impl, n.conv, Parse, v).value).value;
            SetNodeValue(impl, w, n, v) == Ok(Step(w2, Invoke(w2, NotifySlot(n), Undef).value, ()))
    ensures |SetNodeValue(impl, w, n, v).value.events| == if NotifySlot(n) == Silent then 0 else 1
  {
  }

  /** Without a path nothing is stored: the parsed value goes to
      `notifyChange` as its argument. */
  lemma PathlessSetterHandsOver(impl: Impl, w: JVal, a: Anchor, f: Notifier, c: Option<Converter>, v: JVal)
    requires Apply(impl, c, Parse, v).Ok? && Apply(impl, c, Parse, v).value != SourceOf(w, a)
    requires f != NotCallable
    ensures SetNodeValue(impl, w, PathObject(a, None, f, c), v) ==
            Ok(Step(w, Invoke(w, f, Apply(impl, c, Parse, v).value).value, ()))
  {
  }

  /** Without a converter, the value set is the value read back, provided
      the parent of the addressed property resolves to an object. */
  lemma SetThenValue(impl: Impl, w: JVal, n: Node, v: JVal)
    requires n.PathObject? || n.PathParent?
    requires n.conv.None? && Path(n).Some? && SourceAnchor(n).InWorld?
    requires NotifySlot(n) != NotCallable
    requires Get(Provider, w, SourceAnchor(n), Path(n)).Ok?
    requires var src := Lookup(Get(Provider, w, SourceAnchor(n), Path(n)).value.world, SourceAnchor(n).keys);
             var res := ObjectProvider.GetParent(Provider, src, Path(n));
             res.Ok? && res.value.parent.At? && IsObject(Lookup(res.value.src, res.value.parent.keys))
    ensures SetNodeValue(impl, w, n, v).Ok?
    ensures Value(impl, SetNodeValue(impl, w, n, v).value.world, n).Ok?
    ensures Value(impl, SetNodeValue(impl, w, n, v).value.world, n).value.out == v
  {
    assert RawRead(w, n) == Get(Provider, w, SourceAnchor(n), Path(n));
    var prev := RawRead(w, n).value;
    SetThenGetInWorld(Provider, prev.world, SourceAnchor(n).keys, Path(n).value, v);
    if prev.value == v {
      GetIsStable(Provider, w, SourceAnchor(n), Path(n));
    }
  }

  // ---------------------------------------------------------------------
  // Arrays

  /** The item nodes: one node per element, without a path, sharing the
      array node's `notifyChange`. */
  function ItemNodes(n: Node, at: Option<seq<string>>, es: seq<JVal>): (r: seq<Node>)
    ensures |r| == |es|
    ensures forall i :: 0 <= i < |r| ==> r[i] == PathObject(ItemAnchor(at, es, i), None, NotifySlot(n), None)
  {
    seq(|es|, i requires 0 <= i < |es| => PathObject(ItemAnchor(at, es, i), None, NotifySlot(n), None))
  }

  /** The `items` getter: none for an undefined array, one node per element
      of an array, a TypeError for anything else. */
  function Items(w: JVal, n: Node): (r: Res<Step<seq<Node>>>)
    requires n.ArrayObject? || n.ArrayParent?
    ensures r.Ok? ==> r.value.events == [] && RawRead(w, n).Ok?
    ensures RawRead(w, n).Ok? ==> (r.Ok? <==> RawRead(w, n).value.value.Undef? || RawRead(w, n).value.value.Arr?)
  {
    var a :- RawRead(w, n);
    match a.value
    case Undef => Ok(Step(a.world, [], []))
    case Arr(es, _) => Ok(Step(a.world, [], ItemNodes(n, a.at, es)))
    case _ => Throw(TypeError)
  }

  /** `items` has one node per element, in order: item `i` answers element
      `i` and notifies through the array node's `notifyChange`. */
  lemma ItemsFollowElements(impl: Impl, w: JVal, n: Node)
    requires n.ArrayObject? || n.ArrayParent?
    requires Items(w, n).Ok?
    ensures var a := RawRead(w, n).value.value;
            var s := Items(w, n).value;
            (a == Undef ==> s.out == []) &&
            (a != Undef ==>
               a.Arr? && |s.out| == |a.elems| &&
               forall i :: 0 <= i < |s.out| ==>
                 NotifySlot(s.out[i]) == NotifySlot(n) && Path(s.out[i]).None? &&
                 Value(impl, s.world, s.out[i]) == Ok(Step(s.world, [], a.elems[i])))
  {
    var a := RawRead(w, n).value;
    if a.value.Arr? {
      var s := Items(w, n).value;
      forall i | 0 <= i < |s.out|
        ensures Value(impl, s.world, s.out[i]) == Ok(Step(s.world, [], a.value.elems[i]))
      {
        ItemAnchorHolds(a.world, a.at, a.value.elems, a.value.extra, i);
      }
    }
  }

  /** The array `add` pushes onto: a missing one is first stored as `[]`
      through the binder and read again. */
  function ReadOrCreate(w: JVal, n: Node): (r: Res<Read>)
    requires n.ArrayObject? || n.ArrayParent?
    ensures r.Ok? && r.value.at.Some? ==> Lookup(r.value.world, r.value.at.value) == r.value.value
    ensures RawRead(w, n).Ok? && RawRead(w, n).value.value != Undef ==> r == RawRead(w, n)
  {
    var a :- RawRead(w, n);
    if a.value != Undef then Ok(a)
    else
      var w2 :- Set(Provider, a.world, SourceAnchor(n), Path(n), EmptyArr);
      Get(Provider, w2, SourceAnchor(n), Path(n))
  }

  /** `add(defaultItem)`: push the item (`{}` when undefined), then notify
      once. */
  function Add(w: JVal, n: Node, item: JVal): (r: Res<Step<()>>)
    requires n.ArrayObject? || n.ArrayParent?
    ensures r.Ok? ==> |r.value.events| <= 1 && ReadOrCreate(w, n).Ok? && ReadOrCreate(w, n).value.value.Arr?
  {
    var a :- ReadOrCreate(w, n);
    if !a.value.Arr? then Throw(TypeError)
    else
      var d := if item == Undef then EmptyObj else item;
      var w2 := ReplaceAt(a.world, a.at, Arr(a.value.elems + [d], a.value.extra));
      var evs :- Invoke(w2, NotifySlot(n), Undef);
      Ok(Step(w2, evs, ()))
  }

  /** `add` appends exactly the item (or `{}`) to the array in the world
      and notifies exactly once. */
  lemma AddAppends(w: JVal, n: Node, item: JVal)
    requires n.ArrayObject? || n.ArrayParent?
    requires ReadOrCreate(w, n).Ok? && ReadOrCreate(w, n).value.value.Arr?
    requires ReadOrCreate(w, n).value.at.Some?
    requires NotifySlot(n) != NotCallable
    ensures Add(w, n, item).Ok?
    ensures var a := ReadOrCreate(w, n).value;
            var after := Lookup(Add(w, n, item).value.world, a.at.value);
            after.Arr? && after.elems == a.value.elems + [if item == Undef then EmptyObj else item]
    ensures |Add(w, n, item).value.events| == if NotifySlot(n) == Silent then 0 else 1
  {
    var a := ReadOrCreate(w, n).value;
    var d := if item == Undef then EmptyObj else item;
    ReplaceAtReads(a.world, a.at.value, Arr(a.value.elems + [d], a.value.extra));
  }

  /** A store-anchored array node without a path cannot create its missing
      array: the binder's `setValue` needs a path. */
  lemma AddWithoutPathThrows(w: JVal, a: Anchor, f: Notifier, item: JVal)
    requires SourceOf(w, a) == Undef
    ensures Add(w, ArrayObject(a, None, f), item) == Throw(TypeError)
  {
    ObjectProvider.GetWithoutPath(Provider, Undef);
  }

  /** `remove(item)`: nothing for an undefined array or an absent item;
      otherwise the first occurrence is cut out and one notification
      follows. Values other than arrays behave as `JsArray.RemoveItem`
      says. */
  function Remove(w: JVal, n: Node, item: JVal): (r: Res<Step<()>>)
    requires n.ArrayObject? || n.ArrayParent?
    ensures r.Ok? ==> |r.value.events| <= 1
    ensures RawRead(w, n).Ok? && RawRead(w, n).value.value.Arr? && item !in RawRead(w, n).value.value.elems ==>
              r == Ok(Step(RawRead(w, n).value.world, [], ()))
    ensures RawRead(w, n).Ok? && RawRead(w, n).value.value == Undef ==>
              r == Ok(Step(RawRead(w, n).value.world, [], ()))
  {
    var a :- RawRead(w, n);
    if a.value == Undef then Ok(Step(a.world, [], ()))
    else
      var removed :- RemoveItem(a.value, item);
      match removed
      case None => Ok(Step(a.world, [], ()))
      case Some(rest) =>
        var w2 := ReplaceAt(a.world, a.at, Arr(rest, a.value.extra));
        var evs :- Invoke(w2, NotifySlot(n), Undef);
        Ok(Step(w2, evs, ()))
  }

  /** Removing a present item leaves the array without its first
      occurrence, in the world, and notifies once. */
  lemma RemoveDeletesOne(w: JVal, n: Node, item: JVal)
    requires n.ArrayObject? || n.ArrayParent?
    requires RawRead(w, n).Ok? && RawRead(w, n).value.value.Arr? && RawRead(w, n).value.at.Some?
    requires item in RawRead(w, n).value.value.elems
    requires NotifySlot(n) != NotCallable
    ensures Remove(w, n, item).Ok?
    ensures var a := RawRead(w, n).value;
            var after := Lookup(Remove(w, n, item).value.world, a.at.value);
            after.Arr? && |after.elems| == |a.value.elems| - 1 &&
            multiset(after.elems) + multiset{item} == multiset(a.value.elems)
    ensures |Remove(w, n, item).value.events| == if NotifySlot(n) == Silent then 0 else 1
  {
    var a := RawRead(w, n).value;
    RemoveInPlace(a.world, a.at.value, a.value.elems, a.value.extra, item);
    var rest := RemoveFirst(a.value.elems, item).value;
    var w2 := ReplaceAt(a.world, a.at, Arr(rest, a.value.extra));
    assert RemoveItem(a.value, item) == Ok(Some(rest));
    assert Remove(w, n, item) == Ok(Step(w2, Invoke(w2, NotifySlot(n), Undef).value, ()));
  }

  /** `splice(start, deleteCount, elementsToAdd)` of a store-anchored array
      node: the array's own `splice` in place, answering the removed
      elements (undefined for an undefined array); nobody is notified. */
  function SpliceItems(w: JVal, n: Node, start: int, deleteCount: int, elementsToAdd: JVal): (r: Res<Step<Option<seq<JVal>>>>)
    requires n.ArrayObject?
    ensures r.Ok? ==> r.value.events == [] && RawRead(w, n).Ok?
    ensures r.Ok? && r.value.out.Some? ==>
              var a := RawRead(w, n).value;
              a.value.Arr? &&
              r.value.out.value == SpliceIfTruthy(a.value.elems, start, deleteCount, elementsToAdd).removed &&
              (a.at.Some? ==> Lookup(r.value.world, a.at.value) ==
                                Arr(SpliceIfTruthy(a.value.elems, start, deleteCount, elementsToAdd).result, a.value.extra))
  {
    var a :- RawRead(w, n);
    if a.value == Undef then Ok(Step(a.world, [], None))
    else if !a.value.Arr? then Throw(TypeError)
    else
      var sp := SpliceIfTruthy(a.value.elems, start, deleteCount, elementsToAdd);
      var w2 := ReplaceAt(a.world, a.at, Arr(sp.result, a.value.extra));
      if a.at.Some? then
        ReplaceAtReads(a.world, a.at.value, Arr(sp.result, a.value.extra));
        Ok(Step(w2, [], Some(sp.removed)))
      else Ok(Step(w2, [], Some(sp.removed)))
  }

  /** `move(x, y)` of a store-anchored array node: the element is taken
      out with the node's own `splice` and put back with it, so a falsy
      element is lost (see `JsArray.MoveAsWritten`); nobody is notified. A
      missing array throws, as taking element 0 of an undefined splice
      result does. */
  function MoveItems(w: JVal, n: Node, x: int, y: int): (r: Res<Step<()>>)
    requires n.ArrayObject?
    ensures r.Ok? ==> r.value.events == [] && RawRead(w, n).Ok? && RawRead(w, n).value.value.Arr?
  {
    var a :- RawRead(w, n);
    if !a.value.Arr? then Throw(TypeError)
    else Ok(Step(ReplaceAt(a.world, a.at, Arr(MoveAsWritten(a.value.elems, x, y), a.value.extra)), [], ()))
  }

  /** The node's `move` as written places a truthy element as intended and
      deletes a falsy one, leaving the other elements in their order. */
  lemma MoveItemsLosesFalsy(w: JVal, n: Node, x: int, y: int)
    requires n.ArrayObject?
    requires RawRead(w, n).Ok? && RawRead(w, n).value.value.Arr? && RawRead(w, n).value.at.Some?
    requires StartIndex(x, |RawRead(w, n).value.value.elems|) < |RawRead(w, n).value.value.elems|
    ensures MoveItems(w, n, x, y).Ok?
    ensures var es := RawRead(w, n).value.value.elems;
            var s := StartIndex(x, |es|);
            var after := Lookup(MoveItems(w, n, x, y).value.world, RawRead(w, n).value.at.value);
            after.Arr? &&
            (Truthy(es[s]) ==> after.elems == MoveItem(es, x, y)) &&
            (!Truthy(es[s]) ==> after.elems == es[..s] + es[s + 1..])
  {
    var a := RawRead(w, n).value;
    var es := a.value.elems;
    ReplaceAtReads(a.world, a.at.value, Arr(MoveAsWritten(es, x, y), a.value.extra));
    MoveAsWrittenCases(es, x, y);
  }

  /** The same `move` with the element move corrected (`JsArray.MoveItem`). */
  function MoveItemsCorrected(w: JVal, n: Node, x: int, y: int): (r: Res<Step<()>>)
    requires n.ArrayObject?
    ensures r.Ok? ==> r.value.events == [] && RawRead(w, n).Ok? && RawRead(w, n).value.value.Arr?
  {
    var a :- RawRead(w, n);
    if !a.value.Arr? then Throw(TypeError)
    else Ok(Step(ReplaceAt(a.world, a.at, Arr(MoveItem(a.value.elems, x, y), a.value.extra)), [], ()))
  }

  /** The corrected move keeps every element, with the element from `x` now
      at `y` (both clamped), and the rest in their order. */
  lemma MoveItemsPermutes(w: JVal, n: Node, x: int, y: int)
    requires n.ArrayObject?
    requires RawRead(w, n).Ok? && RawRead(w, n).value.value.Arr? && RawRead(w, n).value.at.Some?
    ensures MoveItemsCorrected(w, n, x, y).Ok?
    ensures var es := RawRead(w, n).value.value.elems;
            var after := Lookup(MoveItemsCorrected(w, n, x, y).value.world, RawRead(w, n).value.at.value);
            after.Arr? && after.elems == MoveItem(es, x, y) && multiset(after.elems) == multiset(es)
  {
    var a := RawRead(w, n).value;
    MoveItemPlaces(a.value.elems, x, y);
    ReplaceAtReads(a.world, a.at.value, Arr(MoveItem(a.value.elems, x, y), a.value.extra));
  }
}
