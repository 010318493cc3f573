/**
  Where a binding's source object lives. The model keeps one world value,
  the component's `state` object; a store-anchored binding's
  `sourceObject` is either the value found at a key path inside the world
  (so that writes through the provider change the world), or a captured
  value that the world does not contain (the output of a converter's
  `format`), whose changes nobody else can see.
 */
module Store {
  import opened JsValue
  import opened ObjectProvider
  import JsArray

  datatype Anchor =
    | InWorld(keys: seq<string>)
    | Captured(v: JVal)

  function SourceOf(w: JVal, a: Anchor): JVal {
    match a
    case InWorld(keys) => Lookup(w, keys)
    case Captured(v) => v
  }

  /** The world after the provider left the source object as `s`. An
      unchanged source leaves the world exactly as it was. */
  function WriteBack(w: JVal, a: Anchor, s: JVal): (r: JVal)
    ensures s == SourceOf(w, a) ==> r == w
    ensures a.Captured? ==> r == w
  {
    match a
    case InWorld(keys) => if s == Lookup(w, keys) then w else Update(w, keys, s)
    case Captured(_) => w
  }

  /** The provider only changes sources that are objects, and there the
      world records the new source at the anchor. */
  lemma WriteBackReads(w: JVal, keys: seq<string>, s: JVal)
    requires s == Lookup(w, keys) || IsObject(Lookup(w, keys))
    ensures Lookup(WriteBack(w, InWorld(keys), s), keys) == s
  {
    if s != Lookup(w, keys) {
      ObjectsAlongFromLookup(w, keys);
      LookupUpdate(w, keys, s);
    }
  }

  /** A read: the world after it (the read may create intermediates), the
      value, and where in the world the value sits when it sits there. */
  datatype Read = Read(world: JVal, value: JVal, at: Option<seq<string>>)

  /** `provider(sourceObject).getValue(path)`. */
  function Get(d: Dialect, w: JVal, a: Anchor, path: Option<string>): (r: Res<Read>)
    ensures r.Ok? && r.value.at.Some? ==> Lookup(r.value.world, r.value.at.value) == r.value.value
    ensures r.Ok? && a.Captured? ==> r.value.world == w && r.value.at.None?
  {
    var g :- GetValue(d, SourceOf(w, a), path);
    var w' := WriteBack(w, a, g.src);
    if a.InWorld? && g.at.Some? then
      ProviderKeepsNonObjects(d, SourceOf(w, a), path, Undef);
      WriteBackReads(w, a.keys, g.src);
      LookupAppend(w', a.keys, g.at.value);
      Ok(Read(w', g.value, Some(a.keys + g.at.value)))
    else Ok(Read(w', g.value, None))
  }

  /** `provider(sourceObject).setValue(path, v)`. */
  function Set(d: Dialect, w: JVal, a: Anchor, path: Option<string>, v: JVal): (r: Res<JVal>)
    ensures r.Ok? && a.Captured? ==> r.value == w
  {
    var s :- SetValue(d, SourceOf(w, a), path, v);
    Ok(WriteBack(w, a, s))
  }

  /** A write through an anchor in the world is read back through it. */
  lemma SetThenGetInWorld(d: Dialect, w: JVal, keys: seq<string>, p: string, v: JVal)
    requires var src := Lookup(w, keys);
             GetParent(d, src, Some(p)).Ok? && GetParent(d, src, Some(p)).value.parent.At? &&
             IsObject(Lookup(GetParent(d, src, Some(p)).value.src, GetParent(d, src, Some(p)).value.parent.keys))
    ensures Set(d, w, InWorld(keys), Some(p), v).Ok?
    ensures var w1 := Set(d, w, InWorld(keys), Some(p), v).value;
            Get(d, w1, InWorld(keys), Some(p)).Ok? &&
            Get(d, w1, InWorld(keys), Some(p)).value.world == w1 &&
            Get(d, w1, InWorld(keys), Some(p)).value.value == v
  {
    var src := Lookup(w, keys);
    SetThenGet(d, src, p, v);
    var s1 := SetValue(d, src, Some(p), v).value;
    ProviderKeepsNonObjects(d, src, Some(p), v);
    WriteBackReads(w, keys, s1);
    var w1 := WriteBack(w, InWorld(keys), s1);
    assert SourceOf(w1, InWorld(keys)) == s1;
  }

  /** A write through one anchor leaves every world path that diverges
      from the anchor untouched (a binding to one state key never changes
      another). */
  lemma SetFrame(d: Dialect, w: JVal, keys: seq<string>, path: Option<string>, v: JVal, other: seq<string>)
    requires Diverge(keys, other)
    requires Set(d, w, InWorld(keys), path, v).Ok?
    ensures Lookup(Set(d, w, InWorld(keys), path, v).value, other) == Lookup(w, other)
  {
    var s := SetValue(d, Lookup(w, keys), path, v).value;
    if s != Lookup(w, keys) {
      LookupUpdateDiverge(w, keys, other, s);
    }
  }

  /** So does a read. */
  lemma GetFrame(d: Dialect, w: JVal, keys: seq<string>, path: Option<string>, other: seq<string>)
    requires Diverge(keys, other)
    requires Get(d, w, InWorld(keys), path).Ok?
    ensures Lookup(Get(d, w, InWorld(keys), path).value.world, other) == Lookup(w, other)
  {
    var s := GetValue(d, Lookup(w, keys), path).value.src;
    if s != Lookup(w, keys) {
      LookupUpdateDiverge(w, keys, other, s);
    }
  }

  /** Replacing the value a read located, as the array operations do when
      they change the bound array in place. */
  function ReplaceAt(w: JVal, at: Option<seq<string>>, x: JVal): (r: JVal)
    ensures at.None? ==> r == w
  {
    match at
    case None => w
    case Some(loc) => Update(w, loc, x)
  }

  /** In place means in the world: the replaced value is read back where it
      was found. */
  lemma ReplaceAtReads(w: JVal, loc: seq<string>, x: JVal)
    requires IsObject(Lookup(w, loc))
    ensures Lookup(ReplaceAt(w, Some(loc), x), loc) == x
  {
    ObjectsAlongFromLookup(w, loc);
    LookupUpdate(w, loc, x);
  }

  /** Cutting an element out of an array that sits in the world, in place:
      the array read back there is one element shorter and lacks exactly
      one copy of the element. */
  lemma RemoveInPlace(w: JVal, loc: seq<string>, es: seq<JVal>, extra: map<string, JVal>, x: JVal)
    requires Lookup(w, loc) == Arr(es, extra) && x in es
    ensures JsArray.RemoveFirst(es, x).Some?
    ensures var after := Lookup(ReplaceAt(w, Some(loc), Arr(JsArray.RemoveFirst(es, x).value, extra)), loc);
            after.Arr? && |after.elems| == |es| - 1 && multiset(after.elems) + multiset{x} == multiset(es)
  {
    ReplaceAtReads(w, loc, Arr(JsArray.RemoveFirst(es, x).value, extra));
  }

  /** Reading twice answers as reading once, and the second read changes
      nothing. */
  lemma GetIsStable(d: Dialect, w: JVal, a: Anchor, path: Option<string>)
    requires Get(d, w, a, path).Ok?
    ensures Get(d, Get(d, w, a, path).value.world, a, path) == Get(d, w, a, path)
  {
    var g := GetValue(d, SourceOf(w, a), path).value;
    ReadIsStable(d, SourceOf(w, a), path);
    if a.InWorld? {
      ProviderKeepsNonObjects(d, SourceOf(w, a), path, Undef);
      WriteBackReads(w, a.keys, g.src);
    }
  }

  /** Where element `i` of an array read at `at` lives: the item binding
      shares the element object, so it sits in the world when the array
      does, and is captured otherwise. */
  function ItemAnchor(at: Option<seq<string>>, es: seq<JVal>, i: nat): (r: Anchor)
    requires i < |es|
    ensures r.Captured? <==> at.None?
  {
    if at.Some? then InWorld(at.value + [NatToString(i)]) else Captured(es[i])
  }

  /** The element is what the item's anchor holds. */
  lemma ItemAnchorHolds(w: JVal, at: Option<seq<string>>, es: seq<JVal>, extra: map<string, JVal>, i: nat)
    requires i < |es|
    requires at.Some? ==> Lookup(w, at.value) == Arr(es, extra)
    ensures SourceOf(w, ItemAnchor(at, es, i)) == es[i]
  {
    if at.Some? {
      LookupAppend(w, at.value, [NatToString(i)]);
      NatToStringCanonical(i);
      ParseNatToString(i);
    }
  }
}
