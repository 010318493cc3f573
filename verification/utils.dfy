/**
  Path casting, reference-following reads and auto-vivifying writes over
  a tree of JavaScript values.
 */
module PathUtils {
  import opened JsValue
  import opened LodashPath

  /** `castPath(value, object)`: an array is already a path, a key is a
      one-segment path, anything else is the tokenised string form. */
  function CastPath(value: JVal, holder: Option<JVal>): (r: seq<JVal>)
    ensures value.Arr? ==> r == value.elems
    ensures !value.Arr? && IsKey(value, holder) ==> r == [value]
    ensures !value.Arr? && !IsKey(value, holder) ==>
      |r| == |StringToPath(ToKey(value))| &&
      forall i :: 0 <= i < |r| ==> r[i] == Str(StringToPath(ToKey(value))[i])
  {
    if value.Arr? then value.elems
    else if IsKey(value, holder) then [value]
    else
      var s := if IsNullish(value) then "" else ToKey(value);
      StrSegments(StringToPath(s))
  }

  function StrSegments(ss: seq<string>): (r: seq<JVal>)
    ensures |r| == |ss|
    ensures forall i :: 0 <= i < |ss| ==> r[i] == Str(ss[i])
  {
    if |ss| == 0 then [] else [Str(ss[0])] + StrSegments(ss[1..])
  }

  /** The property keys a segment list addresses. */
  function PathKeys(path: seq<JVal>): (r: seq<string>)
    ensures |r| == |path|
    ensures forall i :: 0 <= i < |path| ==> r[i] == ToKey(path[i])
  {
    if |path| == 0 then [] else [ToKey(path[0])] + PathKeys(path[1..])
  }

  /** A string path with a dot reads as the written steps, and a plain
      name as itself. */
  lemma CastWrittenPath(steps: seq<PathStep>)
    requires forall i :: 0 <= i < |steps| ==> WellFormedStep(steps[i])
    requires exists i :: 0 <= i < |Render(steps)| && Render(steps)[i] == '.'
    ensures PathKeys(CastPath(Str(Render(steps)), None)) == StepKeys(steps)
  {
    var s := Render(steps);
    var i :| 0 <= i < |s| && s[i] == '.';
    DottedIsKeyOnlyIfOwned(s, None, i);
    StringToPathRender(steps);
    var r := CastPath(Str(s), None);
    assert PathKeys(r) == StepKeys(steps);
  }

  lemma CastPlainName(s: string, holder: Option<JVal>)
    requires forall i :: 0 <= i < |s| ==> s[i] != '.' && s[i] != '['
    ensures CastPath(Str(s), holder) == [Str(s)]
  {
    KeyWithoutDelimiters(s, holder);
  }

  // ---------------------------------------------------------------------
  // References

  /** The property naming the kind of a reference, and its value. */
  const RefType: string := "$type"
  const RefTag: string := "ref"

  /** `{$type: "ref", value: path}`. */
  predicate IsRef(v: JVal) {
    IsObject(v) && Prop(v, RefType) == Str(RefTag)
  }

  /** The segments of a reference's `value`, read by index as `baseGet`
      reads them: a string is a path of single characters; an array is its
      elements; a value without a length is an empty path. Reading the
      length of null or undefined throws. */
  function RefPath(p: JVal): (r: Res<seq<JVal>>)
    ensures r.Throw? <==> IsNullish(p)
    ensures p.Arr? ==> r == Ok(p.elems)
    ensures p.Str? ==> r.Ok? && |r.value| == |p.s| && forall i :: 0 <= i < |p.s| ==> r.value[i] == Str([p.s[i]])
  {
    match p
    case Undef => Throw(TypeError)
    case Null => Throw(TypeError)
    case Str(s) => Ok(seq(|s|, i requires 0 <= i < |s| => Str([s[i]])))
    case Arr(es, _) => Ok(es)
    case _ => Ok([])
  }

  /** `baseGet(root, path)`. Every hop first resolves a reference against
      `root`; `fuel` bounds how many references may be followed in a chain
      (a cycle would otherwise overflow the stack). An empty path reads as
      undefined. */
  function BaseGet(root: JVal, path: seq<JVal>, fuel: nat): (r: Res<JVal>)
    decreases fuel, |path|, 1
  {
    if |path| == 0 then Ok(Undef) else Walk(root, root, path, fuel)
  }

  /** The loop of `baseGet` from the value `obj` with `path` still to go. */
  function Walk(root: JVal, obj: JVal, path: seq<JVal>, fuel: nat): (r: Res<JVal>)
    decreases fuel, |path|, 0
  {
    if |path| == 0 then Ok(obj)
    else if IsNullish(obj) then Ok(Undef)
    else
      var o :- FollowRef(root, obj, fuel);
      if IsNullish(o) then Throw(TypeError)
      else Walk(root, Prop(o, ToKey(path[0])), path[1..], fuel)
  }

  /** `followRef(root, ref)`. */
  function FollowRef(root: JVal, ref: JVal, fuel: nat): (r: Res<JVal>)
    decreases fuel, 0, 0
  {
    if ref == Undef then Ok(Undef)
    else if ref == Null then Throw(TypeError)
    else if IsRef(ref) then
      if fuel == 0 then Throw(OutOfFuel)
      else
        var p :- RefPath(Prop(ref, "value"));
        BaseGet(root, p, fuel - 1)
    else Ok(ref)
  }

  /** No reference anywhere inside `v`. */
  ghost predicate RefFree(v: JVal)
    decreases v
  {
    !IsRef(v) &&
    match v
    case Obj(m) => forall k :: k in m ==> RefFree(m[k])
    case Arr(es, ex) => (forall i :: 0 <= i < |es| ==> RefFree(es[i])) && (forall k :: k in ex ==> RefFree(ex[k]))
    case _ => true
  }

  lemma PropRefFree(v: JVal, k: string)
    requires RefFree(v)
    ensures RefFree(Prop(v, k))
  {
  }

  lemma {:induction false} WalkRefFree(root: JVal, obj: JVal, path: seq<JVal>, fuel: nat)
    requires RefFree(obj)
    ensures Walk(root, obj, path, fuel) == Ok(Lookup(obj, PathKeys(path)))
    decreases |path|
  {
    if |path| > 0 {
      var k := ToKey(path[0]);
      if IsNullish(obj) {
        if |path| > 1 {
          LookupOfNonObject(Prop(obj, k), PathKeys(path)[1..]);
        }
        assert PathKeys(path)[1..] == PathKeys(path[1..]);
      } else {
        PropRefFree(obj, k);
        WalkRefFree(root, Prop(obj, k), path[1..], fuel);
        assert PathKeys(path)[1..] == PathKeys(path[1..]);
      }
    }
  }

  /** Without references, `baseGet` of a non-empty path is the plain
      nested lookup, whatever the fuel: stopping early at null or
      undefined gives undefined, as the lookup does. */
  lemma BaseGetRefFree(root: JVal, path: seq<JVal>, fuel: nat)
    requires RefFree(root) && |path| > 0
    ensures BaseGet(root, path, fuel) == Ok(Lookup(root, PathKeys(path)))
  {
    WalkRefFree(root, root, path, fuel);
  }

  /** The empty path reads as undefined, even at the root. */
  lemma BaseGetEmpty(root: JVal, fuel: nat)
    ensures BaseGet(root, [], fuel) == Ok(Undef)
    ensures FollowRef(root, Undef, fuel) == Ok(Undef)
  {
  }

  /** More fuel never changes an answer that did not run out of it. */
  lemma {:induction false} BaseGetFuel(root: JVal, path: seq<JVal>, fuel: nat, more: nat)
    requires fuel <= more
    requires BaseGet(root, path, fuel) != Throw(OutOfFuel)
    ensures BaseGet(root, path, more) == BaseGet(root, path, fuel)
    decreases fuel, |path|, 1
  {
    if |path| > 0 {
      WalkFuel(root, root, path, fuel, more);
    }
  }

  lemma {:induction false} WalkFuel(root: JVal, obj: JVal, path: seq<JVal>, fuel: nat, more: nat)
    requires fuel <= more
    requires Walk(root, obj, path, fuel) != Throw(OutOfFuel)
    ensures Walk(root, obj, path, more) == Walk(root, obj, path, fuel)
    decreases fuel, |path|, 0
  {
    if |path| > 0 && !IsNullish(obj) {
      FollowRefFuel(root, obj, fuel, more);
      var o := FollowRef(root, obj, fuel);
      if o.Ok? && !IsNullish(o.value) {
        WalkFuel(root, Prop(o.value, ToKey(path[0])), path[1..], fuel, more);
      }
    }
  }

  lemma {:induction false} FollowRefFuel(root: JVal, ref: JVal, fuel: nat, more: nat)
    requires fuel <= more
    requires FollowRef(root, ref, fuel) != Throw(OutOfFuel)
    ensures FollowRef(root, ref, more) == FollowRef(root, ref, fuel)
    decreases fuel, 0, 0
  {
    if ref != Undef && ref != Null && IsRef(ref) && fuel > 0 {
      var p := RefPath(Prop(ref, "value"));
      if p.Ok? {
        BaseGetFuel(root, p.value, fuel - 1, more - 1);
      }
    }
  }

  /** `followRef` answers undefined for undefined and any value that is not
      a reference as it is; a reference is resolved by `baseGet` of its
      `value` against the root, using up one unit of fuel. */
  lemma FollowRefMeaning(root: JVal, v: JVal, fuel: nat)
    ensures v == Undef ==> FollowRef(root, v, fuel) == Ok(Undef)
    ensures v == Null ==> FollowRef(root, v, fuel) == Throw(TypeError)
    ensures v != Undef && v != Null && !IsRef(v) ==> FollowRef(root, v, fuel) == Ok(v)
    ensures IsRef(v) && RefPath(Prop(v, "value")).Ok? ==>
              FollowRef(root, v, fuel + 1) == BaseGet(root, RefPath(Prop(v, "value")).value, fuel)
  {
  }

  /** A null met before the path is used up reads as undefined; a null
      reached with the path used up is the answer. */
  lemma NullishStops()
    ensures BaseGet(Obj(map["a" := Null]), [Str("a"), Str("b")], 0) == Ok(Undef)
    ensures BaseGet(Obj(map["a" := Null]), [Str("a")], 0) == Ok(Null)
  {
    var root := Obj(map["a" := Null]);
    assert Prop(root, "a") == Null;
    assert Walk(root, Null, [Str("b")], 0) == Ok(Undef);
    assert Walk(root, Null, [], 0) == Ok(Null);
  }

  /** A reference met on the way is resolved against the root; one that is
      the final value is returned as it is. */
  lemma RefsOnTheWay()
    ensures var target := Obj(map["c" := Num(5)]);
            var ref := Obj(map[RefType := Str(RefTag), "value" := Arr([Str("b")], map[])]);
            var root := Obj(map["a" := ref, "b" := target]);
            BaseGet(root, [Str("a"), Str("c")], 1) == Ok(Num(5)) &&
            BaseGet(root, [Str("a")], 1) == Ok(ref) &&
            BaseGet(root, [Str("a"), Str("c")], 0) == Throw(OutOfFuel)
  {
    var target := Obj(map["c" := Num(5)]);
    var ref := Obj(map[RefType := Str(RefTag), "value" := Arr([Str("b")], map[])]);
    var root := Obj(map["a" := ref, "b" := target]);
    assert IsRef(ref);
    assert !IsRef(root) && !IsRef(target);
    assert BaseGet(root, [Str("b")], 0) == Ok(target) by {
      assert Prop(root, "b") == target;
      assert Walk(root, target, [], 0) == Ok(target);
    }
    assert FollowRef(root, ref, 1) == Ok(target);
    assert Walk(root, Num(5), [], 1) == Ok(Num(5));
    assert Walk(root, ref, [], 1) == Ok(ref);
  }

  // ---------------------------------------------------------------------
  // Writing along a path

  /** `customizer(objValue, key, nested)`. */
  type Customizer = (JVal, JVal, JVal) -> JVal

  /** The changed tree, and the value `baseSet` returns: what it reads back
      where it stopped. */
  datatype SetOutcome = SetOutcome(tree: JVal, returned: JVal)

  /** The intermediate container `baseSet` puts at `key` of `nested` when
      `next` follows: the customizer's answer unless undefined, else the
      existing object, else `[]` before an index and `{}` otherwise. */
  function Intermediate(nested: JVal, key: JVal, next: JVal, customizer: Option<Customizer>): (r: JVal)
    ensures customizer.None? ==> IsObject(r)
    ensures customizer.None? && IsObject(Prop(nested, ToKey(key))) ==> r == Prop(nested, ToKey(key))
  {
    var objValue := Prop(nested, ToKey(key));
    var c := if customizer.Some? then customizer.value(objValue, key, nested) else Undef;
    if c != Undef then c
    else if IsObject(objValue) then objValue
    else if IsIndex(next, None) then EmptyArr
    else EmptyObj
  }

  /** The loop of `baseSet` from the container `nested`. A primitive on
      the way swallows the writes and reads back undefined; null or
      undefined stops the walk and is returned. */
  function SetAlong(nested: JVal, path: seq<JVal>, value: JVal, customizer: Option<Customizer>): (r: SetOutcome)
    decreases |path|
  {
    if IsNullish(nested) || |path| == 0 then SetOutcome(nested, nested)
    else
      var k := ToKey(path[0]);
      if |path| == 1 then
        var n := Put(nested, k, value);
        SetOutcome(n, Prop(n, k))
      else
        var n := Put(nested, k, Intermediate(nested, path[0], path[1], customizer));
        var inner := SetAlong(Prop(n, k), path[1..], value, customizer);
        SetOutcome(Put(n, k, inner.tree), inner.returned)
  }

  /** `baseSet(object, path, value, customizer)`: a non-object target is
      returned untouched. */
  function BaseSet(target: JVal, path: seq<JVal>, value: JVal, customizer: Option<Customizer>): (r: SetOutcome)
    ensures !IsObject(target) ==> r == SetOutcome(target, target)
    ensures IsObject(target) ==> IsObject(r.tree)
  {
    if !IsObject(target) then SetOutcome(target, target) else SetAlong(target, path, value, customizer)
  }

  /** Every answer of the customizer is undefined or an object. */
  ghost predicate BuildsContainers(customizer: Option<Customizer>) {
    customizer.Some? ==> forall a, b, c :: customizer.value(a, b, c) == Undef || IsObject(customizer.value(a, b, c))
  }

  lemma {:induction false} SetAlongReads(nested: JVal, path: seq<JVal>, value: JVal, customizer: Option<Customizer>)
    requires IsObject(nested) && |path| > 0 && BuildsContainers(customizer)
    ensures IsObject(SetAlong(nested, path, value, customizer).tree)
    ensures Lookup(SetAlong(nested, path, value, customizer).tree, PathKeys(path)) == value
    ensures SetAlong(nested, path, value, customizer).returned == value
    decreases |path|
  {
    var k := ToKey(path[0]);
    if |path| == 1 {
      PropPut(nested, k, value);
    } else {
      var im := Intermediate(nested, path[0], path[1], customizer);
      PropPut(nested, k, im);
      assert IsObject(im);
      SetAlongReads(im, path[1..], value, customizer);
      SetAlongReadsStep(nested, path, value, customizer);
    }
  }

  /** One step of `SetAlongReads`: what the rest of the path reads in the
      intermediate, the whole path reads in the result. */
  lemma SetAlongReadsStep(nested: JVal, path: seq<JVal>, value: JVal, customizer: Option<Customizer>)
    requires IsObject(nested) && |path| > 1
    requires var im := Intermediate(nested, path[0], path[1], customizer);
             var inner := SetAlong(im, path[1..], value, customizer);
             IsObject(im) && Lookup(inner.tree, PathKeys(path[1..])) == value && inner.returned == value
    ensures IsObject(SetAlong(nested, path, value, customizer).tree)
    ensures Lookup(SetAlong(nested, path, value, customizer).tree, PathKeys(path)) == value
    ensures SetAlong(nested, path, value, customizer).returned == value
  {
    var k := ToKey(path[0]);
    var im := Intermediate(nested, path[0], path[1], customizer);
    var n := Put(nested, k, im);
    PropPut(nested, k, im);
    var inner := SetAlong(im, path[1..], value, customizer);
    PropPut(n, k, inner.tree);
    assert PathKeys(path)[1..] == PathKeys(path[1..]);
  }

  /** After `baseSet` on an object along a non-empty path, the plain nested
      lookup of the path reads the value, and the call returns it (given a
      customizer that, if any, only answers with containers). */
  lemma BaseSetReads(target: JVal, path: seq<JVal>, value: JVal, customizer: Option<Customizer>)
    requires IsObject(target) && |path| > 0 && BuildsContainers(customizer)
    ensures Lookup(BaseSet(target, path, value, customizer).tree, PathKeys(path)) == value
    ensures BaseSet(target, path, value, customizer).returned == value
  {
    SetAlongReads(target, path, value, customizer);
  }

  lemma LookupOfEmpty(c: JVal, keys: seq<string>)
    requires c == EmptyObj || c == EmptyArr
    requires |keys| > 0
    ensures Lookup(c, keys) == Undef
  {
    if |keys| > 1 {
      LookupOfNonObject(Undef, keys[1..]);
    }
  }

  /** A key other than the first segment's is left alone. */
  lemma SetAlongOtherKey(nested: JVal, path: seq<JVal>, value: JVal, k': string)
    requires IsObject(nested) && |path| > 0 && ToKey(path[0]) != k'
    ensures Prop(SetAlong(nested, path, value, None).tree, k') == Prop(nested, k')
  {
    var k := ToKey(path[0]);
    if |path| == 1 {
      PropPutOther(nested, k, k', value);
    } else {
      var im := Intermediate(nested, path[0], path[1], None);
      var n := Put(nested, k, im);
      var inner := SetAlong(Prop(n, k), path[1..], value, None);
      PropPutOther(n, k, k', inner.tree);
      PropPutOther(nested, k, k', im);
    }
  }

  /** Under the first segment sits the intermediate, written along the rest. */
  lemma SetAlongChild(nested: JVal, path: seq<JVal>, value: JVal)
    requires IsObject(nested) && |path| > 1
    ensures var im := Intermediate(nested, path[0], path[1], None);
            Prop(SetAlong(nested, path, value, None).tree, ToKey(path[0])) == SetAlong(im, path[1..], value, None).tree
  {
    var k := ToKey(path[0]);
    var im := Intermediate(nested, path[0], path[1], None);
    var n := Put(nested, k, im);
    PropPut(nested, k, im);
    var inner := SetAlong(Prop(n, k), path[1..], value, None);
    PropPut(n, k, inner.tree);
  }

  /** Without a customizer, every path that parts from the written one
      reads as before: existing containers are kept, created ones are
      empty apart from the written path. */
  lemma {:induction false} SetAlongFrame(nested: JVal, path: seq<JVal>, value: JVal, other: seq<string>)
    requires IsObject(nested) && Diverge(PathKeys(path), other)
    ensures Lookup(SetAlong(nested, path, value, None).tree, other) == Lookup(nested, other)
    decreases |path|
  {
    var keys := PathKeys(path);
    var i :| 0 <= i < |keys| && i < |other| && keys[..i] == other[..i] && keys[i] != other[i];
    if i == 0 {
      SetAlongOtherKey(nested, path, value, other[0]);
    } else {
      DivergeTail(keys, other, i);
      assert keys[1..] == PathKeys(path[1..]);
      var im := Intermediate(nested, path[0], path[1], None);
      SetAlongFrame(im, path[1..], value, other[1..]);
      SetAlongFrameStep(nested, path, value, other);
    }
  }

  /** Key lists that part after a shared first key still part one key
      further down. */
  lemma DivergeTail(keys: seq<string>, other: seq<string>, i: nat)
    requires 0 < i < |keys| && i < |other|
    requires keys[..i] == other[..i] && keys[i] != other[i]
    ensures keys[0] == other[0]
    ensures Diverge(keys[1..], other[1..])
  {
    assert other[0] == other[..i][0] == keys[..i][0] == keys[0];
    assert keys[1..][..i - 1] == keys[..i][1..];
    assert other[1..][..i - 1] == other[..i][1..];
    assert keys[1..][i - 1] != other[1..][i - 1];
  }

  /** One step down a shared first segment: the lookup below it is the
      lookup in the intermediate, and that agrees with the old value. */
  lemma SetAlongFrameStep(nested: JVal, path: seq<JVal>, value: JVal, other: seq<string>)
    requires IsObject(nested) && |path| > 1 && |other| > 0 && ToKey(path[0]) == other[0]
    requires var im := Intermediate(nested, path[0], path[1], None);
             Lookup(SetAlong(im, path[1..], value, None).tree, other[1..]) == Lookup(im, other[1..])
    requires Diverge(PathKeys(path[1..]), other[1..])
    ensures Lookup(SetAlong(nested, path, value, None).tree, other) == Lookup(nested, other)
  {
    var k := other[0];
    var im := Intermediate(nested, path[0], path[1], None);
    SetAlongChild(nested, path, value);
    if !IsObject(Prop(nested, k)) {
      LookupOfNonObject(Prop(nested, k), other[1..]);
      assert |other[1..]| > 0;
      LookupOfEmpty(im, other[1..]);
    }
  }

  /** `baseSet` without a customizer leaves every path that parts from the
      written one as it was. */
  lemma BaseSetFrame(target: JVal, path: seq<JVal>, value: JVal, other: seq<string>)
    requires Diverge(PathKeys(path), other)
    ensures Lookup(BaseSet(target, path, value, None).tree, other) == Lookup(target, other)
  {
    if IsObject(target) {
      SetAlongFrame(target, path, value, other);
    }
  }

  /** A missing or primitive intermediate becomes `[]` before an index
      segment and `{}` otherwise; an existing object is kept. */
  lemma BaseSetCreates(target: JVal, path: seq<JVal>, value: JVal)
    requires IsObject(target) && |path| > 1
    ensures var before := Prop(target, ToKey(path[0]));
            var after := Prop(BaseSet(target, path, value, None).tree, ToKey(path[0]));
            IsObject(after) &&
            (!IsObject(before) ==> (after.Arr? <==> IsIndex(path[1], None))) &&
            (IsObject(before) ==> before.Arr? == after.Arr?)
  {
    var im := Intermediate(target, path[0], path[1], None);
    SetAlongChild(target, path, value);
    SetAlongShape(im, path[1..], value);
  }

  lemma SetAlongShape(nested: JVal, path: seq<JVal>, value: JVal)
    requires IsObject(nested)
    ensures IsObject(SetAlong(nested, path, value, None).tree)
    ensures SetAlong(nested, path, value, None).tree.Arr? == nested.Arr?
  {
  }

  /** A customizer's answer other than undefined wins over the existing
      value; a primitive answer swallows the rest of the path, and the
      call then returns undefined (or null, for a null answer). */
  lemma BaseSetCustomizerWins(target: JVal, path: seq<JVal>, value: JVal, customizer: Customizer)
    requires IsObject(target) && |path| > 1
    requires var c := customizer(Prop(target, ToKey(path[0])), path[0], target);
             c != Undef && !IsObject(c)
    ensures var c := customizer(Prop(target, ToKey(path[0])), path[0], target);
            var out := BaseSet(target, path, value, Some(customizer));
            Prop(out.tree, ToKey(path[0])) == c &&
            out.returned == (if c == Null then Null else Undef)
  {
    var k := ToKey(path[0]);
    var c := customizer(Prop(target, k), path[0], target);
    var n := Put(target, k, c);
    PropPut(target, k, c);
    var inner := SetAlong(c, path[1..], value, Some(customizer));
    if !IsNullish(c) {
      SetAlongPrimitive(c, path[1..], value, Some(customizer));
    }
    PropPut(n, k, inner.tree);
  }

  /** Writing through a primitive changes nothing and reads back undefined. */
  lemma SetAlongPrimitive(nested: JVal, path: seq<JVal>, value: JVal, customizer: Option<Customizer>)
    requires !IsObject(nested) && !IsNullish(nested) && |path| > 0
    ensures SetAlong(nested, path, value, customizer) == SetOutcome(nested, Undef)
  {
  }

  /** Writing into an empty object builds the containers the segments call
      for. */
  lemma BaseSetBuilds()
    ensures BaseSet(EmptyObj, [Str("a"), Num(0), Str("b")], Num(1), None).tree ==
            Obj(map["a" := Arr([Obj(map["b" := Num(1)])], map[])])
  {
    var inner := Arr([Obj(map["b" := Num(1)])], map[]);
    BuildsUnderIndex();
    assert Intermediate(EmptyObj, Str("a"), Num(0), None) == EmptyArr by {
      ZeroIsIndexKey();
    }
    var n := Put(EmptyObj, "a", EmptyArr);
    assert Prop(n, "a") == EmptyArr;
    assert [Str("a"), Num(0), Str("b")][1..] == [Num(0), Str("b")];
    assert Put(n, "a", inner) == Obj(map["a" := inner]);
  }

  /** The step below the index segment of `BaseSetBuilds`. */
  lemma BuildsUnderIndex()
    ensures SetAlong(EmptyArr, [Num(0), Str("b")], Num(1), None).tree == Arr([Obj(map["b" := Num(1)])], map[])
  {
    var leaf := Obj(map["b" := Num(1)]);
    ZeroIsIndexKey();
    assert Intermediate(EmptyArr, Num(0), Str("b"), None) == EmptyObj by {
      assert !IsIndex(Str("b"), None) by {
        assert !IsCanonicalUint("b");
      }
    }
    WriteFirstElement(EmptyArr, EmptyObj);
    WriteFirstElement(Arr([EmptyObj], map[]), leaf);
    assert SetAlong(EmptyObj, [Str("b")], Num(1), None).tree == leaf;
    assert [Num(0), Str("b")][1..] == [Str("b")];
  }

  /** The number `0` as a key is the array index 0. */
  lemma ZeroIsIndexKey()
    ensures ToKey(Num(0)) == "0" && IsArrayIndex("0") && ParseNat("0") == 0
  {
    assert NatToString(0) == "0";
    assert "0"[..0] == "";
  }

  /** Writing element 0 of an array of at most one element. */
  lemma WriteFirstElement(a: JVal, x: JVal)
    requires a == EmptyArr || (a.Arr? && |a.elems| == 1 && a.extra == map[])
    ensures Put(a, "0", x) == Arr([x], map[])
    ensures Prop(Put(a, "0", x), "0") == x
  {
    ZeroIsIndexKey();
    assert SetIndex(a.elems, 0, x) == [x];
  }
}
