/**
  The dotted-path object adapters: `getValue`/`setValue` over a source
  object, addressed by a path split on `.` only. Three variants share one
  model:
  - Plain: the provider of the later revision; `getValue()` without a
    path yields the source, and every missing intermediate is created;
  - Embedded: the binder built into the earlier binding nodes; a missing
    path throws, every missing intermediate is created;
  - Mixin: the binder of the mixin variant; only the last intermediate is
    created, and a missing earlier one makes the parent missing.
 */
module ObjectProvider {
  import opened JsValue

  datatype Dialect = Plain | Embedded | Mixin

  // ---------------------------------------------------------------------
  // Dotted strings

  predicate NoDot(s: string) {
    forall i :: 0 <= i < |s| ==> s[i] != '.'
  }

  /** `s.split('.')`: never empty; an empty string is one empty part. */
  function SplitDots(s: string): (r: seq<string>)
    ensures |r| >= 1
    ensures forall i :: 0 <= i < |r| ==> NoDot(r[i])
    decreases |s|
  {
    if |s| == 0 then [""]
    else if s[0] == '.' then [""] + SplitDots(s[1..])
    else
      var rest := SplitDots(s[1..]);
      [[s[0]] + rest[0]] + rest[1..]
  }

  /** `parts.join('.')`. */
  function JoinDots(parts: seq<string>): string
    requires |parts| >= 1
    decreases |parts|
  {
    if |parts| == 1 then parts[0] else parts[0] + "." + JoinDots(parts[1..])
  }

  lemma {:induction false} JoinSplit(s: string)
    ensures JoinDots(SplitDots(s)) == s
    decreases |s|
  {
    if |s| > 0 {
      JoinSplit(s[1..]);
      var rest := SplitDots(s[1..]);
      if s[0] == '.' {
        assert ([""] + rest)[1..] == rest;
      } else {
        var r := [[s[0]] + rest[0]] + rest[1..];
        if |rest| > 1 {
          assert r[1..] == rest[1..];
          assert JoinDots(rest) == rest[0] + "." + JoinDots(rest[1..]);
        }
      }
    }
  }

  lemma {:induction false} SplitJoin(parts: seq<string>)
    requires |parts| >= 1
    requires forall i :: 0 <= i < |parts| ==> NoDot(parts[i])
    ensures SplitDots(JoinDots(parts)) == parts
    decreases |parts|
  {
    if |parts| == 1 {
      SplitNoDot(parts[0], "");
      assert parts[0] + "" == parts[0];
    } else {
      SplitJoin(parts[1..]);
      var tail := JoinDots(parts[1..]);
      SplitNoDot(parts[0], "." + tail);
      assert parts[0] + ("." + tail) == parts[0] + "." + tail;
      assert ("." + tail)[1..] == tail;
      assert [""] + parts[1..] == [""] + SplitDots(tail);
    }
  }

  /** A dot-free head joins onto the first part of what follows. */
  lemma {:induction false} SplitNoDot(head: string, rest: string)
    requires NoDot(head)
    requires |rest| == 0 || rest[0] == '.'
    ensures var r := SplitDots(head + rest);
            r[0] == head && r[1..] == (if |rest| == 0 then [] else SplitDots(rest[1..]))
    decreases |head|
  {
    if |head| == 0 {
      assert head + rest == rest;
      if |rest| > 0 {
        assert ([""] + SplitDots(rest[1..]))[1..] == SplitDots(rest[1..]);
      }
    } else {
      assert (head + rest)[1..] == head[1..] + rest;
      SplitNoDot(head[1..], rest);
      assert [head[0]] + head[1..] == head;
    }
  }

  lemma {:induction false} JoinDotsAppend(x: seq<string>, y: seq<string>)
    requires |x| >= 1 && |y| >= 1
    ensures JoinDots(x + y) == JoinDots(x) + "." + JoinDots(y)
    decreases |x|
  {
    if |x| == 1 {
      assert (x + y)[1..] == y;
    } else {
      assert (x + y)[1..] == x[1..] + y;
      JoinDotsAppend(x[1..], y);
    }
  }

  /** Joining two dotted paths with a dot splits into the parts of the
      first followed by the parts of the second. */
  lemma SplitDotsOfJoin(a: string, b: string)
    ensures SplitDots(a + "." + b) == SplitDots(a) + SplitDots(b)
  {
    var x := SplitDots(a);
    var y := SplitDots(b);
    JoinSplit(a);
    JoinSplit(b);
    JoinDotsAppend(x, y);
    SplitJoin(x + y);
  }

  /** Position of the last `.`, if any. */
  function LastDot(p: string): (r: Option<nat>)
    ensures r.Some? ==> r.value < |p| && p[r.value] == '.' && NoDot(p[r.value + 1..])
    ensures r.None? ==> NoDot(p)
    decreases |p|
  {
    if |p| == 0 then None
    else if p[|p| - 1] == '.' then Some(|p| - 1)
    else
      var r := LastDot(p[..|p| - 1]);
      assert forall j :: 0 <= j < |p| - 1 ==> p[..|p| - 1][j] == p[j];
      r
  }

  /** `getProperty(path)`: what follows the last dot, or the whole path. */
  function GetProperty(p: string): string {
    match LastDot(p)
    case Some(i) => p[i + 1..]
    case None => p
  }

  /** The property is dot-free, and the path is the parent path, a dot and
      the property (or just the property). */
  lemma GetPropertyMeaning(p: string)
    ensures NoDot(GetProperty(p))
    ensures LastDot(p).None? ==> GetProperty(p) == p
    ensures LastDot(p).Some? ==> p == p[..LastDot(p).value] + "." + GetProperty(p)
  {
    if LastDot(p).Some? {
      var i := LastDot(p).value;
      assert p == p[..i] + [p[i]] + p[i + 1..];
    }
  }

  // ---------------------------------------------------------------------
  // Resolving the parent object

  /** Where the parent of the addressed property is: at a key path inside
      the source, on a fresh object that was never attached (created on a
      primitive), or missing (the mixin's undefined). */
  datatype ParentRef = At(keys: seq<string>) | Detached | Missing

  datatype Resolved = Resolved(src: JVal, parent: ParentRef)

  function Under(k: string, p: ParentRef): ParentRef {
    match p
    case At(ks) => At([k] + ks)
    case _ => p
  }

  /** Whether the walk ends after the first part: a single part, or an
      empty second part (the `!parts[1]` test). */
  predicate LastPart(parts: seq<string>)
    requires |parts| > 0
  {
    |parts| == 1 || parts[1] == ""
  }

  /** The parts a walk consumes before it stops. */
  function Consumed(parts: seq<string>): (r: seq<string>)
    requires |parts| > 0
    ensures 1 <= |r| <= |parts| && r == parts[..|r|]
  {
    if LastPart(parts) then [parts[0]] else [parts[0]] + Consumed(parts[1..])
  }

  /** `string_to_ref(obj, parts.join('.'))`. With `createAll` (the plain
      and embedded binders) an undefined child is replaced by `{}` at
      every step; without it (the mixin) only at the last step, and an
      earlier null or undefined child makes the parent missing. A write
      onto a primitive is lost and leaves the created object detached;
      reading from null or undefined throws. */
  function StringToRef(createAll: bool, obj: JVal, parts: seq<string>): (r: Res<Resolved>)
    requires |parts| > 0
    decreases |parts|
  {
    if IsNullish(obj) then Throw(TypeError)
    else
      var k := parts[0];
      var child := Prop(obj, k);
      if child == Undef && (LastPart(parts) || createAll) then
        if !IsObject(obj) then Ok(Resolved(obj, Detached))
        else
          var obj' := Put(obj, k, EmptyObj);
          if LastPart(parts) then Ok(Resolved(obj', At([k])))
          else
            var inner :- StringToRef(createAll, EmptyObj, parts[1..]);
            Ok(Resolved(Put(obj', k, inner.src), Under(k, inner.parent)))
      else if LastPart(parts) then Ok(Resolved(obj, At([k])))
      else if !createAll && IsNullish(child) then Ok(Resolved(obj, Missing))
      else
        var inner :- StringToRef(createAll, child, parts[1..]);
        Ok(Resolved(Put(obj, k, inner.src), Under(k, inner.parent)))
  }

  /** `getParent(path)`: the source itself for a path without a dot. */
  function GetParent(d: Dialect, src: JVal, path: Option<string>): (r: Res<Resolved>)
    ensures path.None? ==> (r.Throw? <==> d != Plain)
  {
    match path
    case None => if d == Plain then Ok(Resolved(src, At([]))) else Throw(TypeError)
    case Some(p) =>
      match LastDot(p)
      case None => Ok(Resolved(src, At([])))
      case Some(i) => StringToRef(d != Mixin, src, SplitDots(p[..i]))
  }

  /** What a read returns: the source after the read (which may have
      created intermediates), the value, and where inside the source that
      value sits when it sits inside it. */
  datatype Got = Got(src: JVal, value: JVal, at: Option<seq<string>>)

  /** `getValue(path)`. An undefined parent reads as undefined; a null one
      throws. */
  function GetValue(d: Dialect, src: JVal, path: Option<string>): (r: Res<Got>)
    ensures r.Ok? && r.value.at.Some? ==> Lookup(r.value.src, r.value.at.value) == r.value.value
  {
    var res :- GetParent(d, src, path);
    match res.parent
    case At(ks) =>
      var parent := Lookup(res.src, ks);
      if parent == Undef then Ok(Got(res.src, Undef, None))
      else if path.None? then Ok(Got(res.src, parent, Some(ks)))
      else if parent == Null then Throw(TypeError)
      else
        var prop := GetProperty(path.value);
        if IsObject(parent) then
          LookupAppend(res.src, ks, [prop]);
          Ok(Got(res.src, Prop(parent, prop), Some(ks + [prop])))
        else Ok(Got(res.src, Prop(parent, prop), None))
    case _ => Ok(Got(res.src, Undef, None))
  }

  /** `setValue(path, value)`. An undefined parent swallows the write; a
      null one, or a missing path, throws. */
  function SetValue(d: Dialect, src: JVal, path: Option<string>, v: JVal): (r: Res<JVal>)
  {
    var res :- GetParent(d, src, path);
    match res.parent
    case At(ks) =>
      var parent := Lookup(res.src, ks);
      if parent == Undef then Ok(res.src)
      else if path.None? || parent == Null then Throw(TypeError)
      else Ok(Update(res.src, ks, Put(parent, GetProperty(path.value), v)))
    case _ => Ok(res.src)
  }

  // ---------------------------------------------------------------------
  // Properties

  /** Without a path the plain provider reads the source itself; the other
      binders throw. */
  lemma GetWithoutPath(d: Dialect, src: JVal)
    ensures d == Plain ==> GetValue(d, src, None) == Ok(Got(src, src, if src == Undef then None else Some([])))
    ensures d != Plain ==> GetValue(d, src, None).Throw? && SetValue(d, src, None, Undef).Throw?
    ensures SetValue(Plain, src, None, Undef) == (if src == Undef then Ok(src) else Throw(TypeError))
  {
  }

  /** A path without a dot has the source as its parent. */
  lemma NoDotParentIsSource(d: Dialect, src: JVal, p: string)
    requires NoDot(p)
    ensures GetParent(d, src, Some(p)) == Ok(Resolved(src, At([])))
  {
  }

  lemma PropDefined(v: JVal, k: string)
    requires Prop(v, k) != Undef
    ensures IsObject(v)
  {
  }

  /** A walk that ends at a key path ends at the consumed parts, every
      container above it being an object. */
  lemma {:induction false} StringToRefShape(createAll: bool, obj: JVal, parts: seq<string>)
    requires |parts| > 0
    requires StringToRef(createAll, obj, parts).Ok?
    requires StringToRef(createAll, obj, parts).value.parent.At?
    ensures var r := StringToRef(createAll, obj, parts).value;
            r.parent.keys == Consumed(parts) && ObjectsAlong(r.src, r.parent.keys) && Lookup(r.src, r.parent.keys) != Undef
    decreases |parts|
  {
    var r := StringToRef(createAll, obj, parts).value;
    var k := parts[0];
    var child := Prop(obj, k);
    if child == Undef && (LastPart(parts) || createAll) {
      var obj' := Put(obj, k, EmptyObj);
      PropPut(obj, k, EmptyObj);
      if !LastPart(parts) {
        var inner := StringToRef(createAll, EmptyObj, parts[1..]).value;
        StringToRefShape(createAll, EmptyObj, parts[1..]);
        PropPut(obj', k, inner.src);
        assert r.parent.keys == [k] + inner.parent.keys;
        assert r.parent.keys[1..] == inner.parent.keys;
      }
    } else if LastPart(parts) {
      PropDefined(obj, k);
    } else if !(!createAll && IsNullish(child)) {
      var inner := StringToRef(createAll, child, parts[1..]).value;
      StringToRefShape(createAll, child, parts[1..]);
      var ks := inner.parent.keys;
      PropDefined(obj, k);
      PropPut(obj, k, inner.src);
      assert r.parent.keys[1..] == ks;
    }
  }

  /** Where every consumed part already leads to a value (objects above
      the last), the walk changes nothing and ends there. */
  lemma {:induction false} StringToRefStable(createAll: bool, obj: JVal, parts: seq<string>)
    requires |parts| > 0
    requires ObjectsAlong(obj, Consumed(parts)) && Lookup(obj, Consumed(parts)) != Undef
    ensures StringToRef(createAll, obj, parts) == Ok(Resolved(obj, At(Consumed(parts))))
    decreases |parts|
  {
    var ks := Consumed(parts);
    var k := parts[0];
    var child := Prop(obj, k);
    if !LastPart(parts) {
      assert ks[1..] == Consumed(parts[1..]);
      StringToRefStable(createAll, child, parts[1..]);
      PutSame(obj, k);
    }
  }

  /** `setValue` followed by `getValue` at the same path reads the value
      written, whenever the parent resolved to an object. */
  lemma SetThenGet(d: Dialect, src: JVal, p: string, v: JVal)
    requires GetParent(d, src, Some(p)).Ok?
    requires GetParent(d, src, Some(p)).value.parent.At?
    requires IsObject(Lookup(GetParent(d, src, Some(p)).value.src, GetParent(d, src, Some(p)).value.parent.keys))
    ensures SetValue(d, src, Some(p), v).Ok?
    ensures var s1 := SetValue(d, src, Some(p), v).value;
            GetValue(d, s1, Some(p)).Ok? && GetValue(d, s1, Some(p)).value.src == s1 &&
            GetValue(d, s1, Some(p)).value.value == v
  {
    var res := GetParent(d, src, Some(p)).value;
    var ks := res.parent.keys;
    var parent := Lookup(res.src, ks);
    var prop := GetProperty(p);
    var x := Put(parent, prop, v);
    PropPut(parent, prop, v);
    var s1 := Update(res.src, ks, x);
    assert SetValue(d, src, Some(p), v) == Ok(s1);
    ParentAfterWrite(d, src, p, x);
    ObjectsAlongFromLookup(res.src, ks);
    LookupUpdate(res.src, ks, x);
  }

  /** Writing an object in place of the resolved parent leaves the parent
      resolving to the same keys, with nothing left to create. */
  lemma ParentAfterWrite(d: Dialect, src: JVal, p: string, x: JVal)
    requires GetParent(d, src, Some(p)).Ok?
    requires GetParent(d, src, Some(p)).value.parent.At?
    requires IsObject(x)
    ensures var res := GetParent(d, src, Some(p)).value;
            var s1 := Update(res.src, res.parent.keys, x);
            GetParent(d, s1, Some(p)) == Ok(Resolved(s1, res.parent))
  {
    var res := GetParent(d, src, Some(p)).value;
    var ks := res.parent.keys;
    var s1 := Update(res.src, ks, x);
    match LastDot(p)
    case None =>
      assert ks == [];
    case Some(i) =>
      var parts := SplitDots(p[..i]);
      StringToRefShape(d != Mixin, src, parts);
      LookupUpdate(res.src, ks, x);
      ObjectsAlongFromLookup(s1, ks);
      StringToRefStable(d != Mixin, s1, parts);
  }

  lemma {:induction false} UpdateAppend(v: JVal, ks: seq<string>, k: string, x: JVal)
    ensures Update(v, ks + [k], x) == Update(v, ks, Put(Lookup(v, ks), k, x))
    decreases |ks|
  {
    if |ks| == 0 {
      assert ks + [k] == [k];
    } else {
      assert (ks + [k])[0] == ks[0];
      assert (ks + [k])[1..] == ks[1..] + [k];
      UpdateAppend(Prop(v, ks[0]), ks[1..], k, x);
    }
  }

  /** `setValue` changes only the final property of the resolved parent:
      every path that parts from it reads as after the walk. */
  lemma SetValueFrame(d: Dialect, src: JVal, p: string, v: JVal, other: seq<string>)
    requires GetParent(d, src, Some(p)).Ok?
    requires GetParent(d, src, Some(p)).value.parent.At?
    requires IsObject(Lookup(GetParent(d, src, Some(p)).value.src, GetParent(d, src, Some(p)).value.parent.keys))
    requires Diverge(GetParent(d, src, Some(p)).value.parent.keys + [GetProperty(p)], other)
    ensures SetValue(d, src, Some(p), v).Ok?
    ensures Lookup(SetValue(d, src, Some(p), v).value, other) == Lookup(GetParent(d, src, Some(p)).value.src, other)
  {
    var res := GetParent(d, src, Some(p)).value;
    var ks := res.parent.keys;
    UpdateAppend(res.src, ks, GetProperty(p), v);
    LookupUpdateDiverge(res.src, ks + [GetProperty(p)], other, v);
  }

  /** The object nested along `ks`, empty at the bottom. */
  function Nest(ks: seq<string>): JVal
    decreases |ks|
  {
    if |ks| == 0 then EmptyObj else Obj(map[ks[0] := Nest(ks[1..])])
  }

  /** From an empty object, the creating walk builds the nest of the parts
      it consumes. */
  lemma {:induction false} FreshWalk(parts: seq<string>)
    requires |parts| > 0
    ensures StringToRef(true, EmptyObj, parts) == Ok(Resolved(Nest(Consumed(parts)), At(Consumed(parts))))
    decreases |parts|
  {
    var k := parts[0];
    if !LastPart(parts) {
      FreshWalk(parts[1..]);
      var ks := Consumed(parts);
      assert ks[1..] == Consumed(parts[1..]);
      assert Put(Put(EmptyObj, k, EmptyObj), k, Nest(ks[1..])) == Nest(ks) by {
        assert map[k := EmptyObj][k := Nest(ks[1..])] == map[k := Nest(ks[1..])];
      }
    }
  }

  /** `"A.B.C"` has parent path `A.B` and property `C`. */
  lemma ABC()
    ensures LastDot("A.B.C") == Some(3)
    ensures SplitDots("A.B.C"[..3]) == ["A", "B"]
    ensures GetProperty("A.B.C") == "C"
  {
    var p := "A.B.C";
    assert p[4] == 'C' && p[3] == '.';
    assert p[..3] == "A.B";
    SplitJoin(["A", "B"]);
    assert JoinDots(["A", "B"]) == "A.B";
  }

  /** Reading `"A.B.C"` from `{}` answers undefined but leaves
      `{A: {B: {}}}` behind. */
  lemma ReadCreates()
    ensures GetValue(Plain, EmptyObj, Some("A.B.C")) == Ok(Got(Nest(["A", "B"]), Undef, Some(["A", "B", "C"])))
  {
    ABC();
    FreshWalk(["A", "B"]);
    assert ["A", "B"][1..] == ["B"];
    assert Consumed(["A", "B"]) == ["A", "B"];
    var nest := Nest(["A", "B"]);
    assert GetParent(Plain, EmptyObj, Some("A.B.C")) == Ok(Resolved(nest, At(["A", "B"])));
    assert Lookup(nest, ["A", "B"]) == EmptyObj by {
      assert ["A", "B"][1..] == ["B"];
      assert ["B"][1..] == [];
    }
    assert ["A", "B"] + ["C"] == ["A", "B", "C"];
  }

  /** The mixin binder reads the same path from `{}` without creating
      anything, and creates the last parent once the others exist. */
  lemma MixinReadCreatesLast()
    ensures GetValue(Mixin, EmptyObj, Some("A.B.C")) == Ok(Got(EmptyObj, Undef, None))
    ensures GetValue(Mixin, Obj(map["A" := EmptyObj]), Some("A.B.C")) == Ok(Got(Nest(["A", "B"]), Undef, Some(["A", "B", "C"])))
  {
    ABC();
    assert ["A", "B"][1..] == ["B"];
    assert StringToRef(false, EmptyObj, ["A", "B"]) == Ok(Resolved(EmptyObj, Missing));
    var a := Obj(map["A" := EmptyObj]);
    assert StringToRef(false, EmptyObj, ["B"]) == Ok(Resolved(Obj(map["B" := EmptyObj]), At(["B"])));
    var nest := Nest(["A", "B"]);
    assert Nest(["B"]) == Obj(map["B" := EmptyObj]) by {
      assert ["B"][1..] == [];
    }
    assert Put(a, "A", Obj(map["B" := EmptyObj])) == nest;
    assert StringToRef(false, a, ["A", "B"]) == Ok(Resolved(nest, At(["A", "B"])));
    assert Lookup(nest, ["A", "B"]) == EmptyObj by {
      assert ["B"][1..] == [];
    }
    assert ["A", "B"] + ["C"] == ["A", "B", "C"];
  }

  /** Brackets are ordinary characters to the dotted binders. */
  lemma BracketsAreNames()
    ensures var src := Obj(map["a[0]" := Obj(map["b" := Num(1)])]);
            GetValue(Plain, src, Some("a[0].b")) == Ok(Got(src, Num(1), Some(["a[0]", "b"])))
  {
    var src := Obj(map["a[0]" := Obj(map["b" := Num(1)])]);
    var p := "a[0].b";
    assert LastDot(p) == Some(4) by {
      assert p[5] == 'b' && p[4] == '.';
    }
    assert p[..4] == "a[0]";
    assert SplitDots("a[0]") == ["a[0]"] by {
      SplitJoin(["a[0]"]);
    }
    assert GetProperty(p) == "b";
    assert ["a[0]"] + ["b"] == ["a[0]", "b"];
  }

  /** A missing parent in the mixin binder leaves the source untouched. */
  lemma {:induction false} MissingChangesNothing(obj: JVal, parts: seq<string>)
    requires |parts| > 0
    requires StringToRef(false, obj, parts).Ok? && StringToRef(false, obj, parts).value.parent.Missing?
    ensures StringToRef(false, obj, parts).value.src == obj
    decreases |parts|
  {
    var k := parts[0];
    var child := Prop(obj, k);
    if !LastPart(parts) && !IsNullish(child) {
      MissingChangesNothing(child, parts[1..]);
      PutSame(obj, k);
    }
  }

  /** A walk from a value that is not an object changes nothing: there is
      nowhere to put a created intermediate. */
  lemma StringToRefOfNonObject(createAll: bool, obj: JVal, parts: seq<string>)
    requires |parts| > 0 && !IsObject(obj)
    requires StringToRef(createAll, obj, parts).Ok?
    ensures StringToRef(createAll, obj, parts).value.src == obj
  {
  }

  /** Reads and writes through a source that is not an object leave it as
      it was. */
  lemma ProviderKeepsNonObjects(d: Dialect, src: JVal, path: Option<string>, v: JVal)
    ensures !IsObject(src) && GetValue(d, src, path).Ok? ==> GetValue(d, src, path).value.src == src
    ensures !IsObject(src) && SetValue(d, src, path, v).Ok? ==> SetValue(d, src, path, v).value == src
  {
    if !IsObject(src) && GetParent(d, src, path).Ok? {
      ParentOfNonObject(d, src, path);
      var res := GetParent(d, src, path).value;
      if res.parent.At? && |res.parent.keys| > 0 {
        LookupOfNonObject(src, res.parent.keys);
      }
    }
  }

  /** Resolving a parent in a source that is not an object leaves it as it
      was. */
  lemma ParentOfNonObject(d: Dialect, src: JVal, path: Option<string>)
    requires !IsObject(src) && GetParent(d, src, path).Ok?
    ensures GetParent(d, src, path).value.src == src
  {
    if path.Some? && LastDot(path.value).Some? {
      var i := LastDot(path.value).value;
      StringToRefOfNonObject(d != Mixin, src, SplitDots(path.value[..i]));
    }
  }

  /** A walk that ends detached found a primitive in the way; nothing was
      created before it, since the walk only descends into a created
      object when it creates all the way down. */
  lemma {:induction false} DetachedChangesNothing(createAll: bool, obj: JVal, parts: seq<string>)
    requires |parts| > 0
    requires StringToRef(createAll, obj, parts).Ok? && StringToRef(createAll, obj, parts).value.parent.Detached?
    ensures StringToRef(createAll, obj, parts).value.src == obj
    decreases |parts|
  {
    var k := parts[0];
    var child := Prop(obj, k);
    if child == Undef && (LastPart(parts) || createAll) {
      if IsObject(obj) && !LastPart(parts) {
        FreshWalk(parts[1..]);
        assert false;
      }
    } else if !LastPart(parts) && !(!createAll && IsNullish(child)) {
      DetachedChangesNothing(createAll, child, parts[1..]);
      PutSame(obj, k);
    }
  }

  /** Only the mixin's walk can end at a missing parent. */
  lemma {:induction false} CreatingNeverMisses(obj: JVal, parts: seq<string>)
    requires |parts| > 0
    ensures StringToRef(true, obj, parts).Ok? ==> !StringToRef(true, obj, parts).value.parent.Missing?
    decreases |parts|
  {
    if !LastPart(parts) {
      CreatingNeverMisses(EmptyObj, parts[1..]);
      CreatingNeverMisses(Prop(obj, parts[0]), parts[1..]);
    }
  }

  /** Reading again changes nothing more: whatever the first read created
      is found by the second, which answers the same. */
  lemma ReadIsStable(d: Dialect, src: JVal, path: Option<string>)
    requires GetValue(d, src, path).Ok?
    ensures GetValue(d, GetValue(d, src, path).value.src, path) == GetValue(d, src, path)
  {
    if path.Some? && LastDot(path.value).Some? {
      var i := LastDot(path.value).value;
      var parts := SplitDots(path.value[..i]);
      var r := StringToRef(d != Mixin, src, parts).value;
      match r.parent
      case At(_) =>
        StringToRefShape(d != Mixin, src, parts);
        StringToRefStable(d != Mixin, r.src, parts);
      case Detached =>
        DetachedChangesNothing(d != Mixin, src, parts);
      case Missing =>
        if d == Mixin {
          MissingChangesNothing(src, parts);
        } else {
          CreatingNeverMisses(src, parts);
        }
    }
  }

  /** The last dot of a parent path, a dot and a dot-free property is the
      one before the property. */
  lemma {:induction false} LastDotOfJoin(q: string, c: string)
    requires NoDot(c)
    ensures LastDot(q + "." + c) == Some(|q|)
    ensures GetProperty(q + "." + c) == c
  {
    LastDotBeforeTail(q, c);
    assert (q + "." + c)[|q| + 1..] == c;
  }

  lemma {:induction false} LastDotBeforeTail(q: string, c: string)
    requires NoDot(c)
    ensures LastDot(q + "." + c) == Some(|q|)
    decreases |c|
  {
    var p := q + "." + c;
    if |c| == 0 {
      assert p == q + ".";
    } else {
      var last := c[|c| - 1];
      var c' := c[..|c| - 1];
      assert c == c' + [last];
      assert p == (q + "." + c') + [last];
      assert p[..|p| - 1] == q + "." + c';
      assert NoDot(c') by {
        forall i | 0 <= i < |c'| ensures c'[i] != '.' {
          assert c'[i] == c[i];
        }
      }
      LastDotBeforeTail(q, c');
    }
  }

  /** The parts of a path of dot-free parts joined by dots. */
  lemma ThreeParts(a: string, b: string, c: string)
    requires NoDot(a) && NoDot(b) && NoDot(c)
    ensures var p := a + "." + b + "." + c;
            LastDot(p) == Some(|a| + 1 + |b|) && p[..|a| + 1 + |b|] == a + "." + b &&
            SplitDots(p[..|a| + 1 + |b|]) == [a, b] && GetProperty(p) == c
  {
    var q := a + "." + b;
    LastDotOfJoin(q, c);
    assert (q + "." + c)[..|q|] == q;
    SplitDotsOfJoin(a, b);
    SplitJoin([a]);
    SplitJoin([b]);
  }

  /** Over an empty object, a path of three parts: the mixin's walk finds
      no parent (it would create only the last intermediate, and the first
      is missing), so the write is lost and the read answers undefined; the
      plain and embedded binders create both intermediates, and the value
      written is read back. */
  lemma DeepPathOverEmpty(d: Dialect, a: string, b: string, c: string, v: JVal)
    requires NoDot(a) && NoDot(b) && NoDot(c) && b != ""
    ensures var p := a + "." + b + "." + c;
            d == Mixin ==> GetValue(d, EmptyObj, Some(p)) == Ok(Got(EmptyObj, Undef, None)) &&
                           SetValue(d, EmptyObj, Some(p), v) == Ok(EmptyObj)
    ensures var p := a + "." + b + "." + c;
            d != Mixin ==> SetValue(d, EmptyObj, Some(p), v).Ok? &&
                           GetValue(d, SetValue(d, EmptyObj, Some(p), v).value, Some(p)).Ok? &&
                           GetValue(d, SetValue(d, EmptyObj, Some(p), v).value, Some(p)).value.value == v
  {
    var p := a + "." + b + "." + c;
    ThreeParts(a, b, c);
    assert [a, b][1..] == [b];
    if d == Mixin {
      assert StringToRef(false, EmptyObj, [a, b]) == Ok(Resolved(EmptyObj, Missing));
    } else {
      FreshWalk([a, b]);
      assert Consumed([a, b]) == [a, b];
      var nest := Nest([a, b]);
      assert Lookup(nest, [a, b]) == EmptyObj by {
        assert [b][1..] == [];
        assert Nest([b]) == Obj(map[b := EmptyObj]);
        assert nest == Obj(map[a := Nest([b])]);
        assert Prop(nest, a) == Nest([b]);
        assert Lookup(Nest([b]), [b]) == Lookup(EmptyObj, []);
      }
      SetThenGet(d, EmptyObj, p, v);
    }
  }
}
