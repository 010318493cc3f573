/**
  JavaScript values as the binding engine sees them: the nested plain data
  that paths are resolved against, property reads and writes with the
  semantics of the compiled (non-strict) code, property keys, truthiness,
  and the JSON clone used by the array `move` of the later revision.
 */
module JsValue {

  datatype Option<+T> = None | Some(value: T) {
    function GetOr(default: T): T {
      match this
      case Some(v) => v
      case None => default
    }
  }

  /** A JavaScript value. Numbers are integers; an array keeps its elements
      and, separately, any non-index properties written onto it. */
  datatype JVal =
    | Undef
    | Null
    | Bool(b: bool)
    | Num(n: int)
    | Str(s: string)
    | Obj(props: map<string, JVal>)
    | Arr(elems: seq<JVal>, extra: map<string, JVal>)

  /** What a JavaScript evaluation can throw, plus the model's own bound on
      reference following (where JavaScript would overflow its stack). */
  datatype Err = TypeError | RangeError | OutOfFuel

  datatype Res<+T> = Ok(value: T) | Throw(err: Err) {
    predicate IsFailure() { Throw? }
    function PropagateFailure<U>(): Res<U>
      requires Throw?
    {
      Throw(err)
    }
    function Extract(): T
      requires Ok?
    {
      value
    }
  }

  const EmptyObj: JVal := Obj(map[])
  const EmptyArr: JVal := Arr([], map[])

  /** `value == null`: undefined or null. Reading or writing a property of
      such a value throws a TypeError. */
  predicate IsNullish(v: JVal) {
    v.Undef? || v.Null?
  }

  /** lodash `isObject`: non-null and of type object (functions are not
      values of this model). */
  predicate IsObject(v: JVal) {
    v.Obj? || v.Arr?
  }

  /** ToBoolean. */
  predicate Truthy(v: JVal) {
    match v
    case Undef => false
    case Null => false
    case Bool(b) => b
    case Num(n) => n != 0
    case Str(s) => s != ""
    case Obj(_) => true
    case Arr(_, _) => true
  }

  /** `===`. Primitives compare by value; objects compare by identity in
      JavaScript, which this model approximates by structural equality. */
  predicate StrictEquals(a: JVal, b: JVal) {
    a == b
  }

  // ---------------------------------------------------------------------
  // Decimal numerals

  predicate IsDigit(c: char) {
    '0' <= c <= '9'
  }

  predicate AllDigits(s: string) {
    forall i :: 0 <= i < |s| ==> IsDigit(s[i])
  }

  /** `^(?:0|[1-9]\d*)$`: the canonical spelling of a natural number. */
  predicate IsCanonicalUint(s: string) {
    s == "0" || (|s| > 0 && '1' <= s[0] <= '9' && AllDigits(s))
  }

  function DigitChar(d: nat): char
    requires d < 10
  {
    "0123456789"[d]
  }

  function DigitValue(c: char): nat
    requires IsDigit(c)
  {
    (c as int - '0' as int) as nat
  }

  /** Decimal spelling of a natural number. */
  function NatToString(n: nat): (s: string)
    ensures |s| > 0 && AllDigits(s)
    decreases n
  {
    if n < 10 then [DigitChar(n)] else NatToString(n / 10) + [DigitChar(n % 10)]
  }

  /** Value of a digit string. */
  function ParseNat(s: string): nat
    requires AllDigits(s)
    decreases |s|
  {
    if |s| == 0 then 0 else 10 * ParseNat(s[..|s| - 1]) + DigitValue(s[|s| - 1])
  }

  /** Number-to-string conversion for integers. */
  function IntToString(n: int): string {
    if n < 0 then "-" + NatToString(-n) else NatToString(n)
  }

  lemma {:induction false} NatToStringCanonical(n: nat)
    ensures IsCanonicalUint(NatToString(n))
    ensures NatToString(n)[0] == '0' ==> n == 0
    decreases n
  {
    if n >= 10 {
      NatToStringCanonical(n / 10);
      assert NatToString(n)[0] == NatToString(n / 10)[0];
    }
  }

  /** Reading back the decimal spelling gives the number. */
  lemma {:induction false} ParseNatToString(n: nat)
    ensures ParseNat(NatToString(n)) == n
    decreases n
  {
    if n >= 10 {
      var s := NatToString(n);
      assert s[..|s| - 1] == NatToString(n / 10);
      ParseNatToString(n / 10);
    }
  }

  lemma {:induction false} ParseNatPrefixBound(s: string)
    requires AllDigits(s) && |s| > 0 && s[0] != '0'
    ensures ParseNat(s) > 0
    decreases |s|
  {
    if |s| > 1 {
      ParseNatPrefixBound(s[..|s| - 1]);
    }
  }

  /** A canonical numeral is the decimal spelling of its own value. */
  lemma {:induction false} CanonicalRoundTrip(s: string)
    requires IsCanonicalUint(s)
    ensures NatToString(ParseNat(s)) == s
    decreases |s|
  {
    if s == "0" {
    } else if |s| == 1 {
    } else {
      var p := s[..|s| - 1];
      assert IsCanonicalUint(p);
      CanonicalRoundTrip(p);
      ParseNatPrefixBound(p);
      var n := ParseNat(s);
      assert n / 10 == ParseNat(p) && n % 10 == DigitValue(s[|s| - 1]);
      assert n >= 10;
    }
  }

  /** Distinct canonical numerals denote distinct numbers. */
  lemma CanonicalInjective(a: string, b: string)
    requires IsCanonicalUint(a) && IsCanonicalUint(b) && a != b
    ensures ParseNat(a) != ParseNat(b)
  {
    CanonicalRoundTrip(a);
    CanonicalRoundTrip(b);
  }

  // ---------------------------------------------------------------------
  // Property keys and property access

  /** A property key that addresses an array element. (The 2^32 - 1 bound
      on array indices is not modelled.) */
  predicate IsArrayIndex(k: string) {
    IsCanonicalUint(k)
  }

  /** ToPropertyKey (that is, ToString) of a value used as a path segment. */
  function ToKey(v: JVal): string
    decreases v, 1
  {
    match v
    case Undef => "undefined"
    case Null => "null"
    case Bool(b) => if b then "true" else "false"
    case Num(n) => IntToString(n)
    case Str(s) => s
    case Obj(_) => "[object Object]"
    case Arr(es, _) => if |es| == 0 then "" else JoinElements(v, 0)
  }

  /** `Array.prototype.join(",")` from element `i` on: nullish elements
      become empty strings. */
  function JoinElements(a: JVal, i: nat): string
    requires a.Arr? && i < |a.elems|
    decreases a, 0, |a.elems| - i
  {
    var e := a.elems[i];
    var head := if IsNullish(e) then "" else ToKey(e);
    if i + 1 == |a.elems| then head else head + "," + JoinElements(a, i + 1)
  }

  /** `v[k]` for a value that is not null or undefined (callers throw for
      those). Primitives expose no properties in this model. */
  function Prop(v: JVal, k: string): JVal {
    match v
    case Obj(m) => if k in m then m[k] else Undef
    case Arr(es, ex) =>
      if IsArrayIndex(k) then
        var i := ParseNat(k);
        if i < |es| then es[i] else Undef
      else if k in ex then ex[k] else Undef
    case _ => Undef
  }

  /** `es[i] = x` on the element list, padding with undefined. */
  function SetIndex(es: seq<JVal>, i: nat, x: JVal): (r: seq<JVal>)
    ensures |r| == if i < |es| then |es| else i + 1
    ensures r[i] == x
    ensures forall j :: 0 <= j < |r| && j != i ==> r[j] == if j < |es| then es[j] else Undef
  {
    if i < |es| then es[i := x] else es + seq(i - |es|, _ => Undef) + [x]
  }

  /** `v[k] = x`. A write to a primitive is silently dropped (non-strict
      code); callers throw for null and undefined. */
  function Put(v: JVal, k: string, x: JVal): JVal {
    match v
    case Obj(m) => Obj(m[k := x])
    case Arr(es, ex) =>
      if IsArrayIndex(k) then Arr(SetIndex(es, ParseNat(k), x), ex) else Arr(es, ex[k := x])
    case _ => v
  }

  /** A write to an object is read back. */
  lemma PropPut(v: JVal, k: string, x: JVal)
    requires IsObject(v)
    ensures IsObject(Put(v, k, x))
    ensures Prop(Put(v, k, x), k) == x
  {
  }

  /** A write leaves every other property as it was. */
  lemma PropPutOther(v: JVal, k: string, k': string, x: JVal)
    requires k != k'
    ensures Prop(Put(v, k, x), k') == Prop(v, k')
  {
    if v.Arr? && IsArrayIndex(k) && IsArrayIndex(k') {
      CanonicalInjective(k, k');
    }
  }

  /** Writing back the value just read changes nothing. */
  lemma PutSame(v: JVal, k: string)
    requires IsObject(v) && Prop(v, k) != Undef
    ensures Put(v, k, Prop(v, k)) == v
  {
    match v
    case Obj(m) =>
      assert m[k := m[k]] == m;
    case Arr(es, ex) =>
      if !IsArrayIndex(k) {
        assert ex[k := ex[k]] == ex;
      }
  }

  // ---------------------------------------------------------------------
  // Key paths

  /** Plain nested lookup along a key path (no reference following). */
  function Lookup(v: JVal, keys: seq<string>): JVal
    decreases |keys|
  {
    if |keys| == 0 then v else Lookup(Prop(v, keys[0]), keys[1..])
  }

  /** Plain nested replacement along a key path. */
  function Update(v: JVal, keys: seq<string>, x: JVal): JVal
    decreases |keys|
  {
    if |keys| == 0 then x else Put(v, keys[0], Update(Prop(v, keys[0]), keys[1..], x))
  }

  /** Every container strictly above the end of `keys` is an object. */
  predicate ObjectsAlong(v: JVal, keys: seq<string>)
    decreases |keys|
  {
    |keys| == 0 || (IsObject(v) && ObjectsAlong(Prop(v, keys[0]), keys[1..]))
  }

  lemma {:induction false} LookupAppend(v: JVal, a: seq<string>, b: seq<string>)
    ensures Lookup(v, a + b) == Lookup(Lookup(v, a), b)
    decreases |a|
  {
    if |a| > 0 {
      assert (a + b)[0] == a[0];
      assert (a + b)[1..] == a[1..] + b;
      LookupAppend(Prop(v, a[0]), a[1..], b);
    } else {
      assert a + b == b;
    }
  }

  lemma {:induction false} LookupOfNonObject(v: JVal, keys: seq<string>)
    requires !IsObject(v) && |keys| > 0
    ensures Lookup(v, keys) == Undef
    decreases |keys|
  {
    if |keys| > 1 {
      LookupOfNonObject(Prop(v, keys[0]), keys[1..]);
    }
  }

  /** Finding an object at the end of a path means every container on the
      way is an object. */
  lemma {:induction false} ObjectsAlongFromLookup(v: JVal, keys: seq<string>)
    requires IsObject(Lookup(v, keys))
    ensures ObjectsAlong(v, keys)
    decreases |keys|
  {
    if |keys| > 0 {
      if !IsObject(v) {
        LookupOfNonObject(v, keys);
      }
      ObjectsAlongFromLookup(Prop(v, keys[0]), keys[1..]);
    }
  }

  lemma {:induction false} ObjectsAlongPrefix(v: JVal, keys: seq<string>, more: seq<string>)
    requires ObjectsAlong(v, keys + more)
    ensures ObjectsAlong(v, keys)
    decreases |keys|
  {
    if |keys| > 0 {
      assert (keys + more)[1..] == keys[1..] + more;
      ObjectsAlongPrefix(Prop(v, keys[0]), keys[1..], more);
    }
  }

  /** A replacement along a path of objects is read back. */
  lemma {:induction false} LookupUpdate(v: JVal, keys: seq<string>, x: JVal)
    requires ObjectsAlong(v, keys)
    ensures Lookup(Update(v, keys, x), keys) == x
    ensures |keys| > 0 ==> IsObject(Update(v, keys, x))
    decreases |keys|
  {
    if |keys| > 0 {
      LookupUpdate(Prop(v, keys[0]), keys[1..], x);
      PropPut(v, keys[0], Update(Prop(v, keys[0]), keys[1..], x));
    }
  }

  /** Replacing a value by itself changes nothing. */
  lemma {:induction false} UpdateSame(v: JVal, keys: seq<string>)
    requires ObjectsAlong(v, keys) && Lookup(v, keys) != Undef
    ensures Update(v, keys, Lookup(v, keys)) == v
    decreases |keys|
  {
    if |keys| > 0 {
      var c := Prop(v, keys[0]);
      UpdateSame(c, keys[1..]);
      PutSame(v, keys[0]);
    }
  }

  /** Two paths diverge when neither is a prefix of the other. */
  predicate Diverge(a: seq<string>, b: seq<string>) {
    exists i :: 0 <= i < |a| && i < |b| && a[..i] == b[..i] && a[i] != b[i]
  }

  /** A replacement at one path leaves every diverging path untouched. */
  lemma {:induction false} LookupUpdateDiverge(v: JVal, keys: seq<string>, other: seq<string>, x: JVal)
    requires Diverge(keys, other)
    ensures Lookup(Update(v, keys, x), other) == Lookup(v, other)
    decreases |keys|
  {
    var i :| 0 <= i < |keys| && i < |other| && keys[..i] == other[..i] && keys[i] != other[i];
    var c := Update(Prop(v, keys[0]), keys[1..], x);
    if i == 0 {
      PropPutOther(v, keys[0], other[0], c);
    } else {
      assert keys[0] == keys[..i][0] == other[..i][0] == other[0];
      assert keys[1..][..i - 1] == keys[..i][1..] == other[..i][1..] == other[1..][..i - 1];
      assert Diverge(keys[1..], other[1..]) by {
        assert keys[1..][i - 1] != other[1..][i - 1];
      }
      LookupUpdateDiverge(Prop(v, keys[0]), keys[1..], other[1..], x);
      if IsObject(v) {
        PropPut(v, keys[0], c);
      } else {
        assert Put(v, keys[0], c) == v;
      }
    }
  }

  // ---------------------------------------------------------------------
  // JSON clone

  /** `JSON.parse(JSON.stringify(v))` for a value that is not undefined:
      undefined array elements become null, undefined-valued properties and
      non-index array properties disappear. */
  function JsonClone(v: JVal): (r: JVal)
    requires v != Undef
    ensures r != Undef
    ensures v.Arr? <==> r.Arr?
    ensures v.Arr? ==> |r.elems| == |v.elems| && r.extra == map[]
    decreases v
  {
    match v
    case Obj(m) => Obj(map k | k in m && m[k] != Undef :: JsonClone(m[k]))
    case Arr(es, _) => Arr(CloneElements(v, 0), map[])
    case _ => v
  }

  /** The clones of the elements of `a` from `i` on. */
  function CloneElements(a: JVal, i: nat): (r: seq<JVal>)
    requires a.Arr? && i <= |a.elems|
    ensures |r| == |a.elems| - i
    decreases a, |a.elems| - i
  {
    if i == |a.elems| then []
    else [if a.elems[i] == Undef then Null else JsonClone(a.elems[i])] + CloneElements(a, i + 1)
  }

  /** Cloning keeps plain data (no undefined anywhere) unchanged. */
  ghost predicate IsPlainData(v: JVal)
    decreases v
  {
    match v
    case Undef => false
    case Obj(m) => forall k :: k in m ==> IsPlainData(m[k])
    case Arr(es, ex) => ex == map[] && forall i :: 0 <= i < |es| ==> IsPlainData(es[i])
    case _ => true
  }

  lemma {:induction false} JsonCloneOfPlainData(v: JVal)
    requires IsPlainData(v)
    ensures JsonClone(v) == v
    decreases v
  {
    match v
    case Obj(m) =>
      forall k | k in m
        ensures JsonClone(m[k]) == m[k]
      {
        JsonCloneOfPlainData(m[k]);
      }
      var m' := map k | k in m && m[k] != Undef :: JsonClone(m[k]);
      assert m' == m;
    case Arr(es, ex) =>
      assert es[0..] == es;
      forall i | 0 <= i < |es|
        ensures JsonClone(es[i]) == es[i]
      {
        JsonCloneOfPlainData(es[i]);
      }
      CloneElementsOfPlainData(v, 0);
    case _ =>
  }

  lemma {:induction false} CloneElementsOfPlainData(a: JVal, i: nat)
    requires a.Arr? && i <= |a.elems|
    requires forall j :: 0 <= j < |a.elems| ==> JsonClone.requires(a.elems[j]) && JsonClone(a.elems[j]) == a.elems[j]
    requires forall j :: 0 <= j < |a.elems| ==> a.elems[j] != Undef
    ensures CloneElements(a, i) == a.elems[i..]
    decreases |a.elems| - i
  {
    if i < |a.elems| {
      CloneElementsOfPlainData(a, i + 1);
    }
  }
}
