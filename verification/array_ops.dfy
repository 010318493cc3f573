/**
  The `Array.prototype` operations the array bindings perform on the bound
  element list: `push`, `indexOf`, `splice` (with its clamping of the start
  and the delete count), the binding's own `splice` wrapper that inserts
  its one extra argument only when that argument is truthy, and the three
  ways the bindings move an element.
 */
module JsArray {
  import opened JsValue

  /** Where `splice` starts: a negative start counts back from the end, and
      the result is clamped to `[0, len]`. */
  function StartIndex(k: int, len: nat): (r: nat)
    ensures r <= len
    ensures 0 <= k ==> r == (if k < len then k else len)
    ensures k < 0 ==> r + (-k) == len || (r == 0 && -k >= len)
  {
    if k < 0 then (if len + k < 0 then 0 else len + k) else if k > len then len else k
  }

  /** How many elements `splice` removes: the count clamped to what lies
      after the start. */
  function DeleteCount(count: int, room: nat): (r: nat)
    ensures r <= room
    ensures 0 <= count <= room ==> r == count
    ensures count < 0 ==> r == 0
    ensures count > room ==> r == room
  {
    if count < 0 then 0 else if count > room then room else count
  }

  datatype Spliced = Spliced(removed: seq<JVal>, result: seq<JVal>)

  /** `es.splice(start, deleteCount, ...ins)`: the elements removed, and the
      array afterwards. The removed run is cut out where it stood, the
      inserted elements take its place, and the start and count are those
      clamped by `StartIndex` and `DeleteCount`. */
  function Splice(es: seq<JVal>, start: int, deleteCount: int, ins: seq<JVal>): (r: Spliced)
    ensures var s := StartIndex(start, |es|);
            var d := |r.removed|;
            d == DeleteCount(deleteCount, |es| - s) &&
            r.removed == es[s..s + d] &&
            r.result == es[..s] + ins + es[s + d..]
  {
    var s := StartIndex(start, |es|);
    var d := DeleteCount(deleteCount, |es| - s);
    Spliced(es[s..s + d], es[..s] + ins + es[s + d..])
  }

  /** Where every element ends up: the removed run is the `d` elements
      from the clamped start, the elements before the start keep their
      places, the inserted ones follow in order, and the elements after the
      removed run follow them, shifted by `|ins| - d`. */
  lemma SplicePlaces(es: seq<JVal>, start: int, deleteCount: int, ins: seq<JVal>)
    ensures var r := Splice(es, start, deleteCount, ins);
            var d := DeleteCount(deleteCount, |es| - StartIndex(start, |es|));
            |r.removed| == d && |r.result| == |es| - d + |ins|
    ensures var r := Splice(es, start, deleteCount, ins);
            forall i :: 0 <= i < |r.removed| ==> r.removed[i] == es[StartIndex(start, |es|) + i]
    ensures var r := Splice(es, start, deleteCount, ins);
            forall i :: 0 <= i < StartIndex(start, |es|) ==> r.result[i] == es[i]
    ensures var r := Splice(es, start, deleteCount, ins);
            forall j :: 0 <= j < |ins| ==> r.result[StartIndex(start, |es|) + j] == ins[j]
    ensures var r := Splice(es, start, deleteCount, ins);
            forall i :: StartIndex(start, |es|) + |r.removed| <= i < |es| ==>
              r.result[i - |r.removed| + |ins|] == es[i]
  {
  }

  /** Nothing is lost or invented: what remains plus what was removed is
      what was there plus what was inserted. */
  lemma SpliceConserves(es: seq<JVal>, start: int, deleteCount: int, ins: seq<JVal>)
    ensures var r := Splice(es, start, deleteCount, ins);
            multiset(r.result) + multiset(r.removed) == multiset(es) + multiset(ins) &&
            |r.result| + |r.removed| == |es| + |ins|
  {
    var r := Splice(es, start, deleteCount, ins);
    var s := StartIndex(start, |es|);
    var d := |r.removed|;
    var head, tail := es[..s], es[s + d..];
    assert es == head + r.removed + tail;
    assert multiset(es) == multiset(head) + multiset(r.removed) + multiset(tail);
    assert r.result == head + ins + tail;
    assert multiset(r.result) == multiset(head) + multiset(ins) + multiset(tail);
  }

  /** Splicing the removed run back over the inserted one restores the
      original array. */
  lemma SpliceUndo(es: seq<JVal>, start: int, deleteCount: int, ins: seq<JVal>)
    ensures var r := Splice(es, start, deleteCount, ins);
            Splice(r.result, StartIndex(start, |es|), |ins|, r.removed) == Spliced(ins, es)
  {
    var r := Splice(es, start, deleteCount, ins);
    var s := StartIndex(start, |es|);
    var d := |r.removed|;
    var mid := r.result;
    assert mid[..s] == es[..s];
    assert mid[s..s + |ins|] == ins;
    assert mid[s + |ins|..] == es[s + d..];
    assert es == es[..s] + r.removed + es[s + d..];
  }

  /** The bound array's `splice(start, deleteCount, elementsToAdd)`: the
      third argument is inserted as one element, and only when it is
      truthy. */
  function SpliceIfTruthy(es: seq<JVal>, start: int, deleteCount: int, elementsToAdd: JVal): (r: Spliced)
    ensures r.removed == Splice(es, start, deleteCount, []).removed
    ensures Truthy(elementsToAdd) ==>
              |r.result| == |es| - |r.removed| + 1 && r.result[StartIndex(start, |es|)] == elementsToAdd
    ensures !Truthy(elementsToAdd) ==> |r.result| == |es| - |r.removed|
  {
    Splice(es, start, deleteCount, if Truthy(elementsToAdd) then [elementsToAdd] else [])
  }

  /** A falsy element (`0`, `""`, `false`, `null`, `undefined`) handed to
      the bound `splice` is silently not inserted: the array only shrinks. */
  lemma FalsyIsNotInserted(es: seq<JVal>, start: int, deleteCount: int, e: JVal)
    requires !Truthy(e)
    ensures |SpliceIfTruthy(es, start, deleteCount, e).result| <= |es|
    ensures multiset(SpliceIfTruthy(es, start, deleteCount, e).result) <= multiset(es)
  {
    var r := Splice(es, start, deleteCount, []);
    assert SpliceIfTruthy(es, start, deleteCount, e) == r;
    SpliceConserves(es, start, deleteCount, []);
    assert multiset(r.result) <= multiset(r.result) + multiset(r.removed);
  }

  /** Cutting out the one element at a start inside the array. */
  lemma CutOut(es: seq<JVal>, x: int)
    requires StartIndex(x, |es|) < |es|
    ensures var s := StartIndex(x, |es|);
            Splice(es, x, 1, []) == Spliced([es[s]], es[..s] + es[s + 1..]) &&
            multiset(es[..s] + es[s + 1..]) + multiset{es[s]} == multiset(es)
  {
    var s := StartIndex(x, |es|);
    assert es == es[..s] + [es[s]] + es[s + 1..];
  }

  /** Inserting one element without deleting any. */
  lemma PutIn(rest: seq<JVal>, y: int, e: JVal)
    ensures var t := StartIndex(y, |rest|);
            var r := Splice(rest, y, 0, [e]).result;
            |r| == |rest| + 1 && r[t] == e && r[..t] + r[t + 1..] == rest &&
            multiset(r) == multiset(rest) + multiset{e}
  {
    var t := StartIndex(y, |rest|);
    var r := rest[..t] + [e] + rest[t..];
    assert r[..t] == rest[..t];
    assert r[t + 1..] == rest[t..];
    assert rest == rest[..t] + rest[t..];
  }

  /** Splicing nothing out and nothing in changes nothing. */
  lemma SpliceNothing(es: seq<JVal>, y: int)
    ensures Splice(es, y, 0, []).result == es
  {
    var t := StartIndex(y, |es|);
    assert es == es[..t] + es[t..];
  }

  /** `es.indexOf(x)`: the first position holding `x`, or -1. Strict
      equality is approximated by equality of values. */
  function IndexOf(es: seq<JVal>, x: JVal): (r: int)
    ensures -1 <= r < |es|
    ensures r == -1 <==> x !in es
    ensures r >= 0 ==> es[r] == x && x !in es[..r]
    decreases |es|
  {
    if |es| == 0 then -1
    else if es[0] == x then 0
    else
      var i := IndexOf(es[1..], x);
      assert x in es[1..] ==> x in es;
      assert x in es && es[0] != x ==> x in es[1..];
      if i == -1 then -1
      else
        assert es[..i + 1] == [es[0]] + es[1..][..i];
        i + 1
  }

  /** `remove`: the array without the first occurrence of the item, or
      `None` when the item is absent (nothing happens). */
  function RemoveFirst(es: seq<JVal>, x: JVal): (r: Option<seq<JVal>>)
    ensures r.None? <==> x !in es
    ensures r.Some? ==> |r.value| == |es| - 1 && multiset(r.value) + multiset{x} == multiset(es)
    ensures r.Some? ==> exists i :: 0 <= i < |es| && es[i] == x && x !in es[..i] && r.value == es[..i] + es[i + 1..]
  {
    var i := IndexOf(es, x);
    if i == -1 then None
    else
      CutOut(es, i);
      Some(Splice(es, i, 1, []).result)
  }

  /** Whether text `t` occurs in `s` (`s.indexOf(t) !== -1`). */
  predicate Occurs(t: string, s: string) {
    exists i :: 0 <= i <= |s| && t <= s[i..]
  }

  /** `items.indexOf(x)` and, when found, `items.splice(index, 1)` on a
      defined value: the array without the item, or `None` when there is
      nothing to remove. Of the other values only a string has `indexOf`
      (it searches for the text of `x`) and none has `splice`, so they
      throw unless the search misses. */
  function RemoveItem(v: JVal, x: JVal): (r: Res<Option<seq<JVal>>>)
    requires v != Undef
    ensures v.Arr? ==> r == Ok(RemoveFirst(v.elems, x))
    ensures !v.Arr? ==> (r.Ok? <==> v.Str? && !Occurs(ToKey(x), v.s)) && (r.Ok? ==> r.value.None?)
  {
    match v
    case Arr(es, _) => Ok(RemoveFirst(es, x))
    case Str(s) => if Occurs(ToKey(x), s) then Throw(TypeError) else Ok(None)
    case _ => Throw(TypeError)
  }

  /** The element the first half of a move takes out: `splice(x, 1)[0]`,
      undefined when `x` is past the end. */
  function Taken(es: seq<JVal>, x: int): (r: JVal)
    ensures StartIndex(x, |es|) < |es| ==> r == es[StartIndex(x, |es|)]
    ensures StartIndex(x, |es|) == |es| ==> r == Undef
  {
    var first := Splice(es, x, 1, []);
    if |first.removed| > 0 then first.removed[0] else Undef
  }

  /** `move(x, y)` as the bindings write it:
      `this.splice(y, 0, this.splice(x, 1)[0])`, going through the bound
      `splice`, which drops a falsy element. */
  function MoveAsWritten(es: seq<JVal>, x: int, y: int): seq<JVal> {
    var first := Splice(es, x, 1, []);
    SpliceIfTruthy(first.result, y, 0, Taken(es, x)).result
  }

  /** `move(x, y)` as evidently intended: the element at `x` is taken out
      and put back in at `y` (both clamped as `splice` clamps them). A start
      past the end moves nothing. */
  function MoveItem(es: seq<JVal>, x: int, y: int): (r: seq<JVal>)
    ensures |r| == |es|
  {
    var first := Splice(es, x, 1, []);
    if |first.removed| == 0 then es
    else
      CutOut(es, x);
      PutIn(first.result, y, first.removed[0]);
      assert first.removed == [first.removed[0]];
      Splice(first.result, y, 0, first.removed).result
  }

  /** A move loses and invents nothing; the moved element lands at the
      target, and the others keep their order. */
  lemma MoveItemPlaces(es: seq<JVal>, x: int, y: int)
    ensures multiset(MoveItem(es, x, y)) == multiset(es)
    ensures var r := MoveItem(es, x, y);
            var s := StartIndex(x, |es|);
            s < |es| ==>
              var t := StartIndex(y, |es| - 1);
              t < |r| && r[t] == es[s] && r[..t] + r[t + 1..] == es[..s] + es[s + 1..]
  {
    var s := StartIndex(x, |es|);
    if s < |es| {
      var rest := es[..s] + es[s + 1..];
      var t := StartIndex(y, |es| - 1);
      MoveItemInserts(es, x, y);
      Inserted(rest, t, es[s]);
      CutOut(es, x);
    } else {
      MoveItemUnfolds(es, x, y);
    }
  }

  /** Inserting `e` at `t` and taking it out again. */
  lemma Inserted(rest: seq<JVal>, t: nat, e: JVal)
    requires t <= |rest|
    ensures var r := rest[..t] + [e] + rest[t..];
            t < |r| && r[t] == e && r[..t] + r[t + 1..] == rest &&
            multiset(r) == multiset(rest) + multiset{e}
  {
    var r := rest[..t] + [e] + rest[t..];
    assert r[..t] == rest[..t];
    assert r[t + 1..] == rest[t..];
    assert rest == rest[..t] + rest[t..];
  }

  /** A move inside the array is the element inserted at the clamped
      target of what remains. */
  lemma MoveItemInserts(es: seq<JVal>, x: int, y: int)
    requires StartIndex(x, |es|) < |es|
    ensures var s := StartIndex(x, |es|);
            var rest := es[..s] + es[s + 1..];
            var t := StartIndex(y, |es| - 1);
            t <= |rest| && MoveItem(es, x, y) == rest[..t] + [es[s]] + rest[t..]
  {
    var s := StartIndex(x, |es|);
    var rest := es[..s] + es[s + 1..];
    MoveItemUnfolds(es, x, y);
    assert |rest| == |es| - 1;
  }

  lemma MoveItemUnfolds(es: seq<JVal>, x: int, y: int)
    ensures var s := StartIndex(x, |es|);
            s < |es| ==> MoveItem(es, x, y) == Splice(es[..s] + es[s + 1..], y, 0, [es[s]]).result
    ensures StartIndex(x, |es|) == |es| ==> MoveItem(es, x, y) == es
  {
    if StartIndex(x, |es|) < |es| {
      CutOut(es, x);
    }
  }

  /** `move(x, y)` of the later revision's root array binding, on the JSON
      copy: the native `splice` always inserts what was taken, even
      `undefined` when `x` is past the end. */
  function MoveAlwaysInserting(es: seq<JVal>, x: int, y: int): (r: seq<JVal>)
    ensures StartIndex(x, |es|) < |es| ==> r == MoveItem(es, x, y)
    ensures StartIndex(x, |es|) == |es| ==> |r| == |es| + 1 && r[StartIndex(y, |es|)] == Undef
  {
    var first := Splice(es, x, 1, []);
    PutIn(first.result, y, Taken(es, x));
    if StartIndex(x, |es|) < |es| then
      CutOut(es, x);
      Splice(first.result, y, 0, [Taken(es, x)]).result
    else
      Splice(first.result, y, 0, [Taken(es, x)]).result
  }

  /** The bound `move` agrees with the intended one exactly when the moved
      element is truthy; a falsy element is lost. */
  lemma MoveAsWrittenLosesFalsy(es: seq<JVal>, x: int, y: int)
    requires StartIndex(x, |es|) < |es|
    ensures Truthy(Taken(es, x)) ==> MoveAsWritten(es, x, y) == MoveItem(es, x, y)
    ensures !Truthy(Taken(es, x)) ==> |MoveAsWritten(es, x, y)| == |es| - 1
    ensures !Truthy(Taken(es, x)) ==>
              multiset(MoveAsWritten(es, x, y)) + multiset{Taken(es, x)} == multiset(es)
  {
    CutOut(es, x);
    var first := Splice(es, x, 1, []);
    if !Truthy(Taken(es, x)) {
      SpliceNothing(first.result, y);
    }
  }

  /** Moving the number `0` to the back of `[0, 1]` loses it. */
  lemma MoveZeroLost()
    ensures MoveAsWritten([Num(0), Num(1)], 0, 1) == [Num(1)]
    ensures MoveItem([Num(0), Num(1)], 0, 1) == [Num(1), Num(0)]
  {
    var es := [Num(0), Num(1)];
    assert Splice(es, 0, 1, []).result == [Num(1)];
    assert Taken(es, 0) == Num(0);
    assert Splice([Num(1)], 1, 0, [Num(0)]).result == [Num(1), Num(0)];
  }

  /** One step: `[A, B, C]` with `A` moved to 1 and `[B, A, C]` with `A`
      moved to 2. */
  lemma MoveStep(a: seq<JVal>, x: nat, y: nat, b: seq<JVal>)
    requires x < |a| && y < |a|
    requires b == (a[..x] + a[x + 1..])[..y] + [a[x]] + (a[..x] + a[x + 1..])[y..]
    ensures MoveItem(a, x, y) == b
  {
    CutOut(a, x);
    var rest := a[..x] + a[x + 1..];
    assert StartIndex(y, |rest|) == y;
    assert Splice(rest, y, 0, [a[x]]).result == b;
  }

  /** Two successive moves of string items rotate them. */
  lemma MoveRotates()
    ensures MoveItem(MoveItem([Str("A"), Str("B"), Str("C")], 0, 1), 1, 2) == [Str("B"), Str("C"), Str("A")]
  {
    RotateSteps();
  }

  lemma RotateSteps()
    ensures MoveItem([Str("A"), Str("B"), Str("C")], 0, 1) == [Str("B"), Str("A"), Str("C")]
    ensures MoveItem([Str("B"), Str("A"), Str("C")], 1, 2) == [Str("B"), Str("C"), Str("A")]
  {
    FirstToMiddle([Str("A"), Str("B"), Str("C")], [Str("B"), Str("A"), Str("C")]);
    MiddleToLast([Str("B"), Str("A"), Str("C")], [Str("B"), Str("C"), Str("A")]);
  }

  lemma FirstToMiddle(a: seq<JVal>, b: seq<JVal>)
    requires |a| == 3 && b == [a[1], a[0], a[2]]
    ensures MoveItem(a, 0, 1) == b
  {
    var rest := a[..0] + a[1..];
    assert rest == [a[1], a[2]];
    assert rest[..1] + [a[0]] + rest[1..] == b;
    MoveStep(a, 0, 1, b);
  }

  lemma MiddleToLast(a: seq<JVal>, b: seq<JVal>)
    requires |a| == 3 && b == [a[0], a[2], a[1]]
    ensures MoveItem(a, 1, 2) == b
  {
    var rest := a[..1] + a[2..];
    assert rest == [a[0], a[2]];
    assert rest[..2] + [a[1]] + rest[2..] == b;
    MoveStep(a, 1, 2, b);
  }

  /** The bound `move` rotates them the same way, strings being truthy. */
  lemma MoveAsWrittenRotates()
    ensures MoveAsWritten(MoveAsWritten([Str("A"), Str("B"), Str("C")], 0, 1), 1, 2) == [Str("B"), Str("C"), Str("A")]
  {
    var a := [Str("A"), Str("B"), Str("C")];
    var b := [Str("B"), Str("A"), Str("C")];
    assert Truthy(Taken(a, 0)) && Truthy(Taken(b, 1));
    MoveAsWrittenLosesFalsy(a, 0, 1);
    MoveAsWrittenLosesFalsy(b, 1, 2);
    RotateSteps();
  }

  /** Moving an element to where it already is changes nothing; the bound
      `move` agrees for a truthy element and deletes a falsy one. */
  lemma MoveInPlace(es: seq<JVal>, x: nat)
    requires x < |es|
    ensures MoveItem(es, x, x) == es
    ensures Truthy(es[x]) ==> MoveAsWritten(es, x, x) == es
    ensures !Truthy(es[x]) ==> MoveAsWritten(es, x, x) == es[..x] + es[x + 1..]
  {
    IntendedMoveInPlace(es, x);
    MoveAsWrittenCases(es, x, x);
  }

  lemma IntendedMoveInPlace(es: seq<JVal>, x: nat)
    requires x < |es|
    ensures MoveItem(es, x, x) == es
  {
    var rest := es[..x] + es[x + 1..];
    assert rest[..x] == es[..x];
    assert rest[x..] == es[x + 1..];
    assert es == es[..x] + [es[x]] + es[x + 1..];
    MoveStep(es, x, x, es);
  }

  /** The bound `move` of an element inside the array, by the element's
      truthiness: the intended move, or the element cut out. */
  lemma MoveAsWrittenCases(es: seq<JVal>, x: int, y: int)
    requires StartIndex(x, |es|) < |es|
    ensures var s := StartIndex(x, |es|);
            Truthy(es[s]) ==> MoveAsWritten(es, x, y) == MoveItem(es, x, y)
    ensures var s := StartIndex(x, |es|);
            !Truthy(es[s]) ==> MoveAsWritten(es, x, y) == es[..s] + es[s + 1..]
  {
    if Truthy(es[StartIndex(x, |es|)]) {
      MoveAsWrittenLosesFalsy(es, x, y);
    } else {
      MoveAsWrittenDropsFalsy(es, x, y);
    }
  }

  /** Moved by the bound `move`, a falsy element is simply cut out: the
      rest keep their order. */
  lemma MoveAsWrittenDropsFalsy(es: seq<JVal>, x: int, y: int)
    requires StartIndex(x, |es|) < |es| && !Truthy(es[StartIndex(x, |es|)])
    ensures var s := StartIndex(x, |es|);
            MoveAsWritten(es, x, y) == es[..s] + es[s + 1..]
  {
    var s := StartIndex(x, |es|);
    var rest := es[..s] + es[s + 1..];
    CutOut(es, x);
    assert Taken(es, x) == es[s];
    assert SpliceIfTruthy(rest, y, 0, es[s]).result == Splice(rest, y, 0, []).result;
    SpliceNothing(rest, y);
  }
}
