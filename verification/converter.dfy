/**
  Value converters: a user object with optional `format(value, parameter)`
  and `parse(value, parameter)` functions, or a `CurryConverter` that
  appends one fixed trailing parameter to every call of another converter.

  The user's functions are not part of the model; they are named by a
  number and their behaviour is a parameter `impl` of every call, so every
  statement here holds for all converter functions at once.
 */
module Converters {
  import opened JsValue

  /** The user's converter functions: `impl(f, value, parameter)` is what
      function `f` returns. */
  type Impl = (nat, JVal, JVal) -> JVal

  datatype Converter =
    | Functions(format: Option<nat>, parse: Option<nat>)
    | Curry(inner: Converter, args: JVal)

  datatype Direction = Format | Parse

  function Pick(c: Converter, dir: Direction): Option<nat>
    requires c.Functions?
  {
    if dir == Format then c.format else c.parse
  }

  /** `converter.format(value)` or `converter.parse(value)`.

      - A user converter is called with the value alone, so its parameter
        is undefined; a missing function cannot be called (TypeError).
      - A curried converter calls the inner converter's function with the
        value and the fixed parameter. The inner function runs with `this`
        bound to the curried converter, so an inner curried converter
        calls its own outer converter again, forever (RangeError).
   */
  function Convert(impl: Impl, c: Converter, dir: Direction, v: JVal): (r: Res<JVal>)
    ensures r.Ok? <==> (c.Functions? && Pick(c, dir).Some?) ||
                       (c.Curry? && c.inner.Functions? && Pick(c.inner, dir).Some?)
    ensures c.Curry? && c.inner.Curry? ==> r == Throw(RangeError)
  {
    match c
    case Functions(_, _) =>
      if Pick(c, dir).None? then Throw(TypeError) else Ok(impl(Pick(c, dir).value, v, Undef))
    case Curry(inner, args) =>
      if inner.Curry? then Throw(RangeError)
      else if Pick(inner, dir).None? then Throw(TypeError)
      else Ok(impl(Pick(inner, dir).value, v, args))
  }

  /** What a binding does with an optional converter: without one the value
      passes unchanged. */
  function Apply(impl: Impl, c: Option<Converter>, dir: Direction, v: JVal): (r: Res<JVal>)
    ensures c.None? ==> r == Ok(v)
    ensures c.Some? ==> r == Convert(impl, c.value, dir, v)
  {
    match c
    case None => Ok(v)
    case Some(conv) => Convert(impl, conv, dir, v)
  }

  /** The binder's `converterParams !== undefined ? new CurryConverter(
      converter, converterParams) : converter`. Currying a missing
      converter reads `format` of undefined and throws. */
  function CurryOrPass(c: Option<Converter>, params: JVal): (r: Res<Option<Converter>>)
    ensures params == Undef ==> r == Ok(c)
    ensures params != Undef ==> (r.Ok? <==> c.Some?)
  {
    if params == Undef then Ok(c)
    else if c.None? then Throw(TypeError)
    else Ok(Some(Curry(c.value, params)))
  }

  /** A curried converter hands its parameter to the inner functions as
      their last argument, in both directions. */
  lemma CurryAppendsParameter(impl: Impl, c: Converter, params: JVal, dir: Direction, v: JVal)
    requires c.Functions? && Pick(c, dir).Some? && params != Undef
    ensures CurryOrPass(Some(c), params).Ok?
    ensures Apply(impl, CurryOrPass(Some(c), params).value, dir, v) == Ok(impl(Pick(c, dir).value, v, params))
    ensures Apply(impl, Some(c), dir, v) == Ok(impl(Pick(c, dir).value, v, Undef))
  {
  }

  /** Currying with an undefined parameter would change nothing, which is
      why the binder need not curry then: either way the inner functions
      see an undefined parameter. */
  lemma CurryUndefinedIsBare(impl: Impl, c: Converter, dir: Direction, v: JVal)
    requires c.Functions?
    ensures Convert(impl, Curry(c, Undef), dir, v) == Convert(impl, c, dir, v)
  {
  }

  /** When the user's functions are inverse for a parameter, the curried
      converter parses back what it formats. */
  lemma CurriedRoundTrip(impl: Impl, c: Converter, params: JVal, v: JVal)
    requires c.Functions? && c.format.Some? && c.parse.Some?
    requires impl(c.parse.value, impl(c.format.value, v, params), params) == v
    ensures var k := Curry(c, params);
            Convert(impl, k, Format, v).Ok? &&
            Convert(impl, k, Parse, Convert(impl, k, Format, v).value) == Ok(v)
  {
  }

  /** A curried converter wrapped again cannot be called at all. */
  lemma DoubleCurryOverflows(impl: Impl, c: Converter, a: JVal, b: JVal, dir: Direction, v: JVal)
    requires a != Undef && b != Undef
    ensures CurryOrPass(Some(c), a).Ok?
    ensures CurryOrPass(CurryOrPass(Some(c), a).value, b).Ok?
    ensures Apply(impl, CurryOrPass(CurryOrPass(Some(c), a).value, b).value, dir, v) == Throw(RangeError)
  {
  }
}
