/**
  The lodash-derived path helpers: `isIndex`, `stringToPath` (a hand-written
  scanner in place of the regular expression it is built on) and `isKey`.
 */
module LodashPath {
  import opened JsValue

  /** Number.MAX_SAFE_INTEGER, the default bound of `isIndex`. */
  const MAX_SAFE_INTEGER: int := 9007199254740991

  // ---------------------------------------------------------------------
  // isIndex

  /** `isIndex(value, length)`: a non-negative integer below `length`
      (default `MAX_SAFE_INTEGER`), given either as a number or as a value
      whose string form is a canonical unsigned numeral. A zero `length`
      rejects everything. */
  function IsIndex(value: JVal, length: Option<int>): bool {
    var len := length.GetOr(MAX_SAFE_INTEGER);
    len != 0 &&
    match value
    case Num(n) => 0 <= n < len
    case _ => IsCanonicalUint(ToKey(value)) && ParseNat(ToKey(value)) < len
  }

  /** `value` spells the natural `n`: as that number, or (when it is not a
      number) through a string form that is the decimal numeral of `n`. */
  predicate Spells(value: JVal, n: nat) {
    value == Num(n) || (!value.Num? && ToKey(value) == NatToString(n))
  }

  /** `isIndex` accepts exactly the naturals below the bound, spelled as a
      number or as their decimal numeral. */
  lemma IsIndexMeaning(value: JVal, length: Option<int>)
    ensures IsIndex(value, length) <==>
      length.GetOr(MAX_SAFE_INTEGER) != 0 &&
      exists n: nat :: n < length.GetOr(MAX_SAFE_INTEGER) && Spells(value, n)
  {
    var len := length.GetOr(MAX_SAFE_INTEGER);
    if IsIndex(value, length) {
      if value.Num? {
        var n: nat := value.n;
        assert Spells(value, n);
      } else {
        var n := ParseNat(ToKey(value));
        CanonicalRoundTrip(ToKey(value));
        assert Spells(value, n);
      }
    }
    if len != 0 && (exists n: nat :: n < len && Spells(value, n)) {
      var n: nat :| n < len && Spells(value, n);
      if !value.Num? {
        NatToStringCanonical(n);
        ParseNatToString(n);
      }
    }
  }

  /** A number and its decimal spelling are indices alike. */
  lemma IsIndexNumberOrString(n: int, length: Option<int>)
    ensures IsIndex(Num(n), length) == IsIndex(Str(IntToString(n)), length)
  {
    if n >= 0 {
      NatToStringCanonical(n);
      ParseNatToString(n);
    } else {
      assert IntToString(n)[0] == '-';
    }
  }

  /** A zero bound rejects everything; a numeral with a leading zero is
      never an index. */
  lemma IsIndexRejects(value: JVal)
    ensures !IsIndex(value, Some(0))
    ensures !IsIndex(Str("01"), None)
  {
  }

  /** With the default bound, a string segment is an index exactly when it
      is an array-index property key below 2^53 - 1. */
  lemma IsIndexOfKey(k: string)
    ensures IsIndex(Str(k), None) <==> IsArrayIndex(k) && ParseNat(k) < MAX_SAFE_INTEGER
  {
  }

  // ---------------------------------------------------------------------
  // The path tokeniser

  /** The characters that delimit property names in a path string. */
  predicate IsPathSpecial(c: char) {
    c == '.' || c == '[' || c == ']'
  }

  /** `.` in a regular expression matches anything but these. */
  predicate IsLineTerminator(c: char) {
    c == '\n' || c == '\r' || c == '\U{2028}' || c == '\U{2029}'
  }

  predicate IsQuote(c: char) {
    c == '"' || c == '\''
  }

  /** A property name as written between dots: no delimiter inside. */
  predicate IsPlainName(n: string) {
    |n| > 0 && forall i :: 0 <= i < |n| ==> !IsPathSpecial(n[i])
  }

  /** Length of the leading run of non-delimiter characters. */
  function RunLength(t: string): (n: nat)
    ensures n <= |t|
    ensures forall i :: 0 <= i < n ==> !IsPathSpecial(t[i])
    ensures n < |t| ==> IsPathSpecial(t[n])
  {
    if |t| == 0 || IsPathSpecial(t[0]) then 0 else 1 + RunLength(t[1..])
  }

  /** Length of the leading run of decimal digits. */
  function DigitRun(t: string): (n: nat)
    ensures n <= |t|
    ensures forall i :: 0 <= i < n ==> IsDigit(t[i])
    ensures n < |t| ==> !IsDigit(t[n])
  {
    if |t| == 0 || !IsDigit(t[0]) then 0 else 1 + DigitRun(t[1..])
  }

  /** The length of a number group `[-?\d+(\.\d+)?]` at the start of `t`. */
  function NumberGroup(t: string): (r: Option<nat>)
    ensures r.Some? ==> 3 <= r.value <= |t| && t[0] == '[' && t[r.value - 1] == ']'
  {
    if |t| < 3 || t[0] != '[' then None
    else
      var i := if t[1] == '-' then 2 else 1;
      var d := DigitRun(t[i..]);
      var j := i + d;
      if d == 0 || j >= |t| then None
      else if t[j] == ']' then Some(j + 1)
      else if t[j] == '.' then
        var f := DigitRun(t[j + 1..]);
        var k := j + 1 + f;
        if f > 0 && k < |t| && t[k] == ']' then Some(k + 1) else None
      else None
  }

  /** From position `i` inside a group opened by quote `q`: the position of
      the closing quote, which must be unescaped and followed by `]`. A
      backslash escapes the next character unless that is a line
      terminator. */
  function QuotedEnd(t: string, q: char, i: nat): (r: Option<nat>)
    requires i <= |t|
    ensures r.Some? ==> i <= r.value && r.value + 1 < |t| && t[r.value] == q && t[r.value + 1] == ']'
    decreases |t| - i
  {
    if i >= |t| then None
    else if t[i] == q then (if i + 1 < |t| && t[i + 1] == ']' then Some(i) else None)
    else if t[i] == '\\' then
      (if i + 1 < |t| && !IsLineTerminator(t[i + 1]) then QuotedEnd(t, q, i + 2) else None)
    else QuotedEnd(t, q, i + 1)
  }

  /** A quoted group `["..."]` or `['...']` at the start of `t`: the index
      of its closing quote. */
  function QuotedGroup(t: string): (r: Option<nat>)
    ensures r.Some? ==> 2 <= r.value && r.value + 1 < |t|
  {
    if |t| < 2 || t[0] != '[' || !IsQuote(t[1]) then None else QuotedEnd(t, t[1], 2)
  }

  /** `.` or `[]` at the start of `t`, and after it `.`, `[]` or the end:
      the place where an empty property name is read. */
  predicate EmptyNameAt(t: string) {
    var n := if |t| > 0 && t[0] == '.' then 1
             else if |t| > 1 && t[0] == '[' && t[1] == ']' then 2
             else 0;
    n > 0 && (|t| == n || t[n] == '.' || (|t| > n + 1 && t[n] == '[' && t[n + 1] == ']'))
  }

  /** The backslash-escape removal applied to a quoted group: `\\` becomes
      `\` and any other backslash disappears. */
  function Unescape(s: string): (r: string)
    ensures |r| <= |s|
  {
    if |s| == 0 then ""
    else if s[0] == '\\' then
      (if |s| > 1 && s[1] == '\\' then "\\" + Unescape(s[2..]) else Unescape(s[1..]))
    else [s[0]] + Unescape(s[1..])
  }

  /** The segments read from `t` by the global property-name search. At
      each position the first alternative that matches wins: a run of
      non-delimiters, a number group, a quoted group, an empty name; when
      none matches the search moves on by one character. */
  function Scan(t: string): (r: seq<string>)
    decreases |t|
  {
    if |t| == 0 then []
    else if !IsPathSpecial(t[0]) then
      var n := RunLength(t);
      [t[..n]] + Scan(t[n..])
    else if NumberGroup(t).Some? then
      var n := NumberGroup(t).value;
      [t[1..n - 1]] + Scan(t[n..])
    else if QuotedGroup(t).Some? then
      var e := QuotedGroup(t).value;
      [Unescape(t[2..e])] + Scan(t[e + 2..])
    else if EmptyNameAt(t) then [""] + Scan(t[1..])
    else Scan(t[1..])
  }

  /** `stringToPath`: a leading dot contributes an empty first segment. */
  function StringToPath(s: string): (r: seq<string>)
    ensures |s| > 0 && s[0] == '.' ==> |r| > 0 && r[0] == ""
  {
    (if |s| > 0 && s[0] == '.' then [""] else []) + Scan(s)
  }

  // ---------------------------------------------------------------------
  // Writing paths, and reading them back

  /** One step of a path as it is written: `.name`, `[n]` or a quoted
      group with its quote character. */
  datatype PathStep = Name(name: string) | Index(index: nat) | Quoted(quote: char, key: string)

  predicate WellFormedStep(st: PathStep) {
    match st
    case Name(n) => IsPlainName(n)
    case Index(_) => true
    case Quoted(q, _) => IsQuote(q)
  }

  /** Backslash-escapes the backslashes and the quote character. */
  function Escape(q: char, s: string): string {
    if |s| == 0 then ""
    else if s[0] == '\\' || s[0] == q then ['\\', s[0]] + Escape(q, s[1..])
    else [s[0]] + Escape(q, s[1..])
  }

  function RenderStep(st: PathStep): string {
    match st
    case Name(n) => "." + n
    case Index(i) => "[" + NatToString(i) + "]"
    case Quoted(q, k) => "[" + [q] + Escape(q, k) + [q] + "]"
  }

  function RenderSteps(steps: seq<PathStep>): string {
    if |steps| == 0 then "" else RenderStep(steps[0]) + RenderSteps(steps[1..])
  }

  /** A path string: a leading name is written without its dot. */
  function Render(steps: seq<PathStep>): string {
    if |steps| > 0 && steps[0].Name? then steps[0].name + RenderSteps(steps[1..])
    else RenderSteps(steps)
  }

  /** The segment each step denotes. */
  function StepKey(st: PathStep): string {
    match st
    case Name(n) => n
    case Index(i) => NatToString(i)
    case Quoted(_, k) => k
  }

  function StepKeys(steps: seq<PathStep>): (r: seq<string>)
    ensures |r| == |steps|
    ensures forall i :: 0 <= i < |steps| ==> r[i] == StepKey(steps[i])
  {
    if |steps| == 0 then [] else [StepKey(steps[0])] + StepKeys(steps[1..])
  }

  lemma {:induction false} ScanRun(n: string, rest: string)
    requires IsPlainName(n)
    requires |rest| == 0 || IsPathSpecial(rest[0])
    ensures Scan(n + rest) == [n] + Scan(rest)
  {
    var t := n + rest;
    RunLengthOfName(n, rest);
    assert t[..|n|] == n && t[|n|..] == rest;
  }

  lemma {:induction false} RunLengthOfName(n: string, rest: string)
    requires forall i :: 0 <= i < |n| ==> !IsPathSpecial(n[i])
    requires |rest| == 0 || IsPathSpecial(rest[0])
    ensures RunLength(n + rest) == |n|
    decreases |n|
  {
    if |n| > 0 {
      assert (n + rest)[1..] == n[1..] + rest;
      RunLengthOfName(n[1..], rest);
    } else {
      assert n + rest == rest;
    }
  }

  lemma {:induction false} DigitRunOfNumeral(d: string, rest: string)
    requires AllDigits(d)
    requires |rest| > 0 && !IsDigit(rest[0])
    ensures DigitRun(d + rest) == |d|
    decreases |d|
  {
    if |d| > 0 {
      assert (d + rest)[1..] == d[1..] + rest;
      DigitRunOfNumeral(d[1..], rest);
    } else {
      assert d + rest == rest;
    }
  }

  /** A dot before a name is skipped over. */
  lemma ScanDot(n: string, rest: string)
    requires IsPlainName(n)
    ensures Scan("." + n + rest) == Scan(n + rest)
  {
    var t := "." + n + rest;
    assert t[1..] == n + rest;
    assert !EmptyNameAt(t) by {
      assert t[1] == n[0];
    }
  }

  /** A bracketed numeral reads as its digit string. */
  lemma ScanIndex(i: nat, rest: string)
    ensures Scan("[" + NatToString(i) + "]" + rest) == [NatToString(i)] + Scan(rest)
  {
    var d := NatToString(i);
    var t := "[" + d + "]" + rest;
    assert t[1] == d[0];
    assert t[1..] == d + ("]" + rest);
    DigitRunOfNumeral(d, "]" + rest);
    assert t[|d| + 1] == ']';
    assert NumberGroup(t) == Some(|d| + 2);
    assert t[1..|d| + 1] == d;
    assert t[|d| + 2..] == rest;
  }

  lemma {:induction false} QuotedEndOfEscape(q: char, s: string, pre: string, rest: string)
    requires IsQuote(q)
    ensures QuotedEnd(pre + Escape(q, s) + [q] + "]" + rest, q, |pre|) == Some(|pre| + |Escape(q, s)|)
    decreases |s|
  {
    var t := pre + Escape(q, s) + [q] + "]" + rest;
    if |s| == 0 {
      assert t[|pre|] == q && t[|pre| + 1] == ']';
    } else if s[0] == '\\' || s[0] == q {
      var pre' := pre + ['\\', s[0]];
      assert t == pre' + Escape(q, s[1..]) + [q] + "]" + rest;
      assert t[|pre|] == '\\' && t[|pre| + 1] == s[0];
      QuotedEndOfEscape(q, s[1..], pre', rest);
    } else {
      var pre' := pre + [s[0]];
      assert t == pre' + Escape(q, s[1..]) + [q] + "]" + rest;
      assert t[|pre|] == s[0];
      QuotedEndOfEscape(q, s[1..], pre', rest);
    }
  }

  /** Removing the escapes undoes adding them. */
  lemma {:induction false} UnescapeEscape(q: char, s: string)
    requires IsQuote(q)
    ensures Unescape(Escape(q, s)) == s
    decreases |s|
  {
    if |s| > 0 {
      UnescapeEscape(q, s[1..]);
      var e := Escape(q, s);
      if s[0] == '\\' {
        assert e[2..] == Escape(q, s[1..]);
      } else if s[0] == q {
        assert e[0] == '\\' && e[1] != '\\';
        assert e[1..][1..] == Escape(q, s[1..]);
        assert Unescape(e[1..]) == [q] + Unescape(Escape(q, s[1..]));
      } else {
        assert e[1..] == Escape(q, s[1..]);
      }
    }
  }

  /** A quoted group reads as its unescaped contents. */
  lemma ScanQuoted(q: char, k: string, rest: string)
    requires IsQuote(q)
    ensures Scan("[" + [q] + Escape(q, k) + [q] + "]" + rest) == [k] + Scan(rest)
  {
    var e := Escape(q, k);
    var t := "[" + [q] + e + [q] + "]" + rest;
    QuotedGroupOfEscape(q, k, rest);
    NoNumberBeforeQuote(t);
    ScanQuotedStep(t);
    assert t[2..2 + |e|] == e;
    assert t[2 + |e| + 2..] == rest;
    UnescapeEscape(q, k);
  }

  /** A quoted group is read as its contents with the escapes removed. */
  lemma ScanQuotedStep(t: string)
    requires QuotedGroup(t).Some? && NumberGroup(t).None?
    ensures var e := QuotedGroup(t).value;
            Scan(t) == [Unescape(t[2..e])] + Scan(t[e + 2..])
  {
    assert IsPathSpecial(t[0]);
  }

  /** A bracket followed by a quote does not open a number group. */
  lemma NoNumberBeforeQuote(t: string)
    requires |t| > 1 && IsQuote(t[1])
    ensures NumberGroup(t).None?
  {
    if |t| >= 3 && t[0] == '[' {
      assert t[1..][0] == t[1];
    }
  }

  /** The closing quote of an escaped key is found right after it. */
  lemma QuotedGroupOfEscape(q: char, k: string, rest: string)
    requires IsQuote(q)
    ensures QuotedGroup("[" + [q] + Escape(q, k) + [q] + "]" + rest) == Some(2 + |Escape(q, k)|)
  {
    var e := Escape(q, k);
    var t := "[" + [q] + e + [q] + "]" + rest;
    assert t == ("[" + [q]) + e + [q] + "]" + rest;
    QuotedEndOfEscape(q, k, "[" + [q], rest);
  }

  lemma RenderStepsStart(steps: seq<PathStep>)
    requires |steps| > 0
    ensures |RenderSteps(steps)| > 0 && IsPathSpecial(RenderSteps(steps)[0])
  {
  }

  lemma {:induction false} ScanRenderSteps(steps: seq<PathStep>)
    requires forall i :: 0 <= i < |steps| ==> WellFormedStep(steps[i])
    ensures Scan(RenderSteps(steps)) == StepKeys(steps)
    decreases |steps|
  {
    if |steps| > 0 {
      var rest := RenderSteps(steps[1..]);
      ScanRenderSteps(steps[1..]);
      if |steps| > 1 {
        RenderStepsStart(steps[1..]);
      }
      match steps[0]
      case Name(n) =>
        assert RenderSteps(steps) == "." + n + rest;
        ScanDot(n, rest);
        ScanRun(n, rest);
      case Index(i) =>
        ScanIndex(i, rest);
      case Quoted(q, k) =>
        ScanQuoted(q, k, rest);
    }
  }

  lemma StringToPathNoLeadingDot(s: string)
    requires |s| == 0 || s[0] != '.'
    ensures StringToPath(s) == Scan(s)
  {
    assert [] + Scan(s) == Scan(s);
  }

  /** Reading a written path gives back the segment of every step: names
      between dots, numerals in brackets as digit strings, quoted groups
      with their escapes removed. */
  lemma StringToPathRender(steps: seq<PathStep>)
    requires forall i :: 0 <= i < |steps| ==> WellFormedStep(steps[i])
    ensures StringToPath(Render(steps)) == StepKeys(steps)
  {
    if |steps| > 0 && steps[0].Name? {
      var n := steps[0].name;
      var rest := RenderSteps(steps[1..]);
      assert Render(steps) == n + rest;
      ScanRenderSteps(steps[1..]);
      if |steps| > 1 {
        RenderStepsStart(steps[1..]);
      }
      ScanRun(n, rest);
      assert (n + rest)[0] == n[0];
      StringToPathNoLeadingDot(n + rest);
      assert StepKeys(steps) == [n] + StepKeys(steps[1..]);
    } else {
      assert Render(steps) == RenderSteps(steps);
      ScanRenderSteps(steps);
      if |steps| > 0 {
        RenderStepsStart(steps);
        assert RenderSteps(steps)[0] == '[';
      }
      StringToPathNoLeadingDot(RenderSteps(steps));
    }
  }

  /** Names joined by dots split back into the names. */
  lemma DottedPath()
    ensures StringToPath("A.B.C") == ["A", "B", "C"]
  {
    var abc := [Name("A"), Name("B"), Name("C")];
    assert WellFormedStep(abc[0]) && WellFormedStep(abc[1]) && WellFormedStep(abc[2]);
    StringToPathRender(abc);
    assert RenderSteps(abc[2..]) == ".C" + RenderSteps([]);
    assert RenderSteps(abc[1..]) == ".B" + RenderSteps(abc[2..]);
    assert Render(abc) == "A.B.C";
  }

  /** A numeral in brackets is one more segment. */
  lemma IndexedPath()
    ensures StringToPath("A.B[0].C") == ["A", "B", "0", "C"]
  {
    var ab0c := [Name("A"), Name("B"), Index(0), Name("C")];
    assert forall i :: 0 <= i < |ab0c| ==> WellFormedStep(ab0c[i]);
    StringToPathRender(ab0c);
    RenderIndexed(ab0c);
    assert NatToString(0) == "0";
    assert StepKeys(ab0c) == ["A", "B", "0", "C"];
  }

  lemma RenderIndexed(ab0c: seq<PathStep>)
    requires ab0c == [Name("A"), Name("B"), Index(0), Name("C")]
    ensures Render(ab0c) == "A.B[0].C"
  {
    assert NatToString(0) == "0";
    assert RenderSteps(ab0c[3..]) == ".C" + RenderSteps([]);
    assert RenderSteps(ab0c[2..]) == "[0]" + RenderSteps(ab0c[3..]);
    assert RenderSteps(ab0c[1..]) == ".B" + RenderSteps(ab0c[2..]);
  }

  /** Empty names: a leading dot, a trailing dot, doubled dots. */
  lemma EmptyNames()
    ensures StringToPath(".a") == ["", "a"]
    ensures StringToPath("a.") == ["a", ""]
    ensures StringToPath("a..b") == ["a", "", "b"]
  {
    ScanRun("a", "");
    ScanDot("a", "");
    assert ".a" == "." + "a" + "";
    assert "a." == "a" + ".";
    ScanRun("a", ".");
    assert "a..b" == "a" + "..b";
    ScanRun("a", "..b");
    assert "..b"[1..] == ".b";
    assert ".b" == "." + "b" + "";
    ScanDot("b", "");
    ScanRun("b", "");
  }

  // ---------------------------------------------------------------------
  // isKey

  /** A regular-expression word character. */
  predicate IsWordChar(c: char) {
    ('a' <= c <= 'z') || ('A' <= c <= 'Z') || ('0' <= c <= '9') || c == '_'
  }

  /** `^\w*$`. */
  predicate IsPlainProp(s: string) {
    forall i :: 0 <= i < |s| ==> IsWordChar(s[i])
  }

  /** After an opening bracket: a `]` comes before any other bracket. */
  predicate ClosesFirst(u: string) {
    |u| > 0 && u[0] != '[' && (u[0] == ']' || ClosesFirst(u[1..]))
  }

  /** A deep-path token starts here: a dot, a bracket group without nested
      brackets, or a quoted bracket group. */
  predicate DeepAt(t: string) {
    |t| > 0 && (t[0] == '.' || (t[0] == '[' && (ClosesFirst(t[1..]) || QuotedGroup(t).Some?)))
  }

  /** The search for a deep-path token anywhere in `s`. */
  predicate IsDeepProp(s: string) {
    |s| > 0 && (DeepAt(s) || IsDeepProp(s[1..]))
  }

  /** `key in Object(object)` for the keys this question is asked about:
      own properties (inherited and wrapper properties all have
      word-character names, which never reach this test). */
  predicate HasOwnKey(holder: JVal, k: string) {
    match holder
    case Obj(m) => k in m
    case Arr(es, ex) => (IsArrayIndex(k) && ParseNat(k) < |es|) || k in ex
    case _ => false
  }

  /** `isKey(value, object)`: whether `value` names one property rather
      than a path to be tokenised. */
  function IsKey(value: JVal, holder: Option<JVal>): bool {
    match value
    case Arr(_, _) => false
    case Num(_) => true
    case Bool(_) => true
    case Null => true
    case Undef => true
    case _ =>
      var s := ToKey(value);
      IsPlainProp(s) || !IsDeepProp(s) ||
      (holder.Some? && !IsNullish(holder.value) && HasOwnKey(holder.value, s))
  }

  lemma {:induction false} NoDelimiterNotDeep(s: string)
    requires forall i :: 0 <= i < |s| ==> s[i] != '.' && s[i] != '['
    ensures !IsDeepProp(s)
    decreases |s|
  {
    if |s| > 0 {
      NoDelimiterNotDeep(s[1..]);
    }
  }

  /** A string with neither a dot nor an opening bracket is one key. */
  lemma KeyWithoutDelimiters(s: string, holder: Option<JVal>)
    requires forall i :: 0 <= i < |s| ==> s[i] != '.' && s[i] != '['
    ensures IsKey(Str(s), holder)
  {
    NoDelimiterNotDeep(s);
  }

  /** A string holding a dot is a path, unless the object owns it as a key. */
  lemma {:induction false} DottedIsKeyOnlyIfOwned(s: string, holder: Option<JVal>, i: nat)
    requires i < |s| && s[i] == '.'
    ensures IsKey(Str(s), holder) <==> holder.Some? && !IsNullish(holder.value) && HasOwnKey(holder.value, s)
  {
    assert !IsWordChar(s[i]);
    DeepSomewhere(s, i);
  }

  lemma {:induction false} DeepSomewhere(s: string, i: nat)
    requires i < |s| && DeepAt(s[i..])
    ensures IsDeepProp(s)
    decreases i
  {
    if i > 0 {
      assert s[1..][i - 1..] == s[i..];
      DeepSomewhere(s[1..], i - 1);
    } else {
      assert s[0..] == s;
    }
  }

  /** Arrays are never keys; numbers, booleans and nullish values always are. */
  lemma IsKeyOfNonStrings(v: JVal, holder: Option<JVal>)
    ensures v.Arr? ==> !IsKey(v, holder)
    ensures v.Num? || v.Bool? || IsNullish(v) ==> IsKey(v, holder)
  {
  }
}
