/**
 * The slice of JavaScript's dynamic values that the paging controller reads
 * and writes: primitive values, plain objects used as option bags and as the
 * per-container data record, `$.extend`, `$.trim`, truthiness, and the
 * string and number conversions that `+`, `>` and `>=` apply.
 */
module JsValues {
  import opened Wrappers

  /**
   * A JavaScript value as the controller sees one. Numbers are integers; a
   * function is identified by its source text, which is also what converting
   * it to a string yields.
   */
  datatype Value =
    | Undefined
    | Null
    | Bool(b: bool)
    | Num(n: int)
    | Str(s: string)
    | Func(source: string)

  /** A plain object: own enumerable properties and their values. */
  type Object = map<string, Value>

  /** Property lookup; a missing property reads as `undefined`. */
  function Get(o: Object, key: string): Value {
    if key in o then o[key] else Undefined
  }

  /** The property is present and not `undefined`: the keys `$.extend` copies. */
  predicate Defined(o: Object, key: string) {
    key in o && o[key] != Undefined
  }

  /** JavaScript's ToBoolean. */
  predicate Truthy(v: Value) {
    match v
    case Undefined => false
    case Null => false
    case Bool(b) => b
    case Num(n) => n != 0
    case Str(s) => s != ""
    case Func(_) => true
  }

  /** The keys of `o` that `$.extend` copies. */
  function DefinedKeys(o: Object): set<string> {
    set k | k in o && o[k] != Undefined
  }

  /**
   * Shallow `$.extend(target, source)`: every own property of `source` whose
   * value is not `undefined` overwrites the target's; all other target
   * properties are kept.
   */
  function Extend(target: Object, source: Object): (r: Object)
    ensures r.Keys == target.Keys + DefinedKeys(source)
    ensures forall k :: k in r ==> r[k] == if Defined(source, k) then source[k] else target[k]
    ensures forall k :: k in r ==> r[k] != Undefined || (k in target && target[k] == Undefined && !(k in source && source[k] != Undefined))
  {
    target + map k | k in source && source[k] != Undefined :: source[k]
  }

  // ---------------------------------------------------------------------
  // White space and `$.trim`
  // ---------------------------------------------------------------------

  /** The characters `$.trim` strips: the regular-expression class `\s`, U+FEFF and U+00A0. */
  predicate IsSpace(c: char) {
    || c == ' ' || c == '\t' || c == '\n' || c == '\r' || c == '\U{B}' || c == '\U{C}'
    || c == '\U{A0}' || c == '\U{1680}' || ('\U{2000}' <= c <= '\U{200A}')
    || c == '\U{2028}' || c == '\U{2029}' || c == '\U{202F}' || c == '\U{205F}'
    || c == '\U{3000}' || c == '\U{FEFF}'
  }

  predicate AllSpace(s: string) {
    forall k :: 0 <= k < |s| ==> IsSpace(s[k])
  }

  /** Neither the first nor the last character is white space. */
  predicate NoEdgeSpace(s: string) {
    s == [] || (!IsSpace(s[0]) && !IsSpace(s[|s| - 1]))
  }

  /** Drops the leading white space: the result is the longest suffix starting with a non-space. */
  function TrimStart(s: string): (r: string)
    ensures |r| <= |s| && r == s[|s| - |r|..]
    ensures r == [] || !IsSpace(r[0])
    ensures AllSpace(s[..|s| - |r|])
    decreases |s|
  {
    if s != [] && IsSpace(s[0]) then
      var r := TrimStart(s[1..]);
      SpacePrefixGrows(s, |s| - |r|);
      r
    else s
  }

  lemma SpacePrefixGrows(s: string, k: nat)
    requires 1 <= k <= |s| && IsSpace(s[0]) && AllSpace(s[1..][..k - 1])
    ensures AllSpace(s[..k])
  {
    forall j | 0 <= j < k ensures IsSpace(s[..k][j]) {
      if j > 0 {
        assert s[..k][j] == s[1..][..k - 1][j - 1];
      }
    }
  }

  /** Drops the trailing white space: the result is the longest prefix ending in a non-space. */
  function TrimEnd(s: string): (r: string)
    ensures |r| <= |s| && r == s[..|r|]
    ensures r == [] || !IsSpace(r[|r| - 1])
    ensures AllSpace(s[|r|..])
    decreases |s|
  {
    if s != [] && IsSpace(s[|s| - 1]) then
      var r := TrimEnd(s[..|s| - 1]);
      SpaceSuffixGrows(s, |r|);
      r
    else s
  }

  lemma SpaceSuffixGrows(s: string, k: nat)
    requires k < |s| && IsSpace(s[|s| - 1]) && AllSpace(s[..|s| - 1][k..])
    ensures AllSpace(s[k..])
  {
    forall j | 0 <= j < |s| - k ensures IsSpace(s[k..][j]) {
      if j < |s| - 1 - k {
        assert s[k..][j] == s[..|s| - 1][k..][j];
      }
    }
  }

  /** `$.trim(s)`: the result neither starts nor ends with white space. */
  function Trim(s: string): (r: string)
    ensures NoEdgeSpace(r)
    ensures |r| <= |s|
  {
    TrimEnd(TrimStart(s))
  }

  /**
   * What `Trim` removes is white space only: `s` is white space, then the
   * result, then white space.
   */
  lemma TrimSplits(s: string) returns (i: nat)
    ensures i + |Trim(s)| <= |s|
    ensures s == s[..i] + Trim(s) + s[i + |Trim(s)|..]
    ensures AllSpace(s[..i]) && AllSpace(s[i + |Trim(s)|..])
  {
    var t := TrimStart(s);
    var r := TrimEnd(t);
    i := |s| - |t|;
    PrefixOfSuffix(s, t, r, i);
  }

  /** A prefix `r` of the suffix `t` of `s` from `i` splits `s` in three. */
  lemma PrefixOfSuffix(s: string, t: string, r: string, i: nat)
    requires i <= |s| && t == s[i..] && |r| <= |t| && r == t[..|r|]
    requires AllSpace(t[|r|..])
    ensures s == s[..i] + r + s[i + |r|..]
    ensures AllSpace(s[i + |r|..])
  {
    var j := i + |r|;
    SliceOfSlice(s, t, r, i);
    assert s[j..] == t[|r|..];
    SplitAt(s, i, j);
  }

  lemma SliceOfSlice(s: string, t: string, r: string, i: nat)
    requires i <= |s| && t == s[i..] && |r| <= |t| && r == t[..|r|]
    ensures r == s[i..i + |r|]
  {
  }

  lemma SplitAt(s: string, i: nat, j: nat)
    requires i <= j <= |s|
    ensures s == s[..i] + s[i..j] + s[j..]
  {
  }

  /** The trimmed string is empty exactly when `s` is all white space. */
  lemma TrimEmpty(s: string)
    ensures Trim(s) == [] <==> AllSpace(s)
  {
    var i := TrimSplits(s);
    if Trim(s) == [] {
      assert s == s[..i] + s[i..];
      AllSpaceConcat(s[..i], s[i..]);
    } else {
      assert Trim(s)[0] == s[i];
    }
  }

  lemma AllSpaceConcat(a: string, b: string)
    requires AllSpace(a) && AllSpace(b)
    ensures AllSpace(a + b)
  {
    forall k | 0 <= k < |a + b| ensures IsSpace((a + b)[k]) {
      if k < |a| { assert (a + b)[k] == a[k]; } else { assert (a + b)[k] == b[k - |a|]; }
    }
  }

  lemma {:induction false} TrimStartOverSpaces(a: string, t: string)
    requires AllSpace(a)
    requires t == [] || !IsSpace(t[0])
    ensures TrimStart(a + t) == t
    decreases |a|
  {
    if a != [] {
      assert (a + t)[1..] == a[1..] + t;
      TrimStartOverSpaces(a[1..], t);
    }
  }

  lemma {:induction false} TrimEndOverSpaces(t: string, b: string)
    requires AllSpace(b)
    requires t == [] || !IsSpace(t[|t| - 1])
    ensures TrimEnd(t + b) == t
    decreases |b|
  {
    if b != [] {
      assert (t + b)[..|t + b| - 1] == t + b[..|b| - 1];
      TrimEndOverSpaces(t, b[..|b| - 1]);
    }
  }

  /**
   * `Trim` is the unique way to split a string into white space, a core
   * without edge white space, and white space.
   */
  lemma TrimCharacterised(a: string, m: string, b: string)
    requires AllSpace(a) && AllSpace(b) && NoEdgeSpace(m)
    ensures Trim(a + m + b) == m
  {
    if m == [] {
      assert a + m + b == a + b;
      AllSpaceConcat(a, b);
      TrimEmpty(a + m + b);
    } else {
      assert a + m + b == a + (m + b);
      TrimStartOverSpaces(a, m + b);
      TrimEndOverSpaces(m, b);
    }
  }

  /** Trimming twice is trimming once. */
  lemma TrimIdempotent(s: string)
    ensures Trim(Trim(s)) == Trim(s)
  {
    var r := Trim(s);
    assert r == [] + r + [];
    TrimCharacterised([], r, []);
  }

  /** Appending white space does not change the trimmed string. */
  lemma TrimIgnoresTrailingSpace(s: string, t: string)
    requires AllSpace(t)
    ensures Trim(s + t) == Trim(s)
  {
    var i := TrimSplits(s);
    var m := Trim(s);
    var a, b := s[..i], s[i + |m|..];
    AppendSpace(s, a, m, b, t);
    TrimCharacterised(a, m, b + t);
  }

  lemma AppendSpace(s: string, a: string, m: string, b: string, t: string)
    requires s == a + m + b && AllSpace(b) && AllSpace(t)
    ensures s + t == a + m + (b + t) && AllSpace(b + t)
  {
    AllSpaceConcat(b, t);
  }

  // ---------------------------------------------------------------------
  // Numbers and strings
  // ---------------------------------------------------------------------

  predicate IsDigit(c: char) {
    '0' <= c <= '9'
  }

  predicate AllDigits(s: string) {
    forall k :: 0 <= k < |s| ==> IsDigit(s[k])
  }

  function DigitChar(d: nat): char
    requires d < 10
  {
    ('0' as int + d) as char
  }

  /** The value of a string of decimal digits, most significant first. */
  function DigitsValue(s: string): nat
    requires AllDigits(s)
  {
    if s == [] then 0 else DigitsValue(s[..|s| - 1]) * 10 + (s[|s| - 1] as int - '0' as int)
  }

  /** Decimal rendering of a natural number, which reads back as the same number. */
  function NatToString(n: nat): (s: string)
    ensures s != [] && AllDigits(s)
    ensures DigitsValue(s) == n
    ensures |s| > 1 ==> s[0] != '0'
  {
    if n < 10 then [DigitChar(n)]
    else
      var p := NatToString(n / 10);
      var s := p + [DigitChar(n % 10)];
      assert s[..|s| - 1] == p;
      s
  }

  /** JavaScript's number-to-string conversion for an integer. */
  function IntToString(i: int): string {
    if i < 0 then "-" + NatToString(-i) else NatToString(i)
  }

  /**
   * The numeric string grammar after trimming: empty is zero, otherwise an
   * optional sign and decimal digits. Every other form reads as NaN (`None`).
   */
  function ParseDecimal(t: string): Option<int> {
    if t == [] then Some(0)
    else if (t[0] == '-' || t[0] == '+') && |t| > 1 && AllDigits(t[1..]) then
      Some(if t[0] == '-' then 0 - DigitsValue(t[1..]) else DigitsValue(t[1..]) as int)
    else if AllDigits(t) then Some(DigitsValue(t))
    else None
  }

  /** JavaScript's ToString on a primitive or a function. */
  function JsString(v: Value): string {
    match v
    case Undefined => "undefined"
    case Null => "null"
    case Bool(b) => if b then "true" else "false"
    case Num(n) => IntToString(n)
    case Str(s) => s
    case Func(src) => src
  }

  /** JavaScript's ToNumber; `None` is NaN. A string is trimmed before it is parsed. */
  function ToNumber(v: Value): Option<int> {
    match v
    case Undefined => None
    case Null => Some(0)
    case Bool(b) => Some(if b then 1 else 0)
    case Num(n) => Some(n)
    case Str(s) => ParseDecimal(Trim(s))
    case Func(src) => ParseDecimal(Trim(src))
  }

  /** The decimal rendering of an integer parses back to the integer. */
  lemma ParseIntToString(n: int)
    ensures ParseDecimal(IntToString(n)) == Some(n)
  {
    var s := IntToString(n);
    if n < 0 {
      var d := NatToString(-n);
      assert s == "-" + d;
      assert s[1..] == d;
      assert |s| > 1 && AllDigits(s[1..]);
    } else {
      assert IsDigit(s[0]);
      assert s[0] != '-' && s[0] != '+';
    }
  }

  lemma NoEdgeSpaceIntToString(n: int)
    ensures NoEdgeSpace(IntToString(n))
  {
    var s := IntToString(n);
    if n < 0 {
      assert s == "-" + NatToString(-n);
      assert s[|s| - 1] == NatToString(-n)[|NatToString(-n)| - 1];
    }
    assert IsDigit(s[|s| - 1]);
    assert IsDigit(s[0]) || s[0] == '-';
  }

  /** A string without edge white space is its own trim. */
  lemma TrimClean(s: string)
    requires NoEdgeSpace(s)
    ensures Trim(s) == s
  {
  }

  /** A non-empty string of decimal digits converts to the number it spells. */
  lemma DigitStringToNumber(s: string)
    requires s != [] && AllDigits(s)
    ensures ToNumber(Str(s)) == Some(DigitsValue(s))
  {
    assert IsDigit(s[0]) && IsDigit(s[|s| - 1]);
    TrimClean(s);
    assert s[0] != '-' && s[0] != '+';
  }

  /** Converting an integer to a string and back to a number yields the integer. */
  lemma NumberStringRoundTrip(n: int)
    ensures ToNumber(Str(JsString(Num(n)))) == Some(n)
  {
    var s := IntToString(n);
    NoEdgeSpaceIntToString(n);
    TrimClean(s);
    ParseIntToString(n);
  }
}
