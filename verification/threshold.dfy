/**
 * The scroll trigger's arithmetic: the height covered so far, rounded up,
 * plus the configured padding, against the inner wrapper's outer height.
 * Pixel measurements are inputs; fractional ones are reals.
 */
module Threshold {
  import opened Wrappers
  import opened JsValues

  /** `Math.ceil`. */
  function Ceil(x: real): (c: int)
    ensures c as real >= x
    ensures (c as real) - 1.0 < x
  {
    -((-x).Floor)
  }

  /** The measurements one evaluation of the trigger reads. */
  datatype Geometry = Geometry(
    regionTop: real,  // the window's scrollTop when the window scrolls, else the container's offset top
    innerTop: real,  // the inner wrapper's offset top (0 when there is none)
    regionHeight: real,  // the scrolling region's height
    paddingTop: int,  // the container's padding-top, through parseInt
    borderTop: Option<int>,  // its border-top-width through parseInt; None is NaN
    innerOuterHeight: real)  // the inner wrapper's outer height

  /** The container's top padding plus its top border, a NaN border counting as zero. */
  function ContainerTop(g: Geometry): int {
    g.paddingTop + g.borderTop.GetOr(0)
  }

  /** The covered height before rounding. */
  function CoveredExact(g: Geometry): real {
    g.regionTop - g.innerTop + g.regionHeight + ContainerTop(g) as real
  }

  /** `iTotalHeight`: the covered height rounded up. */
  function Covered(g: Geometry): int {
    Ceil(CoveredExact(g))
  }

  /**
   * `iTotalHeight + padding` under JavaScript's `+`: a string or function
   * padding is concatenated to the decimal rendering of the integer and the
   * comparison then reads the concatenation back as a number; any other
   * padding is added as a number. `None` is NaN.
   */
  function PaddedTotal(covered: int, padding: Value): Option<int> {
    if padding.Str? || padding.Func? then
      ToNumber(Str(IntToString(covered) + JsString(padding)))
    else
      match ToNumber(padding)
      case Some(p) => Some(covered + p)
      case None => None
  }

  /** `iTotalHeight + padding >= $inner.outerHeight()`; NaN compares false. */
  predicate Reached(g: Geometry, padding: Value) {
    var t := PaddedTotal(Covered(g), padding);
    t.Some? && t.value as real >= g.innerOuterHeight
  }

  /**
   * With a numeric padding the trigger fires exactly when the rounded-up
   * covered height plus the padding reaches the wrapper's outer height.
   */
  lemma NumericPadding(g: Geometry, p: int)
    ensures Reached(g, Num(p)) <==> (Covered(g) + p) as real >= g.innerOuterHeight
  {
  }

  /**
   * Rounding up biases towards triggering: the exact covered height plus the
   * padding reaching the outer height always triggers, and a trigger means it
   * falls short by less than one pixel at most.
   */
  lemma CeilingBias(g: Geometry, p: int)
    ensures CoveredExact(g) + p as real >= g.innerOuterHeight ==> Reached(g, Num(p))
    ensures Reached(g, Num(p)) ==> CoveredExact(g) + p as real > g.innerOuterHeight - 1.0
  {
  }

  /** Scrolling further down never turns a trigger off. */
  lemma MonotoneInScroll(g: Geometry, further: real, p: int)
    requires further >= g.regionTop
    requires Reached(g, Num(p))
    ensures Reached(g.(regionTop := further), Num(p))
  {
    var g' := g.(regionTop := further);
    assert CoveredExact(g') >= CoveredExact(g);
    CeilMonotone(CoveredExact(g), CoveredExact(g'));
  }

  /**
   * For a container that scrolls itself, scrolling it moves the inner
   * wrapper up: a lower `innerTop` never turns a trigger off.
   */
  lemma MonotoneInOwnScroll(g: Geometry, innerTop': real, p: int)
    requires innerTop' <= g.innerTop
    requires Reached(g, Num(p))
    ensures Reached(g.(innerTop := innerTop'), Num(p))
  {
    var g' := g.(innerTop := innerTop');
    assert CoveredExact(g') >= CoveredExact(g);
    CeilMonotone(CoveredExact(g), CoveredExact(g'));
  }

  lemma CeilMonotone(x: real, y: real)
    requires x <= y
    ensures Ceil(x) <= Ceil(y)
  {
  }

  /**
   * The letters and the point through which JavaScript reads a digit string
   * followed by more text as a number after all: an exponent (`100e2`), a
   * fraction (`100.5`) or a radix prefix after a zero (`0x5`, `0b1`, `0o7`).
   */
  predicate NumericMark(c: char) {
    c == '.' || c == 'e' || c == 'E' || c == 'x' || c == 'X' || c == 'b' || c == 'B' || c == 'o' || c == 'O'
  }

  /**
   * A padding that makes the sum NaN never triggers: `undefined`, or a string
   * with a non-digit that trimming cannot remove and none of the marks that
   * make a longer numeric literal, which spoils the concatenated number.
   */
  lemma NaNPaddingNeverTriggers(g: Geometry, s: string, k: nat)
    requires k < |s| && !IsDigit(s[k]) && !IsSpace(s[|s| - 1])
    requires forall j :: 0 <= j < |s| ==> !NumericMark(s[j])
    ensures !Reached(g, Undefined)
    ensures !Reached(g, Str(s))
  {
    var n := IntToString(Covered(g));
    var t := n + s;
    NoEdgeSpaceIntToString(Covered(g));
    assert t[0] == n[0] && t[|t| - 1] == s[|s| - 1];
    assert t[|n| + k] == s[k];
    NonDigitTextIsNaN(t, |n| + k);
  }

  /** A string without edge white space with a non-digit after its first character converts to NaN. */
  lemma NonDigitTextIsNaN(t: string, i: nat)
    requires 1 <= i < |t| && !IsDigit(t[i]) && NoEdgeSpace(t)
    ensures ToNumber(Str(t)).None?
  {
    TrimClean(t);
    ParseNaN(t, i);
  }

  lemma ParseNaN(t: string, i: nat)
    requires 1 <= i < |t| && !IsDigit(t[i])
    ensures ParseDecimal(t).None?
  {
    assert t[1..][i - 1] == t[i];
  }

  /**
   * A string padding of decimal digits is concatenated, not added: with a
   * covered height `c` and padding `d`, the sum reads as `c * 10^|d| + d`
   * when `c` is non-negative, and as `c * 10^|d| - d` when it is negative,
   * since the sign of `c` then leads the concatenated digits.
   */
  lemma StringPaddingConcatenates(c: int, d: string)
    requires d != [] && AllDigits(d)
    ensures PaddedTotal(c, Str(d)).Some?
    ensures c >= 0 ==> PaddedTotal(c, Str(d)).value == c * Pow10(|d|) + DigitsValue(d)
    ensures c < 0 ==> PaddedTotal(c, Str(d)).value == c * Pow10(|d|) - DigitsValue(d)
  {
    if c >= 0 {
      StringPaddingIsText(c, d);
      ConcatenationValue(c, d);
    } else {
      NegativeConcatenationValue(c, d);
    }
  }

  lemma NegativeConcatenationValue(c: int, d: string)
    requires c < 0 && d != [] && AllDigits(d)
    ensures PaddedTotal(c, Str(d)).Some?
    ensures PaddedTotal(c, Str(d)).value == c * Pow10(|d|) - DigitsValue(d)
  {
    var m: nat := -c;
    var u := NatToString(m) + d;
    NegativePaddingIsText(c, m, d);
    NatThenDigits(m, d);
    SignedDigitsToNumber(u);
    Negated(PaddedTotal(c, Str(d)), ToNumber(Str("-" + u)), DigitsValue(u), m * Pow10(|d|) + DigitsValue(d));
    var p := Pow10(|d|);
    NegatedProduct(c, m, p);
  }

  lemma NegatedProduct(c: int, m: int, p: int)
    requires m == -c
    ensures m * p == -(c * p)
  {
  }

  lemma Negated(x: Option<int>, y: Option<int>, a: int, b: int)
    requires x == y && y.Some? && y.value == 0 - a && a == b
    ensures x.Some? && x.value == -b
  {
  }

  lemma NegativePaddingIsText(c: int, m: nat, d: string)
    requires c < 0 && m == -c
    ensures PaddedTotal(c, Str(d)) == ToNumber(Str("-" + (NatToString(m) + d)))
  {
    assert IntToString(c) == "-" + NatToString(m);
    assert IntToString(c) + d == "-" + (NatToString(m) + d);
  }

  /** A minus sign followed by decimal digits converts to the negated value. */
  lemma SignedDigitsToNumber(u: string)
    requires u != [] && AllDigits(u)
    ensures ToNumber(Str("-" + u)).Some?
    ensures ToNumber(Str("-" + u)).value == 0 - DigitsValue(u)
  {
    SignedText(u);
    NegativeTextToNumber("-" + u);
  }

  lemma NegativeTextToNumber(t: string)
    requires |t| > 1 && t[0] == '-' && AllDigits(t[1..]) && NoEdgeSpace(t)
    ensures ToNumber(Str(t)).Some? && ToNumber(Str(t)).value == 0 - DigitsValue(t[1..])
  {
    TrimClean(t);
    ParseNegative(t);
  }

  lemma SignedText(u: string)
    requires u != [] && AllDigits(u)
    ensures |"-" + u| > 1 && ("-" + u)[0] == '-' && ("-" + u)[1..] == u && NoEdgeSpace("-" + u)
  {
    var t := "-" + u;
    assert t[0] == '-' && t[1..] == u;
    assert t[|t| - 1] == u[|u| - 1] && IsDigit(u[|u| - 1]);
  }

  lemma ParseNegative(t: string)
    requires |t| > 1 && t[0] == '-' && AllDigits(t[1..])
    ensures ParseDecimal(t).Some? && ParseDecimal(t).value == 0 - DigitsValue(t[1..])
  {
  }

  lemma ConcatenationValue(c: nat, d: string)
    requires d != [] && AllDigits(d)
    ensures ToNumber(Str(NatToString(c) + d)).Some?
    ensures ToNumber(Str(NatToString(c) + d)).value == c * Pow10(|d|) + DigitsValue(d)
  {
    NatThenDigits(c, d);
    DigitStringToNumber(NatToString(c) + d);
  }

  lemma StringPaddingIsText(c: nat, d: string)
    ensures PaddedTotal(c, Str(d)) == ToNumber(Str(NatToString(c) + d))
  {
    assert IntToString(c) == NatToString(c);
  }

  lemma NatThenDigits(c: nat, d: string)
    requires AllDigits(d)
    ensures AllDigits(NatToString(c) + d)
    ensures DigitsValue(NatToString(c) + d) == c * Pow10(|d|) + DigitsValue(d)
  {
    DigitsAppend(NatToString(c), d);
  }

  function Pow10(n: nat): (p: nat)
    ensures p >= 1
  {
    if n == 0 then 1 else 10 * Pow10(n - 1)
  }

  lemma AllDigitsConcat(a: string, b: string)
    requires AllDigits(a) && AllDigits(b)
    ensures AllDigits(a + b)
  {
    forall k | 0 <= k < |a + b| ensures IsDigit((a + b)[k]) {
      if k < |a| { assert (a + b)[k] == a[k]; } else { assert (a + b)[k] == b[k - |a|]; }
    }
  }

  /** The value of two digit strings written one after the other. */
  lemma {:induction false} DigitsAppend(a: string, b: string)
    requires AllDigits(a) && AllDigits(b)
    ensures AllDigits(a + b)
    ensures DigitsValue(a + b) == DigitsValue(a) * Pow10(|b|) + DigitsValue(b)
    decreases |b|
  {
    AllDigitsConcat(a, b);
    if b == [] {
      assert a + b == a;
    } else {
      var b' := b[..|b| - 1];
      var last := b[|b| - 1] as int - '0' as int;
      DigitsAppendStep(a, b);
      DigitsAppend(a, b');
      ShiftArith(DigitsValue(a), Pow10(|b'|), DigitsValue(b'), last);
    }
  }

  lemma DigitsAppendStep(a: string, b: string)
    requires AllDigits(a) && AllDigits(b) && b != []
    ensures AllDigits(b[..|b| - 1]) && AllDigits(a + b[..|b| - 1]) && AllDigits(a + b)
    ensures DigitsValue(a + b) == DigitsValue(a + b[..|b| - 1]) * 10 + (b[|b| - 1] as int - '0' as int)
    ensures DigitsValue(b) == DigitsValue(b[..|b| - 1]) * 10 + (b[|b| - 1] as int - '0' as int)
    ensures Pow10(|b|) == 10 * Pow10(|b| - 1)
  {
    var b' := b[..|b| - 1];
    AllDigitsConcat(a, b);
    AllDigitsConcat(a, b');
    DigitsLast(a + b);
    assert (a + b)[..|a + b| - 1] == a + b';
    DigitsLast(b);
  }

  /** Unfolds `DigitsValue` once. */
  lemma DigitsLast(s: string)
    requires AllDigits(s) && s != []
    ensures AllDigits(s[..|s| - 1])
    ensures DigitsValue(s) == DigitsValue(s[..|s| - 1]) * 10 + (s[|s| - 1] as int - '0' as int)
  {
  }

  lemma ShiftArith(va: int, p: int, vb: int, last: int)
    ensures (va * p + vb) * 10 + last == va * (10 * p) + (vb * 10 + last)
  {
  }
}
