/** `decimal.Decimal` as the repository uses it (github.com/shopspring/decimal v1.4.0):
    an integer coefficient and a power-of-ten exponent. A written trailing zero stays
    in the exponent. Exponents are unbounded here except where text is read. */
module Decimals {
  import opened Numerals

  datatype Dec = Dec(coef: int, exp: int)

  /** `decimal.Zero` carries exponent 1. */
  const ZERO := Dec(0, 1)

  function Min(a: int, b: int): int { if a < b then a else b }

  function Abs(n: int): nat { if n < 0 then -n else n }

  /** Drops the last `k` digits, toward zero: `big.Int.Quo` by 10^k. */
  function DropDigits(c: int, k: nat): int
  {
    Signed(c < 0, HighPart(Abs(c), k))
  }

  /** The coefficient of `d` over the smaller exponent `e`. */
  function CoefAt(d: Dec, e: int): int
    requires e <= d.exp
  {
    Scale(d.coef, d.exp - e)
  }

  function Rescale(d: Dec, e: int): Dec
  {
    if e <= d.exp then Dec(CoefAt(d, e), e) else Dec(DropDigits(d.coef, e - d.exp), e)
  }

  predicate Less(a: Dec, b: Dec)
  {
    var e := Min(a.exp, b.exp);
    CoefAt(a, e) < CoefAt(b, e)
  }

  predicate Equal(a: Dec, b: Dec)
  {
    var e := Min(a.exp, b.exp);
    CoefAt(a, e) == CoefAt(b, e)
  }

  function Add(a: Dec, b: Dec): Dec
  {
    var e := Min(a.exp, b.exp);
    Dec(CoefAt(a, e) + CoefAt(b, e), e)
  }

  function Sub(a: Dec, b: Dec): Dec
  {
    var e := Min(a.exp, b.exp);
    Dec(CoefAt(a, e) - CoefAt(b, e), e)
  }

  function Mul(a: Dec, b: Dec): Dec { Dec(a.coef * b.coef, a.exp + b.exp) }

  function Shift(d: Dec, places: int): Dec { Dec(d.coef, d.exp + places) }

  /** `Truncate`: drops digits beyond `places`, and does nothing when there are none. */
  function Truncate(d: Dec, places: int): Dec
  {
    if places >= 0 && -places > d.exp then Rescale(d, -places) else d
  }

  /** `Round`: half away from zero. */
  function Round(d: Dec, places: int): Dec
  {
    if d.exp == -places then d
    else
      var c := Rescale(d, -places - 1).coef;
      var c' := if c < 0 then c - 5 else c + 5;
      var q := c' / 10;
      Dec(if q < 0 && c' % 10 != 0 then q + 1 else q, -places)
  }

  /** `Div` by one hundred: sixteen digits, half away from zero. The quotient by
      100 * 10^k drops k + 2 digits. */
  function DivHundred(d: Dec): Dec
  {
    var e := d.exp + 16;
    var aa := if e < 0 then d.coef else Scale(d.coef, e);
    var n := if e < 0 then 2 - e else 2;
    var q := DropDigits(aa, n);
    var twiceRest := 2 * Abs(aa - Scale(q, n));
    if Less(Dec(twiceRest, if e < 0 then e else 0), Dec(100, 0)) then Dec(q, -16)
    else if d.coef < 0 then Dec(q - 1, -16)
    else Dec(q + 1, -16)
  }

  // ------------------------------------------------------------- printing

  /** `strings.TrimRight(s, "0")` */
  function TrimZeros(s: string): (t: string)
    ensures |t| <= |s|
  {
    if s != "" && s[|s| - 1] == '0' then TrimZeros(s[..|s| - 1]) else s
  }

  lemma {:induction false} TrimZerosSplit(s: string)
    ensures s == TrimZeros(s) + Zeros(|s| - |TrimZeros(s)|)
    ensures TrimZeros(s) != "" ==> TrimZeros(s)[|TrimZeros(s)| - 1] != '0'
    ensures AllDigits(s) ==> AllDigits(TrimZeros(s))
  {
    if s != "" && s[|s| - 1] == '0' {
      TrimZerosSplit(s[..|s| - 1]);
    }
  }

  /** The digits of `m` left of the dot when it has `p` decimals, and those right of it. */
  function IntDigits(m: nat, p: nat): string
  {
    var str := NatToString(m);
    if |str| > p then str[..|str| - p] else "0"
  }

  function FracDigits(m: nat, p: nat): string
  {
    var str := NatToString(m);
    if |str| > p then str[|str| - p..] else Zeros(p - |str|) + str
  }

  /** The unexported `string` method behind `String` and `StringFixed`. */
  function Format(d: Dec, trimTrailing: bool): string
  {
    if d.exp >= 0 then IntToString(CoefAt(d, 0))
    else SignText(d.coef < 0) + JoinParts(IntDigits(Abs(d.coef), -d.exp), FracDigits(Abs(d.coef), -d.exp), trimTrailing)
  }

  function JoinParts(intPart: string, frac: string, trimTrailing: bool): string
  {
    var kept := if trimTrailing then TrimZeros(frac) else frac;
    if kept == "" then intPart else intPart + "." + kept
  }

  function ToString(d: Dec): string { Format(d, true) }

  function StringFixed(d: Dec, places: int): string { Format(Round(d, places), false) }

  // -------------------------------------------------------------- reading

  const INT32_MIN := -0x8000_0000
  const INT32_MAX := 0x7FFF_FFFF

  predicate IsInt32(n: int) { INT32_MIN <= n <= INT32_MAX }

  predicate IsExpMark(c: char) { c == 'e' || c == 'E' }

  function IndexWhere(s: string, p: char -> bool): (k: nat)
    ensures k <= |s| && (k < |s| ==> p(s[k]))
    ensures forall i :: 0 <= i < k ==> !p(s[i])
  {
    if s == "" || p(s[0]) then 0 else
      var k := IndexWhere(s[1..], p);
      assert forall i :: 1 <= i < k + 1 ==> !p(s[i]) by {
        assert forall i :: 1 <= i < k + 1 ==> s[i] == s[1..][i - 1];
      }
      k + 1
  }

  function NewFromString(value: string): Option<Dec>
  {
    var k := IndexWhere(value, IsExpMark);
    if k == |value| then FromPlain(value, 0)
    else
      match ParseInt(value[k + 1..])
      case None => None
      case Some(n) => if IsInt32(n) then FromPlain(value[..k], n) else None
  }

  predicate IsDot(c: char) { c == '.' }

  /** Text without exponent: the dot is removed and the rest read as one integer. */
  function FromPlain(value: string, exp: int): Option<Dec>
  {
    var p := IndexWhere(value, IsDot);
    if p == |value| then WithExp(ParseInt(value), exp)
    else if '.' in value[p + 1..] then None
    else WithExp(ParseInt(value[..p] + value[p + 1..]), exp - |value[p + 1..]|)
  }

  function WithExp(coef: Option<int>, exp: int): Option<Dec>
  {
    if coef.Some? && IsInt32(exp) then Some(Dec(coef.value, exp)) else None
  }

  lemma IndexWhereUnique(s: string, p: char -> bool, k: nat)
    requires k <= |s| && (k < |s| ==> p(s[k])) && forall i :: 0 <= i < k ==> !p(s[i])
    ensures IndexWhere(s, p) == k
  {
  }

  // -------------------------------------------- normal form of printed text

  /** `m` with its last `p` digits after the dot. */
  function Dotted(m: nat, p: nat, trimTrailing: bool): string
  {
    JoinParts(NatToString(HighPart(m, p)), Fixed(m, p), trimTrailing)
  }

  lemma DigitsOfParts(m: nat, p: nat)
    ensures IntDigits(m, p) == NatToString(HighPart(m, p)) && FracDigits(m, p) == Fixed(m, p)
  {
    if |NatToString(m)| > p {
      NatToStringSplit(m, p);
    } else {
      NatToStringPad(m, p);
      NatToStringLeading(0);
    }
  }

  lemma FormatIsDotted(d: Dec, trimTrailing: bool)
    requires d.exp < 0
    ensures Format(d, trimTrailing) == SignText(d.coef < 0) + Dotted(Abs(d.coef), -d.exp, trimTrailing)
  {
    hide IntDigits, FracDigits, HighPart, Fixed, NatToString, JoinParts;
    DigitsOfParts(Abs(d.coef), -d.exp);
  }

  lemma DottedWhole(m: nat, trimTrailing: bool)
    ensures Dotted(m, 0, trimTrailing) == NatToString(m) == ToString(Dec(m, 0)) == Format(Dec(m, 0), false)
  {
    assert Fixed(m, 0) == "";
  }

  // ------------------------------------------------ reading back what is printed

  predicate IsPlainChar(c: char) { c == '-' || c == '+' || IsDigit(c) }

  predicate PlainText(s: string) { forall i :: 0 <= i < |s| ==> IsPlainChar(s[i]) }

  /** Without exponent mark, everything is decided by the integer left after removing the dot. */
  lemma ReadAtDot(head: string, tail: string)
    requires PlainText(head) && PlainText(tail)
    ensures NewFromString(head + "." + tail) == WithExp(ParseInt(head + tail), -|tail|)
  {
    var s := head + "." + tail;
    assert forall i :: 0 <= i < |s| ==> IsPlainChar(s[i]) || s[i] == '.';
    IndexWhereUnique(s, IsExpMark, |s|);
    assert forall i :: 0 <= i < |head| ==> s[i] == head[i];
    IndexWhereUnique(s, IsDot, |head|);
    assert s[..|head|] == head && s[|head| + 1..] == tail;
  }

  lemma ReadWhole(s: string)
    requires PlainText(s)
    ensures NewFromString(s) == WithExp(ParseInt(s), 0)
  {
    IndexWhereUnique(s, IsExpMark, |s|);
    IndexWhereUnique(s, IsDot, |s|);
  }

  lemma SignedDigitsArePlain(negative: bool, q: string)
    requires AllDigits(q)
    ensures PlainText(SignText(negative) + q)
  {
  }

  /** A dotted digit string reads as its digits over its number of decimals. */
  lemma ReadDotted(negative: bool, q: string, f: string)
    requires AllDigits(q) && AllDigits(f) && AllDigits(q + f) && |q + f| >= 1 && |f| <= 0x8000_0000
    ensures NewFromString(SignText(negative) + q + "." + f) == Some(Dec(Signed(negative, ValueOf(q + f)), -|f|))
  {
    hide NewFromString, ParseInt, ValueOf;
    SignedDigitsArePlain(negative, q);
    SignedDigitsArePlain(false, f);
    assert "" + f == f;
    ReadAtDot(SignText(negative) + q, f);
    ConcatAssoc(SignText(negative), q, f);
    ParseIntOfDigits(negative, q + f);
  }

  /** What a printed number reads back as: fewer digits when trailing zeros were dropped. */
  lemma ReadOfDotted(negative: bool, m: nat, p: nat, trimTrailing: bool) returns (v: nat, k: nat)
    requires p <= 0x8000_0000
    ensures k <= p && (!trimTrailing ==> k == p)
    ensures NewFromString(SignText(negative) + Dotted(m, p, trimTrailing)) == Some(Dec(Signed(negative, v), 0 - k))
    ensures Scale(v, p - k) == m
  {
    hide NewFromString, Fixed, HighPart, NatToString, TrimZeros, ValueOf, Scale;
    var kept := KeptDigits(m, p, trimTrailing);
    k := |kept|;
    v := KeptValue(m, p, kept);
    ReadKept(negative, NatToString(HighPart(m, p)), kept);
  }

  lemma KeptDigits(m: nat, p: nat, trimTrailing: bool) returns (kept: string)
    ensures |kept| <= p && (!trimTrailing ==> |kept| == p) && Fixed(m, p) == kept + Zeros(p - |kept|)
    ensures kept == if trimTrailing then TrimZeros(Fixed(m, p)) else Fixed(m, p)
  {
    if trimTrailing {
      kept := TrimZeros(Fixed(m, p));
      TrimZerosSplit(Fixed(m, p));
    } else {
      kept := Fixed(m, p);
      assert kept + Zeros(0) == kept;
    }
  }

  lemma ReadKept(negative: bool, q: string, kept: string)
    requires AllDigits(q) && AllDigits(kept) && AllDigits(q + kept) && |q| >= 1 && |kept| <= 0x8000_0000
    ensures NewFromString(SignText(negative) + (if kept == "" then q else q + "." + kept)) ==
            Some(Dec(Signed(negative, ValueOf(q + kept)), 0 - |kept|))
  {
    if kept == "" {
      assert q + kept == q;
      SignedDigitsArePlain(negative, q);
      ReadWhole(SignText(negative) + q);
      ParseIntOfDigits(negative, q);
    } else {
      ReadDotted(negative, q, kept);
      ConcatAssoc(SignText(negative), q, "." + kept);
      ConcatAssoc(q, ".", kept);
      ConcatAssoc(SignText(negative) + q, ".", kept);
    }
  }

  lemma KeptValue(m: nat, p: nat, kept: string) returns (v: nat)
    requires |kept| <= p && Fixed(m, p) == kept + Zeros(p - |kept|)
    ensures AllDigits(kept) && AllDigits(NatToString(HighPart(m, p)) + kept)
    ensures v == ValueOf(NatToString(HighPart(m, p)) + kept) && Scale(v, p - |kept|) == m
  {
    var q := NatToString(HighPart(m, p));
    assert forall i :: 0 <= i < |kept| ==> kept[i] == Fixed(m, p)[i];
    v := ValueOf(q + kept);
    JoinedValue(m, p);
    TrailingZerosValue(q + kept, p - |kept|);
    assert q + Fixed(m, p) == (q + kept) + Zeros(p - |kept|);
  }

  // ------------------------------------------------------------- real values

  /** x times ten to the e, for any integer e. */
  function RealScale(x: real, e: int): real
    decreases Abs(e)
  {
    if e == 0 then x else if e > 0 then 10.0 * RealScale(x, e - 1) else RealScale(x, e + 1) / 10.0
  }

  function Value(d: Dec): real { RealScale(d.coef as real, d.exp) }

  lemma {:induction false} RealScaleAdd(x: real, a: int, b: int)
    ensures RealScale(RealScale(x, a), b) == RealScale(x, a + b)
    decreases Abs(b)
  {
    if b > 0 {
      RealScaleAdd(x, a, b - 1);
      RealScaleStep(x, a + b - 1);
    } else if b < 0 {
      RealScaleAdd(x, a, b + 1);
      RealScaleStep(x, a + b);
    }
  }

  lemma RealScaleStep(x: real, e: int)
    ensures RealScale(x, e + 1) == 10.0 * RealScale(x, e)
  {
  }

  lemma {:induction false} RealScaleLinear(x: real, y: real, e: int)
    ensures RealScale(x + y, e) == RealScale(x, e) + RealScale(y, e)
    ensures RealScale(x - y, e) == RealScale(x, e) - RealScale(y, e)
    decreases Abs(e)
  {
    if e != 0 {
      RealScaleLinear(x, y, if e > 0 then e - 1 else e + 1);
    }
  }

  lemma {:induction false} RealScaleOrder(x: real, y: real, e: int)
    ensures x < y <==> RealScale(x, e) < RealScale(y, e)
    ensures x == y <==> RealScale(x, e) == RealScale(y, e)
    ensures RealScale(0.0, e) == 0.0
    decreases Abs(e)
  {
    if e != 0 {
      RealScaleOrder(x, y, if e > 0 then e - 1 else e + 1);
    }
  }

  lemma {:induction false} RealScaleOfInt(x: int, k: nat)
    ensures RealScale(x as real, k) == Scale(x, k) as real
  {
    if k > 0 {
      RealScaleOfInt(x, k - 1);
    }
  }

  lemma {:induction false} RealScaleFactor(x: real, y: real, a: int)
    ensures RealScale(x * y, a) == RealScale(x, a) * y
    decreases Abs(a)
  {
    if a > 0 {
      RealScaleFactor(x, y, a - 1);
      TenTimes(y, RealScale(x, a - 1));
    } else if a < 0 {
      RealScaleFactor(x, y, a + 1);
      RealScaleStep(x, a);
      RealScaleStep(x * y, a);
      TenTimes(y, RealScale(x, a));
    }
  }

  lemma TenTimes(u: real, v: real)
    ensures u * (10.0 * v) == 10.0 * (u * v)
  {
  }

  lemma RealScaleProduct(x: real, y: real, a: int, b: int)
    ensures RealScale(x * y, a + b) == RealScale(x, a) * RealScale(y, b)
  {
    hide RealScale;
    var z := RealScale(y, b);
    calc {
      RealScale(x, a) * z;
      { RealScaleFactor(x, z, a); }
      RealScale(x * z, a);
      { RealScaleFactor(y, x, b); assert x * z == RealScale(y * x, b); }
      RealScale(RealScale(y * x, b), a);
      { RealScaleAdd(y * x, b, a); }
      RealScale(y * x, b + a);
      { assert y * x == x * y && b + a == a + b; }
      RealScale(x * y, a + b);
    }
  }

  lemma CoefAtValue(d: Dec, e: int)
    requires e <= d.exp
    ensures Value(d) == RealScale(CoefAt(d, e) as real, e)
  {
    RealScaleOfInt(d.coef, d.exp - e);
    RealScaleAdd(d.coef as real, d.exp - e, e);
  }

  /** Comparison, sum and difference mean the same on values as on representations. */
  lemma ArithmeticIsExact(a: Dec, b: Dec)
    ensures Less(a, b) <==> Value(a) < Value(b)
    ensures Equal(a, b) <==> Value(a) == Value(b)
    ensures Value(Add(a, b)) == Value(a) + Value(b)
    ensures Value(Sub(a, b)) == Value(a) - Value(b)
  {
    var e := Min(a.exp, b.exp);
    CoefAtValue(a, e);
    CoefAtValue(b, e);
    var x, y := CoefAt(a, e), CoefAt(b, e);
    RealScaleOrder(x as real, y as real, e);
    RealScaleLinear(x as real, y as real, e);
    assert (x + y) as real == x as real + y as real;
    assert (x - y) as real == x as real - y as real;
  }

  lemma MulIsExact(a: Dec, b: Dec)
    ensures Value(Mul(a, b)) == Value(a) * Value(b)
  {
    hide RealScale;
    var x, y := a.coef as real, b.coef as real;
    assert (a.coef * b.coef) as real == x * y;
    RealScaleProduct(x, y, a.exp, b.exp);
  }

  lemma SignOfValue(d: Dec)
    ensures Value(d) < 0.0 <==> d.coef < 0
    ensures Value(d) == 0.0 <==> d.coef == 0
  {
    RealScaleOrder(d.coef as real, 0.0, d.exp);
  }

  // ----------------------------------------------------- division by a hundred

  /** Nearest integer, halves away from zero. */
  function NearestAway(x: real): int
  {
    if x >= 0.0 then (x + 0.5).Floor else -((0.5 - x).Floor)
  }

  lemma NearestAwayMonotone(x: real, y: real)
    requires x <= y
    ensures NearestAway(x) <= NearestAway(y)
  {
  }

  /** Dropping n digits and rounding on what was dropped is rounding to nearest. */
  lemma NearestOfDropped(aa: nat, n: nat, x: real)
    requires RealScale(x, n) == aa as real
    ensures var q := HighPart(aa, n);
            NearestAway(x) == if 2 * (aa - Scale(q, n)) < Scale(1, n) then q else q + 1
    ensures x >= 0.0
  {
    hide NearestAway, HighPart, Scale, RealScale;
    var q := HighPart(aa, n);
    HighPartBounds(aa, n);
    RealScaleOfInt(q, n);
    RealScaleOfInt(q + 1, n);
    RealScaleOfInt(1, n);
    RealScaleOrder(x, q as real, n);
    RealScaleOrder(q as real, x, n);
    RealScaleOrder(x, (q + 1) as real, n);
    RealScaleOrder((q + 1) as real, x, n);
    var y := x - q as real;
    RealScaleLinear(y, q as real, n);
    RealScaleLinear(y, y, n);
    RealScaleOrder(y + y, 1.0, n);
    RealScaleOrder(1.0, y + y, n);
    NearestFrom(x, q);
  }

  lemma NearestFrom(x: real, q: nat)
    requires q as real <= x < (q + 1) as real
    ensures NearestAway(x) == if (x - q as real) + (x - q as real) < 1.0 then q else q + 1
  {
  }

  /** Dividing by a hundred gives the nearest multiple of 10^-16. */
  lemma DivHundredValue(d: Dec)
    ensures DivHundred(d).exp == -16
    ensures DivHundred(d).coef == NearestAway(RealScale(Value(d), 14))
  {
    var e := d.exp + 16;
    var aa := if e < 0 then d.coef else Scale(d.coef, e);
    var n := if e < 0 then 2 - e else 2;
    var x := RealScale(Value(d), 14);
    assert RealScale(x, n) == aa as real by {
      RealScaleAdd(d.coef as real, d.exp, 14);
      RealScaleAdd(d.coef as real, d.exp + 14, n);
      if e >= 0 {
        RealScaleOfInt(d.coef, e);
      }
    }
    assert aa < 0 <==> d.coef < 0 by {
      if e >= 0 {
        ScaleOrder(d.coef, 0, e);
      }
    }
    assert DropDigits(aa, n) == Signed(aa < 0, HighPart(Abs(aa), n));
    RestCompare(2 * Abs(aa - Scale(DropDigits(aa, n), n)), e);
    NearestOfSigned(aa, n, x);
  }

  lemma NearestOfSigned(aa: int, n: nat, x: real)
    requires RealScale(x, n) == aa as real
    ensures var q := DropDigits(aa, n);
            NearestAway(x) == if 2 * Abs(aa - Scale(q, n)) < Scale(1, n) then q
                              else if aa < 0 then q - 1 else q + 1
  {
    HighPartBounds(Abs(aa), n);
    if aa >= 0 {
      NearestOfDropped(aa, n, x);
    } else {
      RealScaleLinear(0.0, x, n);
      RealScaleOrder(x, 0.0, n);
      NearestOfDropped(-aa, n, -x);
      ScaleLinear(0, HighPart(-aa, n), n);
    }
  }

  lemma RestCompare(r: nat, e: int)
    ensures Less(Dec(r, if e < 0 then e else 0), Dec(100, 0)) <==>
            r < Scale(1, if e < 0 then 2 - e else 2)
  {
    assert Scale(1, 2) == 100;
    if e < 0 {
      ScaleAdd(1, 2, -e);
    }
  }

  // ------------------------------------------------------------- exponents

  /** A number with an exponent is the number before the mark, shifted. */
  lemma ExponentShifts(head: string, mark: char, n: int, d: Dec)
    requires (mark == 'e' || mark == 'E') && (forall i :: 0 <= i < |head| ==> head[i] != 'e' && head[i] != 'E')
    requires NewFromString(head) == Some(d) && IsInt32(n)
    ensures NewFromString(head + ([mark] + IntToString(n))) ==
            if IsInt32(d.exp + n) then Some(Dec(d.coef, d.exp + n)) else None
  {
    hide ParseInt, IntToString;
    var text := head + ([mark] + IntToString(n));
    IndexWhereUnique(head, IsExpMark, |head|);
    IndexWhereUnique(text, IsExpMark, |head|);
    assert text[..|head|] == head && text[|head| + 1..] == IntToString(n);
    ParseIntToString(n);
  }
}
