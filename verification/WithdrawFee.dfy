/** The withdraw fee calculator and the gross-amount check (common/withdrawcalc/withdraw_fee.go). */
module WithdrawFee {
  import opened Numerals
  import opened Decimals

  const ACCOUNTING_SCALE := 6

  function TruncateAccounting(d: Dec): Dec { Truncate(d, ACCOUNTING_SCALE) }

  datatype Rule = Rule(
    id: int,
    ruleType: string,
    value: string,
    minFee: Option<string>,
    maxFee: Option<string>,
    minAmount: Option<string>,
    maxAmount: Option<string>)

  datatype Part = Part(
    ruleId: int,
    ruleType: string,
    value: string,
    computed: string,
    minApplied: Option<string>,
    maxApplied: Option<string>,
    result: string)

  /** An absent, blank or unreadable bound is no bound. */
  function Bound(text: Option<string>): Option<Dec>
  {
    if text.Some? && TrimSpace(text.value) != "" then NewFromString(TrimSpace(text.value)) else None
  }

  predicate InRange(amount: Dec, r: Rule)
  {
    var lo, hi := Bound(r.minAmount), Bound(r.maxAmount);
    !(lo.Some? && Less(amount, lo.value)) && !(hi.Some? && !Less(amount, hi.value))
  }

  /** A rule that charges: in range, a readable non-negative value, a known type. */
  predicate Charges(amount: Dec, r: Rule)
  {
    InRange(amount, r) && Priced(r)
  }

  predicate Priced(r: Rule)
  {
    var v := NewFromString(TrimSpace(r.value));
    v.Some? && v.value.coef >= 0 && KindOf(r) != Unknown
  }

  datatype Kind = FixedFee | PercentFee | Unknown

  function KindOf(r: Rule): Kind
  {
    var t := ToLower(TrimSpace(r.ruleType));
    if t == "fixed" then FixedFee else if t == "percent" then PercentFee else Unknown
  }

  function RuleValue(r: Rule): Dec
    requires Priced(r)
  {
    NewFromString(TrimSpace(r.value)).value
  }

  // --------------------------------------------- one rule, as the code computes it

  function PercentRaw(amount: Dec, r: Rule): Dec
    requires Priced(r)
  {
    DivHundred(Mul(amount, RuleValue(r)))
  }

  function AfterMin(amount: Dec, r: Rule): Dec
    requires Priced(r)
  {
    var raw, lo := PercentRaw(amount, r), Bound(r.minFee);
    if lo.Some? && Less(raw, lo.value) then lo.value else raw
  }

  function AfterMax(amount: Dec, r: Rule): Dec
    requires Priced(r)
  {
    var x, hi := AfterMin(amount, r), Bound(r.maxFee);
    if hi.Some? && Less(hi.value, x) then hi.value else x
  }

  function ChargeOf(amount: Dec, r: Rule): Dec
    requires Priced(r)
  {
    if KindOf(r) == FixedFee then RuleValue(r)
    else
      var x := AfterMax(amount, r);
      if x.coef < 0 then ZERO else x
  }

  function PartOf(amount: Dec, r: Rule): Part
    requires Priced(r)
  {
    var text := TrimSpace(r.value);
    if KindOf(r) == FixedFee then
      Part(r.id, "fixed", text, ToString(RuleValue(r)), None, None, ToString(RuleValue(r)))
    else
      var raw, lo, hi := PercentRaw(amount, r), Bound(r.minFee), Bound(r.maxFee);
      var x := AfterMin(amount, r);
      Part(r.id, "percent", text, ToString(raw),
           if lo.Some? && Less(raw, lo.value) then Some(ToString(lo.value)) else None,
           if hi.Some? && Less(hi.value, x) then Some(ToString(hi.value)) else None,
           ToString(ChargeOf(amount, r)))
  }

  // ------------------------------------------------------- the specification

  /** Sixteen-digit rounding of amount * percent / 100. */
  function PercentOf(a: real, v: real): real
  {
    RealScale(NearestAway(RealScale(a * v, 14)) as real, -16)
  }

  function Cap(x: real, hi: Option<Dec>): real
  {
    if hi.Some? && Value(hi.value) < x then Value(hi.value) else x
  }

  function Floor(x: real, lo: Option<Dec>): real
  {
    if lo.Some? && x < Value(lo.value) then Value(lo.value) else x
  }

  predicate InRangeAt(a: real, r: Rule)
  {
    var lo, hi := Bound(r.minAmount), Bound(r.maxAmount);
    (lo.Some? ==> Value(lo.value) <= a) && (hi.Some? ==> a < Value(hi.value))
  }

  /** What one rule adds to the fee for an amount of value `a`. */
  function ChargeAt(a: real, r: Rule): real
  {
    if !Priced(r) || !InRangeAt(a, r) then 0.0
    else if KindOf(r) == FixedFee then Value(RuleValue(r))
    else
      var x := Cap(Floor(PercentOf(a, Value(RuleValue(r))), Bound(r.minFee)), Bound(r.maxFee));
      if x < 0.0 then 0.0 else x
  }

  predicate OfKind(r: Rule, kind: Kind) { KindOf(r) == kind }

  /** Sum over the rules of one kind. */
  function SumOfKind(a: real, rules: seq<Rule>, kind: Kind): real
  {
    if rules == [] then 0.0
    else
      var r := rules[|rules| - 1];
      SumOfKind(a, rules[..|rules| - 1], kind) + (if OfKind(r, kind) then ChargeAt(a, r) else 0.0)
  }

  function FeeAt(a: real, rules: seq<Rule>): real
  {
    if rules == [] then 0.0
    else FeeAt(a, rules[..|rules| - 1]) + ChargeAt(a, rules[|rules| - 1])
  }

  /** The audit parts, one for each rule that charges, in rule order. */
  function PartsOf(amount: Dec, rules: seq<Rule>): seq<Part>
  {
    if rules == [] then []
    else
      var r := rules[|rules| - 1];
      PartsOf(amount, rules[..|rules| - 1]) + (if Charges(amount, r) then [PartOf(amount, r)] else [])
  }

  /** The sum of the parts' results, read back from their printed form. */
  function SumOfResults(parts: seq<Part>): real
  {
    if parts == [] then 0.0
    else
      var d := NewFromString(parts[|parts| - 1].result);
      SumOfResults(parts[..|parts| - 1]) + (if d.Some? then Value(d.value) else 0.0)
  }

  // ------------------------------------------------------------- the loop

  method BuildWithdrawFee(amount: Dec, rules: seq<Rule>)
    returns (total: Dec, fixedTotal: Dec, percentTotal: Dec, parts: seq<Part>)
    ensures Value(total) == FeeAt(Value(amount), rules)
    ensures Value(fixedTotal) == SumOfKind(Value(amount), rules, FixedFee)
    ensures Value(percentTotal) == SumOfKind(Value(amount), rules, PercentFee)
    ensures Value(total) == Value(fixedTotal) + Value(percentTotal)
    ensures total.coef >= 0 && fixedTotal.coef >= 0 && percentTotal.coef >= 0
    ensures parts == PartsOf(amount, rules)
  {
    hide Value, ChargeAt, PartOf, Less, Add, NewFromString, DivHundred, Mul, Priced, TrimSpace, KindOf, Bound;
    var a := Value(amount);
    total, fixedTotal, percentTotal, parts := ZERO, ZERO, ZERO, [];
    ZeroValue();
    for i := 0 to |rules|
      invariant Value(total) == FeeAt(a, rules[..i])
      invariant Value(fixedTotal) == SumOfKind(a, rules[..i], FixedFee)
      invariant Value(percentTotal) == SumOfKind(a, rules[..i], PercentFee)
      invariant Value(total) == Value(fixedTotal) + Value(percentTotal)
      invariant Value(fixedTotal) >= 0.0 && Value(percentTotal) >= 0.0
      invariant parts == PartsOf(amount, rules[..i])
    {
      var r := rules[i];
      assert rules[..i + 1][..i] == rules[..i] && rules[..i + 1][i] == r;
      ChargeMatches(amount, r);
      if !InRange(amount, r) || !Priced(r) {
        continue;
      }
      var result := ChargeOf(amount, r);
      ArithmeticIsExact(total, result);
      if KindOf(r) == FixedFee {
        ArithmeticIsExact(fixedTotal, result);
        fixedTotal := Add(fixedTotal, result);
      } else {
        ArithmeticIsExact(percentTotal, result);
        percentTotal := Add(percentTotal, result);
      }
      total := Add(total, result);
      parts := parts + [PartOf(amount, r)];
    }
    assert rules[..|rules|] == rules;
    SignOfValue(total);
    SignOfValue(fixedTotal);
    SignOfValue(percentTotal);
    if total.coef < 0 {
      total := ZERO;
    }
  }

  lemma ZeroValue()
    ensures Value(ZERO) == 0.0
  {
    SignOfValue(ZERO);
  }

  lemma InRangeMatches(amount: Dec, r: Rule)
    ensures InRange(amount, r) <==> InRangeAt(Value(amount), r)
  {
    hide Value, Less, Bound;
    var lo, hi := Bound(r.minAmount), Bound(r.maxAmount);
    if lo.Some? {
      ArithmeticIsExact(amount, lo.value);
    }
    if hi.Some? {
      ArithmeticIsExact(amount, hi.value);
    }
  }

  lemma PercentMatches(amount: Dec, r: Rule)
    requires Priced(r)
    ensures Value(PercentRaw(amount, r)) == PercentOf(Value(amount), Value(RuleValue(r)))
  {
    hide Priced, Value, DivHundred, Mul, PercentOf, RuleValue;
    MulIsExact(amount, RuleValue(r));
    PercentOfProduct(Mul(amount, RuleValue(r)), Value(amount), Value(RuleValue(r)));
  }

  lemma PercentOfProduct(m: Dec, a: real, v: real)
    requires Value(m) == a * v
    ensures Value(DivHundred(m)) == PercentOf(a, v)
  {
    var x := a * v;
    DivHundredValue(m);
    assert Value(DivHundred(m)) == RealScale(DivHundred(m).coef as real, -16) by { hide DivHundred; }
    assert DivHundred(m).coef == NearestAway(RealScale(x, 14));
  }

  lemma ClampMatches(amount: Dec, r: Rule)
    requires Priced(r)
    ensures Value(AfterMax(amount, r)) ==
            Cap(Floor(PercentOf(Value(amount), Value(RuleValue(r))), Bound(r.minFee)), Bound(r.maxFee))
  {
    hide Value, Less, Bound, Priced, PercentRaw, PercentOf;
    PercentMatches(amount, r);
    var lo, hi := Bound(r.minFee), Bound(r.maxFee);
    if lo.Some? {
      ArithmeticIsExact(PercentRaw(amount, r), lo.value);
    }
    if hi.Some? {
      ArithmeticIsExact(hi.value, AfterMin(amount, r));
    }
  }

  /** The computed charge has the specified value, and is never negative. */
  lemma ChargeMatches(amount: Dec, r: Rule)
    ensures InRange(amount, r) <==> InRangeAt(Value(amount), r)
    ensures Charges(amount, r) ==> Value(ChargeOf(amount, r)) == ChargeAt(Value(amount), r)
    ensures !Charges(amount, r) ==> ChargeAt(Value(amount), r) == 0.0
    ensures ChargeAt(Value(amount), r) >= 0.0
    ensures Charges(amount, r) ==> KindOf(r) == FixedFee || KindOf(r) == PercentFee
  {
    InRangeMatches(amount, r);
    if Priced(r) {
      SignOfValue(RuleValue(r));
      ClampMatches(amount, r);
      hide Value, AfterMax, Cap, Floor, PercentOf, InRange, InRangeAt;
      SignOfValue(AfterMax(amount, r));
      ZeroValue();
    }
  }

  // ------------------------------------------------- properties of the fee

  lemma ChargeNonNegative(a: real, r: Rule)
    ensures ChargeAt(a, r) >= 0.0
  {
    if Priced(r) {
      SignOfValue(RuleValue(r));
    }
  }

  /** The fee over a list is the fixed part plus the percent part, each non-negative. */
  lemma {:induction false} FeeSplitsByKind(a: real, rules: seq<Rule>)
    ensures FeeAt(a, rules) == SumOfKind(a, rules, FixedFee) + SumOfKind(a, rules, PercentFee)
    ensures SumOfKind(a, rules, FixedFee) >= 0.0 && SumOfKind(a, rules, PercentFee) >= 0.0
  {
    hide ChargeAt;
    if rules != [] {
      var r := rules[|rules| - 1];
      FeeSplitsByKind(a, rules[..|rules| - 1]);
      ChargeNonNegative(a, r);
      UnknownChargesNothing(a, r);
    }
  }

  lemma UnknownChargesNothing(a: real, r: Rule)
    ensures KindOf(r) == Unknown ==> ChargeAt(a, r) == 0.0
  {
  }

  /** The fee is the sum of what the audit parts report, as printed. */
  lemma {:induction false} PartsAddUp(amount: Dec, rules: seq<Rule>)
    ensures SumOfResults(PartsOf(amount, rules)) == FeeAt(Value(amount), rules)
  {
    if rules != [] {
      hide ChargeAt, Priced, InRange, ChargeOf, PartOf, Value, NewFromString, ToString, PartsOf, SumOfResults;
      var r := rules[|rules| - 1];
      var rest := rules[..|rules| - 1];
      assert rest + [r] == rules;
      PartsAddUp(amount, rest);
      PartsStep(amount, rest, r);
      ChargeMatches(amount, r);
      if Charges(amount, r) {
        ResultsStep(PartsOf(amount, rest), PartOf(amount, r));
        ResultOfPart(amount, r);
      }
    }
  }

  lemma ResultOfPart(amount: Dec, r: Rule)
    requires Charges(amount, r)
    ensures var d := NewFromString(PartOf(amount, r).result);
            d.Some? && Value(d.value) == Value(ChargeOf(amount, r))
  {
    hide NewFromString, Value, ToString, InRange, Priced, KindOf, ChargeOf, PercentRaw, AfterMin, Bound;
    ChargeExponent(amount, r);
    PrintReads(ChargeOf(amount, r));
    assert KindOf(r) == FixedFee ==> ChargeOf(amount, r) == RuleValue(r) by { FixedChargeOf(amount, r); }
  }

  lemma FixedChargeOf(amount: Dec, r: Rule)
    requires Priced(r)
    ensures KindOf(r) == FixedFee ==> ChargeOf(amount, r) == RuleValue(r)
  {
    hide Priced, KindOf, AfterMax, RuleValue;
  }

  lemma ChargeExponent(amount: Dec, r: Rule)
    requires Priced(r)
    ensures ChargeOf(amount, r).exp >= INT32_MIN
  {
    hide NewFromString, InRange, Less, DivHundred, KindOf, Mul, TrimSpace, Value, NearestAway;
    ReadExponent(TrimSpace(r.value));
    if r.minFee.Some? {
      ReadExponent(TrimSpace(r.minFee.value));
    }
    if r.maxFee.Some? {
      ReadExponent(TrimSpace(r.maxFee.value));
    }
    DivHundredValue(Mul(amount, RuleValue(r)));
  }

  lemma ReadExponent(s: string)
    ensures NewFromString(s).Some? ==> IsInt32(NewFromString(s).value.exp)
  {
  }

  lemma PartsStep(amount: Dec, rest: seq<Rule>, r: Rule)
    ensures PartsOf(amount, rest + [r]) ==
            if Charges(amount, r) then PartsOf(amount, rest) + [PartOf(amount, r)] else PartsOf(amount, rest)
  {
    hide Charges, PartOf;
    assert (rest + [r])[..|rest|] == rest;
  }

  lemma ResultsStep(parts: seq<Part>, p: Part)
    ensures var d := NewFromString(p.result);
            SumOfResults(parts + [p]) == SumOfResults(parts) + if d.Some? then Value(d.value) else 0.0
  {
    hide NewFromString, Value;
    assert (parts + [p])[..|parts|] == parts;
  }

  /** Printed decimals read back with the same value. */
  lemma PrintReads(d: Dec)
    requires d.exp >= INT32_MIN
    ensures NewFromString(ToString(d)).Some?
    ensures Value(NewFromString(ToString(d)).value) == Value(d)
  {
    if d.exp >= 0 {
      WholeReads(d);
    } else {
      FractionReads(d, -d.exp);
    }
  }

  lemma WholeReads(d: Dec)
    requires d.exp >= 0
    ensures NewFromString(ToString(d)) == Some(Dec(CoefAt(d, 0), 0))
    ensures Value(Dec(CoefAt(d, 0), 0)) == Value(d)
  {
    hide NewFromString, Scale, NatToString, CoefAt;
    var c := CoefAt(d, 0);
    CoefAtValue(d, 0);
    IntTextIsPlain(c);
    ReadWhole(IntToString(c));
    ParseIntToString(c);
  }

  lemma IntTextIsPlain(c: int)
    ensures PlainText(IntToString(c))
  {
    SignedDigitsArePlain(c < 0, NatToString(Abs(c)));
    assert "" + NatToString(Abs(c)) == NatToString(Abs(c));
  }

  lemma FractionReads(d: Dec, p: nat)
    requires p > 0 && d.exp == -(p as int) && d.exp >= INT32_MIN
    ensures NewFromString(ToString(d)).Some?
    ensures Value(NewFromString(ToString(d)).value) == Value(d)
  {
    FormatIsDotted(d, true);
    hide NewFromString, Format, Dotted, Scale, Value, CoefAt;
    var v, k := ReadOfDotted(d.coef < 0, Abs(d.coef), p, true);
    SameScaled(v, p, k, d.coef);
  }

  lemma SameScaled(v: nat, p: nat, k: nat, c: int)
    requires k <= p && Scale(v, p - k) == Abs(c)
    ensures Value(Dec(Signed(c < 0, v), 0 - k)) == Value(Dec(c, 0 - p))
  {
    hide Scale, RealScale;
    var places: int := k;
    ScaleLinear(0, v, p - k);
    CoefAtValue(Dec(Signed(c < 0, v), -places), 0 - p);
  }

  /** Additive over concatenation of rule lists. */
  lemma {:induction false} FeeConcat(a: real, xs: seq<Rule>, ys: seq<Rule>)
    ensures FeeAt(a, xs + ys) == FeeAt(a, xs) + FeeAt(a, ys)
  {
    hide ChargeAt;
    if ys == [] {
      assert xs + ys == xs;
    } else {
      FeeConcat(a, xs, ys[..|ys| - 1]);
      assert (xs + ys)[..|xs + ys| - 1] == xs + ys[..|ys| - 1];
    }
  }

  /** Unchanged by any reordering of the rules. */
  lemma {:induction false} FeeReorder(a: real, xs: seq<Rule>, ys: seq<Rule>)
    requires multiset(xs) == multiset(ys)
    ensures FeeAt(a, xs) == FeeAt(a, ys)
    decreases |xs|
  {
    hide ChargeAt;
    if xs == [] {
      assert |multiset(ys)| == |ys|;
    } else {
      var r, rest := xs[|xs| - 1], xs[..|xs| - 1];
      assert xs == rest + [r];
      assert r in multiset(ys);
      var k :| 0 <= k < |ys| && ys[k] == r;
      var pre, post := ys[..k], ys[k + 1..];
      assert ys == pre + [r] + post;
      RemoveOne(xs, rest, ys, pre, post, r);
      FeeReorder(a, rest, pre + post);
      FeeConcat(a, pre, post);
      FeeConcat(a, pre + [r], post);
      FeeConcat(a, pre, [r]);
      assert [r][..0] == [];
    }
  }

  lemma RemoveOne(xs: seq<Rule>, rest: seq<Rule>, ys: seq<Rule>, pre: seq<Rule>, post: seq<Rule>, r: Rule)
    requires multiset(xs) == multiset(ys) && xs == rest + [r] && ys == pre + [r] + post
    ensures multiset(rest) == multiset(pre + post)
  {
    assert multiset(xs) == multiset(rest) + multiset{r};
    assert multiset(ys) == multiset(pre + post) + multiset{r};
    assert multiset(rest) == multiset(xs) - multiset{r};
    assert multiset(pre + post) == multiset(ys) - multiset{r};
  }

  // ------------------------------------------------- the rule's own text

  predicate TypeIs(r: Rule, name: string) { ToLower(TrimSpace(r.ruleType)) == name }

  /** The text is there and is read as `d`. */
  predicate Given(text: Option<string>, d: Dec)
  {
    text.Some? && TrimSpace(text.value) != "" && NewFromString(TrimSpace(text.value)) == Some(d)
  }

  /** From the least amount on, and below the greatest, as far as they are given. */
  ghost predicate AmountFits(a: real, r: Rule)
  {
    (forall d: Dec :: Given(r.minAmount, d) ==> Value(d) <= a) &&
    (forall d: Dec :: Given(r.maxAmount, d) ==> a < Value(d))
  }

  lemma BoundExactly(text: Option<string>)
    ensures forall d: Dec :: Bound(text) == Some(d) <==> Given(text, d)
  {
    hide NewFromString, TrimSpace;
  }

  lemma AmountFitsExactly(a: real, r: Rule)
    ensures AmountFits(a, r) <==> InRangeAt(a, r)
  {
    hide Bound, Given, Value;
    BoundExactly(r.minAmount);
    BoundExactly(r.maxAmount);
  }

  /** A rule charges exactly when the amount fits, the value is read as a number not below zero,
      and the type is one of the two. */
  lemma ChargesExactly(amount: Dec, r: Rule)
    ensures Charges(amount, r) <==>
            AmountFits(Value(amount), r) && (TypeIs(r, "fixed") || TypeIs(r, "percent")) &&
            exists v: Dec :: NewFromString(TrimSpace(r.value)) == Some(v) && Value(v) >= 0.0
  {
    hide NewFromString, TrimSpace, ToLower, InRange, InRangeAt, Value, AmountFits;
    InRangeMatches(amount, r);
    AmountFitsExactly(Value(amount), r);
    if v: Dec :| NewFromString(TrimSpace(r.value)) == Some(v) {
      SignOfValue(v);
    }
  }

  /** A rule that does not charge adds nothing: one out of range, one whose value cannot be read or
      is negative, one of any other type. */
  lemma OthersChargeNothing(amount: Dec, r: Rule)
    requires !AmountFits(Value(amount), r) || (!TypeIs(r, "fixed") && !TypeIs(r, "percent")) ||
             forall v: Dec :: NewFromString(TrimSpace(r.value)) == Some(v) ==> Value(v) < 0.0
    ensures ChargeAt(Value(amount), r) == 0.0 && PartsOf(amount, [r]) == []
  {
    hide NewFromString, TrimSpace, ToLower, InRange, InRangeAt, Value, AmountFits, Priced;
    ChargesExactly(amount, r);
    ChargeMatches(amount, r);
    assert [r][..0] == [];
  }

  /** A "fixed" rule charges its value, whatever the amount, and says so. */
  lemma FixedCharge(amount: Dec, r: Rule, v: Dec)
    requires TypeIs(r, "fixed") && NewFromString(TrimSpace(r.value)) == Some(v) && Value(v) >= 0.0
    requires AmountFits(Value(amount), r)
    ensures ChargeAt(Value(amount), r) == Value(v)
    ensures PartsOf(amount, [r]) == [Part(r.id, "fixed", TrimSpace(r.value), ToString(v), None, None, ToString(v))]
  {
    hide NewFromString, TrimSpace, InRange, InRangeAt, Value, AmountFits, ToString, AfterMin, PercentRaw;
    ChargesExactly(amount, r);
    AmountFitsExactly(Value(amount), r);
    SignOfValue(v);
    assert [r][..0] == [];
  }

  /** Rounded to sixteen decimals, half away from zero, a percentage is off by at most half of the
      sixteenth decimal. */
  lemma PercentIsClose(a: real, v: real)
    ensures -0.00000000000000005 <= PercentOf(a, v) - a * v / 100.0 <= 0.00000000000000005
  {
    hide RealScale, NearestAway;
    var x := a * v;
    var y := RealScale(x, 14);
    var n := NearestAway(y) as real;
    NearestIsClose(y);
    RealScaleAdd(x, 14, -16);
    HundredthOf(x);
    SixteenDown(n - 0.5, y);
    SixteenDown(y, n + 0.5);
    RealScaleLinear(n, 0.5, -16);
    RealScaleLinear(n - 0.5, 0.5, -16);
    HalfOfSixteenth();
  }

  lemma NearestIsClose(y: real)
    ensures NearestAway(y) as real - 0.5 <= y <= NearestAway(y) as real + 0.5
  {
  }

  lemma HundredthOf(x: real)
    ensures RealScale(x, -2) == x / 100.0
  {
    assert RealScale(x, -1) == x / 10.0;
  }

  lemma SixteenDown(x: real, y: real)
    requires x <= y
    ensures RealScale(x, -16) <= RealScale(y, -16)
  {
    RealScaleOrder(x, y, -16);
    RealScaleOrder(y, x, -16);
  }

  lemma HalfOfSixteenth()
    ensures RealScale(0.5, -16) == 0.00000000000000005
  {
    RealScaleAdd(0.5, -4, -4);
    RealScaleAdd(0.5, -8, -8);
    RealScaleAdd(RealScale(0.5, -8), -4, -4);
    FourDown(0.5);
    FourDown(0.00005);
    FourDown(0.000000005);
    FourDown(0.0000000000005);
  }

  lemma FourDown(x: real)
    ensures RealScale(x, -4) == x / 10000.0
  {
    assert RealScale(x, -1) == x / 10.0 && RealScale(x, -2) == RealScale(x, -1) / 10.0;
    assert RealScale(x, -3) == RealScale(x, -2) / 10.0;
  }

  /** `y` is `x`, raised to the least fee where one is given that is more; `shown` says so. */
  ghost predicate Raised(text: Option<string>, x: Dec, y: Dec, shown: Option<string>)
  {
    (forall d: Dec :: Given(text, d) && Value(d) > Value(x) ==> y == d && shown == Some(ToString(d))) &&
    ((forall d: Dec :: Given(text, d) ==> Value(d) <= Value(x)) ==> y == x && shown == None)
  }

  /** `y` is `x`, lowered to the greatest fee where one is given that is less; `shown` says so. */
  ghost predicate Lowered(text: Option<string>, x: Dec, y: Dec, shown: Option<string>)
  {
    (forall d: Dec :: Given(text, d) && Value(d) < Value(x) ==> y == d && shown == Some(ToString(d))) &&
    ((forall d: Dec :: Given(text, d) ==> Value(d) >= Value(x)) ==> y == x && shown == None)
  }

  lemma RaisedByMin(amount: Dec, r: Rule)
    requires Priced(r) && KindOf(r) == PercentFee
    ensures Raised(r.minFee, PercentRaw(amount, r), AfterMin(amount, r), PartOf(amount, r).minApplied)
  {
    hide Given, Bound, PercentRaw, Value, Less, Priced, KindOf, ToString, ChargeOf, RuleValue;
    BoundExactly(r.minFee);
    if Bound(r.minFee).Some? {
      ArithmeticIsExact(PercentRaw(amount, r), Bound(r.minFee).value);
    }
  }

  lemma LoweredByMax(amount: Dec, r: Rule)
    requires Priced(r) && KindOf(r) == PercentFee
    ensures Lowered(r.maxFee, AfterMin(amount, r), AfterMax(amount, r), PartOf(amount, r).maxApplied)
  {
    hide Given, Bound, PercentRaw, AfterMin, Value, Less, Priced, KindOf, ToString, ChargeOf, RuleValue;
    BoundExactly(r.maxFee);
    if Bound(r.maxFee).Some? {
      ArithmeticIsExact(Bound(r.maxFee).value, AfterMin(amount, r));
    }
  }

  /** A "percent" rule charges the rounded percentage, raised to the least fee where that is more,
      then lowered to the greatest where that is less, and never below zero. Its part shows the
      percentage, the bounds that applied and the charge. */
  lemma PercentCharge(amount: Dec, r: Rule, v: Dec) returns (raw: Dec, raised: Dec, capped: Dec, p: Part)
    requires TypeIs(r, "percent") && NewFromString(TrimSpace(r.value)) == Some(v) && Value(v) >= 0.0
    requires AmountFits(Value(amount), r)
    ensures var exact := Value(amount) * Value(v) / 100.0;
            -0.00000000000000005 <= Value(raw) - exact <= 0.00000000000000005
    ensures Raised(r.minFee, raw, raised, p.minApplied) && Lowered(r.maxFee, raised, capped, p.maxApplied)
    ensures ChargeAt(Value(amount), r) == if Value(capped) < 0.0 then 0.0 else Value(capped)
    ensures PartsOf(amount, [r]) == [p] && p.ruleId == r.id && p.ruleType == "percent" && p.value == TrimSpace(r.value)
    ensures p.computed == ToString(raw) && p.result == if Value(capped) < 0.0 then "0" else ToString(capped)
  {
    hide NewFromString, TrimSpace, InRange, InRangeAt, Value, AmountFits, ToString, AfterMin, AfterMax, PercentRaw,
      TypeIs, Bound, Less, PercentOf, ChargeAt, ChargeOf, Raised, Lowered, Priced, KindOf, PartOf, PartsOf, RuleValue;
    ChargesExactly(amount, r);
    ChargeMatches(amount, r);
    IsPercent(amount, r, v);
    raw, raised, capped, p := PercentRaw(amount, r), AfterMin(amount, r), AfterMax(amount, r), PartOf(amount, r);
    RaisedByMin(amount, r);
    LoweredByMax(amount, r);
    PercentMatches(amount, r);
    PercentIsClose(Value(amount), Value(v));
    PercentPart(amount, r);
  }

  lemma PercentPart(amount: Dec, r: Rule)
    requires Charges(amount, r) && KindOf(r) == PercentFee
    ensures var p, x := PartOf(amount, r), AfterMax(amount, r);
            PartsOf(amount, [r]) == [p] && p.ruleId == r.id && p.ruleType == "percent" &&
            p.value == TrimSpace(r.value) && p.computed == ToString(PercentRaw(amount, r)) &&
            p.result == (if Value(x) < 0.0 then "0" else ToString(x)) &&
            Value(ChargeOf(amount, r)) == if Value(x) < 0.0 then 0.0 else Value(x)
  {
    hide TrimSpace, InRange, Value, ToString, AfterMin, AfterMax, PercentRaw, Priced, KindOf;
    SignOfValue(AfterMax(amount, r));
    ZeroText();
    ZeroValue();
    assert [r][..0] == [];
  }

  lemma IsPercent(amount: Dec, r: Rule, v: Dec)
    requires TypeIs(r, "percent") && NewFromString(TrimSpace(r.value)) == Some(v) && Value(v) >= 0.0
    ensures Priced(r) && KindOf(r) == PercentFee && RuleValue(r) == v
  {
    hide NewFromString, TrimSpace, Value;
    SignOfValue(v);
  }

  lemma ZeroText()
    ensures ToString(ZERO) == "0"
  {
  }

  /** The charges of the rules whose type reads `name`. */
  function SumOfType(a: real, rules: seq<Rule>, name: string): real
  {
    if rules == [] then 0.0
    else
      var r := rules[|rules| - 1];
      SumOfType(a, rules[..|rules| - 1], name) + if TypeIs(r, name) then ChargeAt(a, r) else 0.0
  }

  /** The two totals of the breakdown are those of the two types. */
  lemma {:induction false} TotalsAreByType(a: real, rules: seq<Rule>)
    ensures SumOfKind(a, rules, FixedFee) == SumOfType(a, rules, "fixed")
    ensures SumOfKind(a, rules, PercentFee) == SumOfType(a, rules, "percent")
  {
    hide ChargeAt, TrimSpace, ToLower;
    if rules != [] {
      TotalsAreByType(a, rules[..|rules| - 1]);
    }
  }

  // --------------------------------------------------------- monotone fees

  lemma FloorCapMonotone(x: real, y: real, lo: Option<Dec>, hi: Option<Dec>)
    requires x <= y
    ensures Cap(Floor(x, lo), hi) <= Cap(Floor(y, lo), hi)
  {
  }

  lemma PercentMonotone(a: real, b: real, v: real)
    requires a <= b && v >= 0.0
    ensures PercentOf(a, v) <= PercentOf(b, v)
  {
    var x, y := a * v, b * v;
    assert x <= y by { assert (b - a) * v >= 0.0; }
    RealScaleOrder(x, y, 14);
    RealScaleOrder(y, x, 14);
    NearestAwayMonotone(RealScale(x, 14), RealScale(y, 14));
    RealScaleOrder(NearestAway(RealScale(y, 14)) as real, NearestAway(RealScale(x, 14)) as real, -16);
  }

  /** While the same rules apply, a larger amount never pays a smaller fee. */
  lemma {:induction false} FeeMonotone(a: real, b: real, rules: seq<Rule>)
    requires a <= b
    requires forall r <- rules :: InRangeAt(a, r) <==> InRangeAt(b, r)
    ensures FeeAt(a, rules) <= FeeAt(b, rules)
  {
    hide ChargeAt, InRangeAt;
    if rules != [] {
      var r := rules[|rules| - 1];
      assert forall x <- rules[..|rules| - 1] :: x in rules;
      FeeMonotone(a, b, rules[..|rules| - 1]);
      ChargeMonotone(a, b, r);
    }
  }

  lemma ChargeMonotone(a: real, b: real, r: Rule)
    requires a <= b && (InRangeAt(a, r) <==> InRangeAt(b, r))
    ensures ChargeAt(a, r) <= ChargeAt(b, r)
  {
    hide InRangeAt, PercentOf, Value, Cap, Floor, NewFromString, TrimSpace, Bound, KindOf;
    if Priced(r) {
      var v := Value(RuleValue(r));
      SignOfValue(RuleValue(r));
      PercentMonotone(a, b, v);
      FloorCapMonotone(PercentOf(a, v), PercentOf(b, v), Bound(r.minFee), Bound(r.maxFee));
    }
  }

  /** The clamp: the maximum binds always (unless negative), the minimum only below it. */
  lemma ClampOrder(a: real, r: Rule)
    requires Priced(r) && InRangeAt(a, r) && KindOf(r) == PercentFee
    ensures var lo, hi := Bound(r.minFee), Bound(r.maxFee);
            (hi.Some? && Value(hi.value) >= 0.0 ==> ChargeAt(a, r) <= Value(hi.value)) &&
            (lo.Some? && (hi.None? || Value(lo.value) <= Value(hi.value)) ==> ChargeAt(a, r) >= Value(lo.value)) &&
            (lo.Some? && hi.Some? && 0.0 <= Value(hi.value) <= Value(lo.value) ==> ChargeAt(a, r) == Value(hi.value))
  {
    hide PercentOf, Value, InRangeAt, Bound, Cap, Floor, Priced, KindOf, RuleValue;
    ClampFacts(PercentOf(a, Value(RuleValue(r))), Bound(r.minFee), Bound(r.maxFee));
  }

  lemma ClampFacts(x: real, lo: Option<Dec>, hi: Option<Dec>)
    ensures var y := Cap(Floor(x, lo), hi);
            (hi.Some? ==> y <= Value(hi.value)) &&
            (lo.Some? && (hi.None? || Value(lo.value) <= Value(hi.value)) ==> y >= Value(lo.value)) &&
            (lo.Some? && hi.Some? && Value(hi.value) <= Value(lo.value) ==> y == Value(hi.value))
  {
    hide Value;
  }

  // -------------------------------------------------------------- tiers

  /** Ranges laid end to end: below the first cut, between cuts, and from the last cut on. */
  predicate Tiled(rules: seq<Rule>, cuts: seq<Dec>)
  {
    |rules| == |cuts| + 1 &&
    (forall i, j :: 0 <= i < j < |cuts| ==> Value(cuts[i]) <= Value(cuts[j])) &&
    (forall i :: 0 <= i < |rules| ==>
      Bound(rules[i].minAmount) == (if i == 0 then None else Some(cuts[i - 1])) &&
      Bound(rules[i].maxAmount) == (if i == |cuts| then None else Some(cuts[i])))
  }

  /** The tier of an amount: how many cuts lie at or below it. */
  function Tier(a: real, cuts: seq<Dec>): (k: nat)
    ensures k <= |cuts|
    ensures forall i :: 0 <= i < k ==> Value(cuts[i]) <= a
    ensures k < |cuts| ==> a < Value(cuts[k])
  {
    if cuts == [] || a < Value(cuts[0]) then 0
    else
      var k := Tier(a, cuts[1..]);
      assert forall i :: 1 <= i < k + 1 ==> cuts[i] == cuts[1..][i - 1];
      k + 1
  }

  /** Tiled rules put every amount in the range of exactly one rule. */
  lemma ExactlyOneTier(a: real, rules: seq<Rule>, cuts: seq<Dec>)
    requires Tiled(rules, cuts)
    ensures forall i :: 0 <= i < |rules| ==> (InRangeAt(a, rules[i]) <==> i == Tier(a, cuts))
  {
    hide Value, Bound;
    var k := Tier(a, cuts);
    forall i | 0 <= i < |rules| ensures InRangeAt(a, rules[i]) <==> i == k {
      if i < k {
        assert Value(cuts[i]) <= a;
      } else if i > k {
        assert Value(cuts[k]) <= Value(cuts[i - 1]) || k == i - 1;
      }
    }
  }

  /** So the fee is the charge of that rule alone. */
  lemma TieredFee(a: real, rules: seq<Rule>, cuts: seq<Dec>)
    requires Tiled(rules, cuts)
    ensures FeeAt(a, rules) == ChargeAt(a, rules[Tier(a, cuts)])
  {
    hide ChargeAt, Tier, Value, Bound, InRangeAt;
    ExactlyOneTier(a, rules, cuts);
    var k := Tier(a, cuts);
    var r := rules[k];
    assert rules == rules[..k] + [r] + rules[k + 1..];
    FeeConcat(a, rules[..k] + [r], rules[k + 1..]);
    FeeConcat(a, rules[..k], [r]);
    OneCharge(a, r);
    assert forall x <- rules[..k] :: !InRangeAt(a, x);
    OutOfRangeFree(a, rules[..k]);
    assert forall x <- rules[k + 1..] :: !InRangeAt(a, x);
    OutOfRangeFree(a, rules[k + 1..]);
  }

  lemma OneCharge(a: real, r: Rule)
    ensures FeeAt(a, [r]) == ChargeAt(a, r)
  {
    hide ChargeAt;
    assert [r][..0] == [];
  }

  lemma {:induction false} OutOfRangeFree(a: real, rules: seq<Rule>)
    requires forall r <- rules :: !InRangeAt(a, r)
    ensures FeeAt(a, rules) == 0.0
  {
    hide InRangeAt;
    if rules != [] {
      assert forall r <- rules[..|rules| - 1] :: r in rules;
      OutOfRangeFree(a, rules[..|rules| - 1]);
    }
  }

  // ----------------------------------------------------- gross amount check

  datatype GrossError =
    | InvalidFee
    | AmountMustBePositive
    | MinWithdrawNotConfigured
    | AmountMustExceedFee(amount: string, fee: string)
    | AmountBelowMinPlusFee(amount: string, fee: string, minWithdraw: string, required: string, net: string)

  function ValidateGrossAmount(amount: Dec, fee: Dec, minWithdraw: Dec): Option<GrossError>
  {
    if fee.coef < 0 then Some(InvalidFee)
    else if !Less(ZERO, amount) then Some(AmountMustBePositive)
    else if !Less(ZERO, minWithdraw) then Some(MinWithdrawNotConfigured)
    else if !Less(fee, amount) then Some(AmountMustExceedFee(ToString(amount), ToString(fee)))
    else
      var required := Add(minWithdraw, fee);
      if Less(amount, required) then
        Some(AmountBelowMinPlusFee(ToString(amount), ToString(fee), ToString(minWithdraw),
                                   ToString(required), ToString(Sub(amount, fee))))
      else None
  }

  /** Accepted exactly when the fee is not negative, amount and minimum are positive, and what
      is left after the fee reaches the minimum. */
  lemma GrossAcceptedExactly(amount: Dec, fee: Dec, minWithdraw: Dec)
    ensures ValidateGrossAmount(amount, fee, minWithdraw).None? <==>
            Value(fee) >= 0.0 && Value(amount) > 0.0 && Value(minWithdraw) > 0.0 &&
            Value(amount) - Value(fee) >= Value(minWithdraw)
  {
    hide Value, Less, Add, ToString, Sub;
    SignOfValue(fee);
    ZeroValue();
    ArithmeticIsExact(ZERO, amount);
    ArithmeticIsExact(ZERO, minWithdraw);
    ArithmeticIsExact(fee, amount);
    ArithmeticIsExact(minWithdraw, fee);
    ArithmeticIsExact(amount, Add(minWithdraw, fee));
  }

  /** Which error is given: the first of the conditions that fails, by value. */
  lemma GrossErrorsExactly(amount: Dec, fee: Dec, minWithdraw: Dec)
    ensures var a, f, m := Value(amount), Value(fee), Value(minWithdraw);
            ValidateGrossAmount(amount, fee, minWithdraw) ==
            if f < 0.0 then Some(InvalidFee)
            else if a <= 0.0 then Some(AmountMustBePositive)
            else if m <= 0.0 then Some(MinWithdrawNotConfigured)
            else if a <= f then Some(AmountMustExceedFee(ToString(amount), ToString(fee)))
            else if a < m + f then
              Some(AmountBelowMinPlusFee(ToString(amount), ToString(fee), ToString(minWithdraw),
                                         ToString(Add(minWithdraw, fee)), ToString(Sub(amount, fee))))
            else None
  {
    hide Value, Less, Add, ToString, Sub;
    SignOfValue(fee);
    ZeroValue();
    ArithmeticIsExact(ZERO, amount);
    ArithmeticIsExact(ZERO, minWithdraw);
    ArithmeticIsExact(fee, amount);
    ArithmeticIsExact(minWithdraw, fee);
    ArithmeticIsExact(amount, Add(minWithdraw, fee));
  }
}
