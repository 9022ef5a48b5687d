/** Decimal text to smallest-unit integers and back (pkg/accounting/amount.go), with the
    truncating parser of the accounting service beside the exact one. */
module Amounts {
  import opened Numerals
  import opened Decimals

  datatype AmountError =
    | AmountRequired
    | ScientificNotation
    | InvalidScale
    | InvalidFormat
    | NegativeAmount
    | NotPositive
    | ExceedsPrecision
    | NotRepresentable
    | RawNegative
    | RawNotPositive
    | NotInteger
    | TooLarge

  datatype Result<+T> = Ok(value: T) | Err(error: AmountError)

  const MAX_DIGITS := 65

  // ------------------------------------------------------------- the code

  function TrimLeftZeros(s: string): string
  {
    if s != "" && s[0] == '0' then TrimLeftZeros(s[1..]) else s
  }

  function ValidateDecimal65Int(v: Dec): Result<()>
  {
    if Less(v, ZERO) then Err(RawNegative)
    else
      var s := ToString(v);
      var s1 := if |s| > 0 && s[0] == '-' then s[1..] else s;
      var s2 := TrimLeftZeros(s1);
      var s3 := if s2 == "" then "0" else s2;
      if '.' in s3 then Err(NotInteger)
      else if |s3| > MAX_DIGITS then Err(TooLarge)
      else Ok(())
  }

  function ParseDecimalToRawExact(amount: string, scale: int, allowZero: bool): Result<Dec>
  {
    var s := TrimSpace(amount);
    if s == "" then Err(AmountRequired)
    else if exists c <- s :: IsExpMark(c) then Err(ScientificNotation)
    else if scale < 0 || scale > 30 then Err(InvalidScale)
    else
      match NewFromString(s)
      case None => Err(InvalidFormat)
      case Some(amt) =>
        if allowZero && Less(amt, ZERO) then Err(NegativeAmount)
        else if !allowZero && !Less(ZERO, amt) then Err(NotPositive)
        else if amt.exp < -scale then Err(ExceedsPrecision)
        else
          var shifted := Shift(amt, scale);
          if !Equal(shifted, Truncate(shifted, 0)) then Err(NotRepresentable)
          else
            var raw := Truncate(shifted, 0);
            if Less(raw, ZERO) then Err(RawNegative)
            else if !allowZero && Equal(raw, ZERO) then Err(RawNotPositive)
            else
              match ValidateDecimal65Int(raw)
              case Err(e) => Err(e)
              case Ok(_) => Ok(raw)
  }

  /** The accounting service's parser for historical data: extra digits are cut off. */
  function ParseDecimalToRawRelaxed(amount: string, scale: int, allowZero: bool): Result<Dec>
  {
    var s := TrimSpace(amount);
    if s == "" then Err(AmountRequired)
    else if exists c <- s :: IsExpMark(c) then Err(ScientificNotation)
    else if scale < 0 || scale > 30 then Err(InvalidScale)
    else
      match NewFromString(s)
      case None => Err(InvalidFormat)
      case Some(amt) =>
        if allowZero && Less(amt, ZERO) then Err(NegativeAmount)
        else if !allowZero && !Less(ZERO, amt) then Err(NotPositive)
        else
          var raw := Truncate(Shift(amt, scale), 0);
          match ValidateDecimal65Int(raw)
          case Err(e) => Err(e)
          case Ok(_) => if !allowZero && Equal(raw, ZERO) then Err(RawNotPositive) else Ok(raw)
  }

  function RawToDecimalString(raw: Dec, scale: int): Result<string>
  {
    if Less(raw, ZERO) then Err(RawNegative)
    else if scale < 0 || scale > 30 then Err(InvalidScale)
    else
      match ValidateDecimal65Int(Truncate(raw, 0))
      case Err(e) => Err(e)
      case Ok(_) => Ok(StringFixed(Shift(raw, -scale), scale))
  }

  // ------------------------------------------------- whole numbers and bounds

  /** `v` stands for the integer `n`. */
  predicate IsWhole(v: Dec, n: int)
  {
    if v.exp >= 0 then n == CoefAt(v, 0) else v.coef == Scale(n, -v.exp)
  }

  predicate InRange65(n: int) { 0 <= n < Pow10(MAX_DIGITS) }

  lemma IsWholeValue(v: Dec, n: int)
    ensures IsWhole(v, n) <==> Value(v) == n as real
  {
    if v.exp >= 0 {
      RealScaleOfInt(v.coef, v.exp);
    } else {
      var k := -v.exp;
      RealScaleOfInt(n, k);
      RealScaleAdd(n as real, k, v.exp);
      RealScaleOrder(v.coef as real, Scale(n, k) as real, v.exp);
    }
  }

  lemma IsWholeUnique(v: Dec, n: int, k: int)
    requires IsWhole(v, n) && IsWhole(v, k)
    ensures n == k
  {
    IsWholeValue(v, n);
    IsWholeValue(v, k);
  }

  lemma CompareZero(v: Dec)
    ensures Less(v, ZERO) <==> v.coef < 0
    ensures Less(ZERO, v) <==> v.coef > 0
    ensures Equal(v, ZERO) <==> v.coef == 0
  {
    ArithmeticIsExact(v, ZERO);
    ArithmeticIsExact(ZERO, v);
    SignOfValue(v);
    SignOfValue(ZERO);
  }

  lemma {:induction false} WholeSign(v: Dec, n: int)
    requires IsWhole(v, n)
    ensures v.coef < 0 <==> n < 0
    ensures v.coef == 0 <==> n == 0
  {
    IsWholeValue(v, n);
    SignOfValue(v);
  }

  /** Printing a non-negative number shows a dot exactly when it is not whole. */
  lemma PrintedForm(v: Dec)
    requires v.coef >= 0
    ensures forall n :: IsWhole(v, n) ==> n >= 0 && ToString(v) == NatToString(n)
    ensures (forall n :: !IsWhole(v, n)) ==> '.' in ToString(v) && '.' in TrimLeftZeros(ToString(v))
  {
    if v.exp >= 0 {
      WholePrintedForm(v);
    } else {
      FractionPrintedForm(v);
    }
  }

  lemma WholePrintedForm(v: Dec)
    requires v.coef >= 0 && v.exp >= 0
    ensures forall n :: IsWhole(v, n) ==> n >= 0 && ToString(v) == NatToString(n)
    ensures exists n :: IsWhole(v, n)
  {
    hide Scale, NatToString;
    assert IsWhole(v, CoefAt(v, 0));
    forall n | IsWhole(v, n) ensures n >= 0 && ToString(v) == NatToString(n) {
      WholeSign(v, n);
    }
  }

  lemma FractionPrintedForm(v: Dec)
    requires v.coef >= 0 && v.exp < 0
    ensures forall n :: IsWhole(v, n) ==> n >= 0 && ToString(v) == NatToString(n)
    ensures (forall n :: !IsWhole(v, n)) ==> '.' in ToString(v) && '.' in TrimLeftZeros(ToString(v))
  {
    hide Scale, NatToString, HighPart, Fixed, TrimZeros, TrimLeftZeros, Format;
    var m: nat, p := v.coef, -v.exp;
    FormatIsDotted(v, true);
    var kept := KeptDigits(m, p, true);
    var h: int := HighPart(m, p);
    assert ToString(v) == Dotted(m, p, true) by { assert "" + Dotted(m, p, true) == Dotted(m, p, true); }
    KeptIffFraction(m, p, kept);
    if kept == "" {
      assert IsWhole(v, h);
      forall n | IsWhole(v, n) ensures n == h { IsWholeUnique(v, n, h); }
    } else {
      forall n ensures !IsWhole(v, n) {
        if IsWhole(v, n) {
          WholeSign(v, n);
          WholeIsHighPart(m, p, n);
        }
      }
      DotSurvives(NatToString(h), kept);
    }
  }

  lemma DotSurvives(q: string, kept: string)
    ensures '.' in q + "." + kept && '.' in TrimLeftZeros(q + "." + kept)
  {
    var s := q + "." + kept;
    assert s[|q|] == '.';
    TrimKeepsDot(s);
  }

  lemma {:induction false} TrimKeepsDot(s: string)
    requires '.' in s
    ensures '.' in TrimLeftZeros(s)
  {
    if s[0] == '0' {
      assert '.' in s[1..];
      TrimKeepsDot(s[1..]);
    }
  }

  lemma {:induction false} WholeIsHighPart(m: nat, p: nat, n: nat)
    requires m == Scale(n, p)
    ensures HighPart(m, p) == n
  {
    if p > 0 {
      WholeIsHighPart(m / 10, p - 1, n);
    }
  }

  lemma KeptIffFraction(m: nat, p: nat, kept: string)
    requires |kept| <= p && Fixed(m, p) == kept + Zeros(p - |kept|) && kept == TrimZeros(Fixed(m, p))
    ensures kept == "" <==> m == Scale(HighPart(m, p), p)
  {
    TrimZerosSplit(Fixed(m, p));
    JoinedValue(m, p);
    var q := NatToString(HighPart(m, p));
    NatToStringValue(HighPart(m, p));
    ValueConcat(q, Fixed(m, p));
    assert m == Scale(HighPart(m, p), p) + ValueOf(Fixed(m, p));
    if kept == "" {
      TrailingZerosValue("", p);
      assert "" + Zeros(p) == Zeros(p);
    } else {
      LastDigitCounts(kept, p - |kept|);
    }
  }

  lemma LastDigitCounts(kept: string, k: nat)
    requires AllDigits(kept) && kept != "" && kept[|kept| - 1] != '0'
    ensures AllDigits(kept + Zeros(k)) && ValueOf(kept + Zeros(k)) > 0
  {
    TrailingZerosValue(kept, k);
    ScaleOrder(0, ValueOf(kept), k);
  }

  lemma {:induction false} StrippedNumeral(n: nat)
    ensures TrimLeftZeros(NatToString(n)) == if n == 0 then "" else NatToString(n)
    ensures '.' !in NatToString(n) && NatToString(n)[0] != '-'
  {
    NatToStringLeading(n);
    if n == 0 {
      assert "0"[1..] == "";
    }
  }

  /** The 65-digit check accepts exactly the whole numbers from 0 up to 10^65. */
  lemma ValidateAcceptsExactly(v: Dec)
    ensures ValidateDecimal65Int(v).Ok? <==> exists n :: IsWhole(v, n) && InRange65(n)
  {
    hide ToString, Less, Scale;
    CompareZero(v);
    if v.coef >= 0 {
      PrintedForm(v);
      if n :| IsWhole(v, n) {
        ValidateWhole(v, n);
        forall k | IsWhole(v, k) ensures k == n { IsWholeUnique(v, k, n); }
      } else {
        FormatFirstChar(v);
      }
    } else {
      forall n | IsWhole(v, n) ensures n < 0 { WholeSign(v, n); }
    }
  }

  lemma FormatFirstChar(v: Dec)
    requires v.coef >= 0
    ensures ToString(v) != "" && ToString(v)[0] != '-'
  {
    if v.exp >= 0 {
      assert IsWhole(v, CoefAt(v, 0));
      WholeSign(v, CoefAt(v, 0));
      StrippedNumeral(CoefAt(v, 0));
    } else {
      FormatIsDotted(v, true);
      var q := NatToString(HighPart(v.coef, -v.exp));
      StrippedNumeral(HighPart(v.coef, -v.exp));
      var d := Dotted(v.coef, -v.exp, true);
      assert d[0] == q[0];
      assert "" + d == d;
    }
  }

  lemma ValidateWhole(v: Dec, n: int)
    requires v.coef >= 0 && IsWhole(v, n)
    ensures n >= 0
    ensures ValidateDecimal65Int(v) == if n < Pow10(MAX_DIGITS) then Ok(()) else Err(TooLarge)
  {
    hide ToString, Less, Scale;
    CompareZero(v);
    PrintedForm(v);
    StrippedNumeral(n);
    NatToStringLength(n, MAX_DIGITS);
    NatToStringLength(0, MAX_DIGITS);
    assert NatToString(0) == "0";
  }

  // ------------------------------------------------------ what is accepted

  /** What the exact parser makes of a number it could read. */
  lemma ParseOfNumber(amount: string, scale: int, allowZero: bool, amt: Dec)
    requires var t := TrimSpace(amount); t != "" && NoExpMark(t) && NewFromString(t) == Some(amt)
    requires 0 <= scale <= 30
    ensures ParseDecimalToRawExact(amount, scale, allowZero) ==
            if allowZero && amt.coef < 0 then Err(NegativeAmount)
            else if !allowZero && amt.coef <= 0 then Err(NotPositive)
            else if amt.exp < -scale then Err(ExceedsPrecision)
            else if Scale(amt.coef, amt.exp + scale) < Pow10(MAX_DIGITS) then Ok(Shift(amt, scale))
            else Err(TooLarge)
  {
    hide NewFromString, Less, Equal, Scale, ValidateDecimal65Int, TrimSpace;
    CompareZero(amt);
    if amt.exp >= -scale && amt.coef >= 0 {
      var raw := Shift(amt, scale);
      CompareZero(raw);
      assert Equal(raw, raw) by { ArithmeticIsExact(raw, raw); }
      ValidateWhole(raw, CoefAt(raw, 0));
    }
  }

  predicate NoExpMark(t: string) { forall c <- t :: !IsExpMark(c) }

  lemma NoExpMarkIndex(t: string)
    ensures NoExpMark(t) <==> IndexWhere(t, IsExpMark) == |t|
  {
    if NoExpMark(t) {
      assert forall i :: 0 <= i < |t| ==> t[i] in t;
      IndexWhereUnique(t, IsExpMark, |t|);
    }
  }

  /** Once a number has been read, every later rejection is a sign, precision or size
      rejection: the representability check and the second round of sign checks never fire. */
  lemma LateChecksNeverFire(amount: string, scale: int, allowZero: bool)
    ensures var r := ParseDecimalToRawExact(amount, scale, allowZero);
            r.Err? ==> r.error !in {NotRepresentable, RawNegative, RawNotPositive, NotInteger}
  {
    hide NewFromString, TrimSpace, ValidateDecimal65Int, Less, Equal;
    var t := TrimSpace(amount);
    if t != "" && NoExpMark(t) && 0 <= scale <= 30 && NewFromString(t).Some? {
      ParseOfNumber(amount, scale, allowZero, NewFromString(t).value);
    }
  }

  /** Text read as a number: its sign, its digits, and how many count as decimals. */
  datatype Reading = Reading(negative: bool, digits: string, places: nat)

  predicate IsSign(sign: string) { sign == "" || sign == "+" || sign == "-" }

  /** The plain grammar: optional sign, digits, and optionally a dot and more digits. */
  predicate Written(t: string, sign: string, ip: string, fp: string, dotted: bool)
  {
    IsSign(sign) && AllDigits(ip) && AllDigits(fp) && |ip + fp| >= 1 &&
    t == sign + ip + (if dotted then "." + fp else "") && (!dotted ==> fp == "")
  }

  ghost predicate Plain(t: string, r: Reading)
  {
    exists sign, ip, fp, dotted ::
      Written(t, sign, ip, fp, dotted) && r == Reading(sign == "-", ip + fp, |fp|)
  }

  /** The one form beyond it: the dot comes first and the sign after it, counted as a decimal. */
  predicate WrittenSignAfterDot(t: string, sign: string, fp: string)
  {
    (sign == "+" || sign == "-") && AllDigits(fp) && |fp| >= 1 && t == "." + sign + fp
  }

  ghost predicate SignAfterDot(t: string, r: Reading)
  {
    exists sign, fp :: WrittenSignAfterDot(t, sign, fp) && r == Reading(sign == "-", fp, |fp| + 1)
  }

  predicate Acceptable(r: Reading, scale: int, allowZero: bool)
  {
    AllDigits(r.digits) && r.places <= scale &&
    (r.negative ==> ValueOf(r.digits) == 0) && (allowZero || ValueOf(r.digits) > 0) &&
    Scale(ValueOf(r.digits), scale - r.places) < Pow10(MAX_DIGITS)
  }

  lemma ParseIntOfSigned(sign: string, q: string)
    requires IsSign(sign) && AllDigits(q) && |q| >= 1
    ensures ParseInt(sign + q) == Some(Signed(sign == "-", ValueOf(q)))
    ensures PlainText(sign + q)
  {
    var s := sign + q;
    if sign == "" {
      assert s == q && IsDigit(s[0]);
    } else {
      assert s[0] == sign[0] && s[1..] == q;
    }
  }

  lemma PlainTextHasNoMark(s: string)
    requires PlainText(s)
    ensures NoExpMark(s) && NoExpMark("." + s)
  {
  }

  lemma NoMarkConcat(a: string, b: string)
    requires NoExpMark(a) && NoExpMark(b)
    ensures NoExpMark(a + b)
  {
  }

  /** Both written forms read as the number their reading says. */
  lemma ReadingIsRead(t: string, r: Reading)
    requires Plain(t, r) || SignAfterDot(t, r)
    ensures t != "" && NoExpMark(t) && AllDigits(r.digits)
    ensures NewFromString(t) == WithExp(Some(Signed(r.negative, ValueOf(r.digits))), 0 - r.places)
  {
    hide NewFromString, ParseInt, ValueOf;
    if Plain(t, r) {
      var sign, ip, fp, dotted :| Written(t, sign, ip, fp, dotted) && r == Reading(sign == "-", ip + fp, |fp|);
      ReadingOfPlain(t, sign, ip, fp, dotted);
    } else {
      var sign, fp :| WrittenSignAfterDot(t, sign, fp) && r == Reading(sign == "-", fp, |fp| + 1);
      ReadingOfSignAfterDot(t, sign, fp);
    }
  }

  lemma ReadLeadingDot(tail: string)
    requires PlainText(tail)
    ensures NewFromString("." + tail) == WithExp(ParseInt(tail), 0 - |tail|)
  {
    hide NewFromString, ParseInt;
    ReadAtDot("", tail);
    assert "" + tail == tail && "" + "." + tail == "." + tail;
  }

  lemma ReadingOfSignAfterDot(t: string, sign: string, fp: string)
    requires WrittenSignAfterDot(t, sign, fp)
    ensures t != "" && NoExpMark(t)
    ensures NewFromString(t) == WithExp(Some(Signed(sign == "-", ValueOf(fp))), -(|fp| + 1))
  {
    hide NewFromString, ParseInt, ValueOf, PlainText, NoExpMark, AllDigits;
    var tail := sign + fp;
    ParseIntOfSigned(sign, fp);
    ConcatAssoc(".", sign, fp);
    ReadLeadingDot(tail);
    PlainTextHasNoMark(tail);
  }

  lemma ReadingOfPlain(t: string, sign: string, ip: string, fp: string, dotted: bool)
    requires Written(t, sign, ip, fp, dotted)
    ensures AllDigits(ip + fp) && t != "" && NoExpMark(t)
    ensures NewFromString(t) == WithExp(Some(Signed(sign == "-", ValueOf(ip + fp))), -|fp|)
  {
    hide NewFromString, ParseInt, ValueOf;
    ParseIntOfSigned(sign, ip + fp);
    ConcatAssoc(sign, ip, fp);
    assert PlainText(sign + ip) && PlainText(fp) by {
      assert forall i :: 0 <= i < |sign + ip| ==> (sign + ip)[i] == (sign + (ip + fp))[i];
    }
    PlainTextHasNoMark(sign + ip);
    PlainTextHasNoMark(fp);
    if dotted {
      ReadAtDot(sign + ip, fp);
      ConcatAssoc(sign + ip, ".", fp);
      NoMarkConcat(sign + ip, "." + fp);
    } else {
      assert ip + fp == ip && t == sign + ip;
      ReadWhole(t);
    }
  }

  /** Nothing but the two written forms is read. */
  lemma OnlyReadingsAreRead(t: string)
    requires NoExpMark(t) && NewFromString(t).Some?
    ensures exists r :: Plain(t, r) || SignAfterDot(t, r)
  {
    NoExpMarkIndex(t);
    var p := IndexWhere(t, IsDot);
    if p == |t| {
      var sign, q := SplitSigned(t);
      assert t == sign + q + "" && q + "" == q;
      assert Written(t, sign, q, "", false);
      assert Plain(t, Reading(sign == "-", q + "", 0));
    } else {
      SplitDotted(t, t[..p], t[p + 1..]);
    }
  }

  lemma SplitSigned(s: string) returns (sign: string, q: string)
    requires ParseInt(s).Some?
    ensures IsSign(sign) && AllDigits(q) && |q| >= 1 && s == sign + q
  {
    if s[0] == '+' || s[0] == '-' {
      sign, q := s[..1], s[1..];
    } else {
      sign, q := "", s;
    }
  }

  lemma SplitDotted(t: string, head: string, tail: string)
    requires t == head + "." + tail && ParseInt(head + tail).Some?
    ensures exists r :: Plain(t, r) || SignAfterDot(t, r)
  {
    hide ParseInt;
    var sign, q := SplitSigned(head + tail);
    if |sign| <= |head| {
      var ip := head[|sign|..];
      var w := head + tail;
      assert head == w[..|head|] && tail == w[|head|..] && sign == w[..|sign|] && q == w[|sign|..];
      assert head == sign + ip && q == ip + tail;
      assert forall i :: 0 <= i < |ip| ==> ip[i] == q[i];
      assert forall i :: 0 <= i < |tail| ==> tail[i] == q[|ip| + i];
      ConcatAssoc(sign + ip, ".", tail);
      assert Written(t, sign, ip, tail, true);
      assert Plain(t, Reading(sign == "-", ip + tail, |tail|));
    } else {
      assert |head| == 0 && head + tail == tail;
      assert t == "." + tail;
      ConcatAssoc(".", sign, q);
      assert WrittenSignAfterDot(t, sign, q);
      assert SignAfterDot(t, Reading(sign == "-", q, |q| + 1));
    }
  }

  lemma ParseRejects(amount: string, scale: int, allowZero: bool)
    requires var t := TrimSpace(amount); t == "" || !NoExpMark(t) || NewFromString(t).None? || !(0 <= scale <= 30)
    ensures ParseDecimalToRawExact(amount, scale, allowZero) == Err(
              if TrimSpace(amount) == "" then AmountRequired
              else if !NoExpMark(TrimSpace(amount)) then ScientificNotation
              else if !(0 <= scale <= 30) then InvalidScale
              else InvalidFormat)
  {
    hide NewFromString, TrimSpace, ValidateDecimal65Int, Less, Equal;
  }

  lemma ParseOfReading(amount: string, scale: int, allowZero: bool, r: Reading)
    requires var t := TrimSpace(amount); Plain(t, r) || SignAfterDot(t, r)
    ensures AllDigits(r.digits)
    ensures var p := ParseDecimalToRawExact(amount, scale, allowZero);
            (p.Ok? <==> 0 <= scale <= 30 && Acceptable(r, scale, allowZero)) &&
            (p.Ok? ==> IsWhole(p.value, Scale(ValueOf(r.digits), scale - r.places)))
  {
    hide ParseDecimalToRawExact, NewFromString, TrimSpace, ValueOf, Plain, SignAfterDot, Scale, TrimLeftZeros;
    var t := TrimSpace(amount);
    ReadingIsRead(t, r);
    if NewFromString(t).None? || !(0 <= scale <= 30) {
      ParseRejects(amount, scale, allowZero);
    } else {
      ParseOfNumber(amount, scale, allowZero, NewFromString(t).value);
    }
  }

  /** The exact parser accepts exactly: a scale of 0 to 30, text of one of the two written
      forms, the required sign, at most `scale` written decimals, and a value below 10^65
      smallest units, which it returns. */
  lemma ParseAcceptsExactly(amount: string, scale: int, allowZero: bool)
    ensures var t, p := TrimSpace(amount), ParseDecimalToRawExact(amount, scale, allowZero);
            (p.Ok? <==> 0 <= scale <= 30 &&
                        exists r :: (Plain(t, r) || SignAfterDot(t, r)) && Acceptable(r, scale, allowZero)) &&
            (forall r :: p.Ok? && (Plain(t, r) || SignAfterDot(t, r)) ==>
                         Acceptable(r, scale, allowZero) &&
                         IsWhole(p.value, Scale(ValueOf(r.digits), scale - r.places)))
  {
    hide TrimSpace, ParseDecimalToRawExact, NewFromString, Plain, SignAfterDot, ValueOf, Scale, IsWhole;
    var t, p := TrimSpace(amount), ParseDecimalToRawExact(amount, scale, allowZero);
    if p.Ok? {
      if t == "" || !NoExpMark(t) || NewFromString(t).None? {
        ParseRejects(amount, scale, allowZero);
      }
      OnlyReadingsAreRead(t);
    }
    forall r | Plain(t, r) || SignAfterDot(t, r)
      ensures p.Ok? <==> 0 <= scale <= 30 && Acceptable(r, scale, allowZero)
      ensures p.Ok? ==> Acceptable(r, scale, allowZero) && IsWhole(p.value, Scale(ValueOf(r.digits), scale - r.places))
    {
      ParseOfReading(amount, scale, allowZero, r);
    }
  }

  /** The second form is real: ".+5" is not a plain decimal, yet it is taken as 0.05. */
  lemma SignAfterDotIsAccepted()
    ensures forall r :: !Plain(".+5", r)
    ensures var p := ParseDecimalToRawExact(".+5", 2, false); p.Ok? && IsWhole(p.value, 5)
  {
    hide ParseDecimalToRawExact, ValueOf, Scale;
    forall sign, ip, fp, dotted ensures !Written(".+5", sign, ip, fp, dotted) {
      if Written(".+5", sign, ip, fp, dotted) {
        DigitAfterLeadingDot(".+5", sign, ip, fp, dotted);
      }
    }
    var r := Reading(false, "5", 2);
    assert WrittenSignAfterDot(".+5", "+", "5");
    assert SignAfterDot(".+5", r);
    assert TrimSpace(".+5") == ".+5";
    FiveIsSmall();
    ParseOfReading(".+5", 2, false, r);
  }

  /** A plain decimal that starts with its dot goes on with a digit. */
  lemma DigitAfterLeadingDot(t: string, sign: string, ip: string, fp: string, dotted: bool)
    requires Written(t, sign, ip, fp, dotted)
    ensures t[0] == '.' ==> |t| > 1 && IsDigit(t[1])
  {
    if sign + ip == "" {
      assert t == (if dotted then "." + fp else "");
    } else {
      assert t[0] == (sign + ip)[0];
    }
  }

  lemma FiveIsSmall()
    ensures AllDigits("5") && ValueOf("5") == 5 && Scale(5, 0) == 5 < Pow10(MAX_DIGITS)
  {
    assert "5"[..0] == "";
    PowersGrow(1, MAX_DIGITS);
  }

  lemma {:induction false} PowersGrow(a: nat, b: nat)
    requires a <= b
    ensures Pow10(a) <= Pow10(b)
  {
    if a < b {
      PowersGrow(a, b - 1);
      ScaleOrder(0, 1, b - 1);
    }
  }

  // ------------------------------------------------------------ round trips

  /** Printing at a scale rounds to the nearest smallest unit, halves up. */
  lemma RoundedRaw(raw: Dec, scale: nat) returns (m: nat)
    requires raw.coef >= 0
    ensures Round(Shift(raw, -(scale as int)), scale) == Dec(m, -(scale as int))
    ensures m == NearestAway(Value(raw))
  {
    var d := Shift(raw, -(scale as int));
    if raw.exp == 0 {
      m := raw.coef;
    } else if raw.exp >= -1 {
      var x := Scale(raw.coef, raw.exp + 1);
      ScaleOrder(0, raw.coef, raw.exp + 1);
      m := (x + 5) / 10;
      TenthOf(raw, x);
    } else {
      var k := -1 - raw.exp;
      var x := HighPart(raw.coef, k);
      m := (x + 5) / 10;
      HighPartBounds(raw.coef, k);
      RealScaleOfInt(x, k);
      RealScaleOfInt(x + 1, k);
      var y := RealScale(raw.coef as real, -k);
      RealScaleAdd(raw.coef as real, -k, k);
      RealScaleOrder(x as real, y, k);
      RealScaleOrder(y, (x + 1) as real, k);
      RealScaleAdd(raw.coef as real, -k, -1);
      assert Value(raw) == y / 10.0;
    }
  }

  lemma TenthOf(raw: Dec, x: nat)
    requires raw.coef >= 0 && raw.exp >= -1 && x == Scale(raw.coef, raw.exp + 1)
    ensures Value(raw) == x as real / 10.0
  {
    RealScaleOfInt(raw.coef, raw.exp + 1);
    RealScaleStep(raw.coef as real, raw.exp);
  }

  /** Digits written after the dot. */
  function WrittenDecimals(t: string): nat
  {
    var p := IndexWhere(t, IsDot);
    if p == |t| then 0 else |t| - p - 1
  }

  lemma WrittenPlaces(t: string, ip: string, fp: string, dotted: bool)
    requires Written(t, "", ip, fp, dotted)
    ensures WrittenDecimals(t) == |fp|
  {
    assert t == ip + (if dotted then "." + fp else "") by { assert "" + ip == ip; }
    assert forall i :: 0 <= i < |ip| ==> t[i] == ip[i];
    IndexWhereUnique(t, IsDot, |ip|);
  }

  /** Printed digits are a plain decimal again; with trailing zeros dropped, the last decimal
      counts. */
  lemma DottedIsPlain(m: nat, p: nat, trimTrailing: bool) returns (r: Reading)
    ensures TrimSpace(Dotted(m, p, trimTrailing)) == Dotted(m, p, trimTrailing)
    ensures Plain(Dotted(m, p, trimTrailing), r) && !r.negative && AllDigits(r.digits)
    ensures r.places <= p && (!trimTrailing ==> r.places == p)
    ensures Scale(ValueOf(r.digits), p - r.places) == m
    ensures r.places == WrittenDecimals(Dotted(m, p, trimTrailing))
    ensures trimTrailing && r.places > 0 ==> ValueOf(r.digits) % 10 != 0
  {
    hide TrimSpace, ValueOf, Scale, Fixed, NatToString, HighPart, TrimZeros, WrittenDecimals;
    var q := NatToString(HighPart(m, p));
    var kept := KeptDigits(m, p, trimTrailing);
    var v := KeptValue(m, p, kept);
    r := Reading(false, q + kept, |kept|);
    var t := Dotted(m, p, trimTrailing);
    if kept == "" {
      assert q + kept == q && "" + q + "" == t;
      assert Written(t, "", q, kept, false);
      WrittenPlaces(t, q, kept, false);
    } else {
      assert "" + q + ("." + kept) == t;
      assert Written(t, "", q, kept, true);
      WrittenPlaces(t, q, kept, true);
      LastDigitOf(q + kept);
      if trimTrailing {
        TrimZerosSplit(Fixed(m, p));
      }
    }
    DigitsAtEnds(t, q, kept);
  }

  lemma LastDigitOf(s: string)
    requires AllDigits(s) && s != ""
    ensures ValueOf(s) % 10 == DigitValue(s[|s| - 1])
    ensures s[|s| - 1] != '0' ==> ValueOf(s) % 10 != 0
  {
  }

  lemma DigitsAtEnds(t: string, q: string, kept: string)
    requires AllDigits(q) && |q| >= 1 && AllDigits(kept)
    requires t == if kept == "" then q else q + "." + kept
    ensures TrimSpace(t) == t
  {
    hide TrimSpace;
    assert t[0] == q[0] && IsDigit(t[0]);
    assert t[|t| - 1] == (if kept == "" then q[|q| - 1] else kept[|kept| - 1]);
    assert Trimmed(t);
  }

  /** A printed amount with p decimals parses exactly at any scale that holds them. */
  lemma PrintedParses(m: nat, p: nat, trimTrailing: bool, scale: nat, allowZero: bool)
    requires p <= scale <= 30
    ensures var r := ParseDecimalToRawExact(Dotted(m, p, trimTrailing), scale, allowZero);
            (r.Ok? <==> (allowZero || m > 0) && Scale(m, scale - p) < Pow10(MAX_DIGITS)) &&
            (r.Ok? ==> IsWhole(r.value, Scale(m, scale - p)))
  {
    hide ParseDecimalToRawExact, TrimSpace, Dotted, Plain, SignAfterDot, ValueOf, Scale, IsWhole;
    var t := Dotted(m, p, trimTrailing);
    var r := DottedIsPlain(m, p, trimTrailing);
    ParseOfReading(t, scale, allowZero, r);
    ScaleAdd(ValueOf(r.digits), p - r.places, scale - p);
    assert (p - r.places) + (scale - p) == scale - r.places;
    ScaleOrder(0, ValueOf(r.digits), p - r.places);
  }

  /** The number below `raw` that the size check looks at. */
  lemma TruncatedWhole(raw: Dec) returns (f: nat)
    requires raw.coef >= 0
    ensures IsWhole(Truncate(raw, 0), f) && Truncate(raw, 0).coef >= 0
    ensures f as real <= Value(raw) < f as real + 1.0
  {
    if raw.exp >= 0 {
      WholeSign(raw, CoefAt(raw, 0));
      f := CoefAt(raw, 0);
      IsWholeValue(raw, f);
    } else {
      var k := -raw.exp;
      f := HighPart(raw.coef, k);
      HighPartBounds(raw.coef, k);
      RealScaleOfInt(f, k);
      RealScaleOfInt(f + 1, k);
      RealScaleAdd(raw.coef as real, raw.exp, k);
      RealScaleOrder(f as real, Value(raw), k);
      RealScaleOrder(Value(raw), (f + 1) as real, k);
    }
  }

  /** Printing a raw amount: which amounts print, and what the text parses back to. */
  lemma RawPrints(raw: Dec, scale: nat) returns (m: nat)
    requires raw.coef >= 0 && scale <= 30
    ensures m == NearestAway(Value(raw))
    ensures var s := RawToDecimalString(raw, scale);
            (s.Ok? <==> Value(raw) < Pow10(MAX_DIGITS) as real) && (s.Ok? ==> s.value == Dotted(m, scale, false))
    ensures var p := ParseDecimalToRawExact(Dotted(m, scale, false), scale, true);
            (p.Ok? <==> m < Pow10(MAX_DIGITS)) && (p.Ok? ==> IsWhole(p.value, m))
  {
    m := RoundedRaw(raw, scale);
    PrintedParses(m, scale, false, scale, true);
    var f := TruncatedWhole(raw);
    ValidateWhole(Truncate(raw, 0), f);
    hide ParseDecimalToRawExact, ValidateDecimal65Int, Truncate, Round, Value, Less, Dotted, IsWhole, NearestAway;
    CompareZero(raw);
    DottedText(m, scale);
  }

  lemma DottedText(m: nat, p: nat)
    ensures Format(Dec(m, -(p as int)), false) == Dotted(m, p, false)
  {
    hide Dotted, Format;
    if p == 0 {
      DottedWhole(m, false);
    } else {
      FormatIsDotted(Dec(m, -(p as int)), false);
      assert "" + Dotted(m, p, false) == Dotted(m, p, false);
    }
  }

  /** Raw to text to raw: every whole raw amount below 10^65 comes back unchanged. */
  lemma RawRoundTrip(raw: Dec, n: int, scale: nat)
    requires IsWhole(raw, n) && InRange65(n) && scale <= 30
    ensures var s := RawToDecimalString(raw, scale);
            s.Ok? && var p := ParseDecimalToRawExact(s.value, scale, true);
            p.Ok? && IsWhole(p.value, n)
  {
    hide RawToDecimalString, ParseDecimalToRawExact, Dotted, Value;
    WholeSign(raw, n);
    IsWholeValue(raw, n);
    var m := RawPrints(raw, scale);
    assert NearestAway(n as real) == n;
  }

  /** The converse: an amount that is not whole never comes back as itself. */
  lemma RawRoundTripOnlyIfWhole(raw: Dec, scale: nat)
    requires raw.coef >= 0 && scale <= 30 && RawToDecimalString(raw, scale).Ok?
    ensures var p := ParseDecimalToRawExact(RawToDecimalString(raw, scale).value, scale, true);
            (p.Ok? && Value(p.value) == Value(raw)) <==> exists n :: IsWhole(raw, n) && InRange65(n)
  {
    var p := ParseDecimalToRawExact(RawToDecimalString(raw, scale).value, scale, true);
    hide RawToDecimalString, ParseDecimalToRawExact, Dotted, Value, Scale;
    var m := RawPrints(raw, scale);
    if p.Ok? && Value(p.value) == Value(raw) {
      IsWholeValue(p.value, m);
      IsWholeValue(raw, m);
      assert IsWhole(raw, m);
    }
    if n :| IsWhole(raw, n) && InRange65(n) {
      RawRoundTrip(raw, n, scale);
      IsWholeValue(raw, n);
      IsWholeValue(p.value, n);
    }
  }

  /** Text to raw to text: the same value, written with exactly `scale` decimals. */
  lemma TextRoundTrip(amount: string, scale: int, allowZero: bool)
    requires ParseDecimalToRawExact(amount, scale, allowZero).Ok?
    ensures var raw := ParseDecimalToRawExact(amount, scale, allowZero).value;
            var s := RawToDecimalString(raw, scale);
            0 <= scale && s.Ok? &&
            (exists n: nat :: IsWhole(raw, n) && s.value == NatToString(HighPart(n, scale)) +
               (if scale == 0 then "" else "." + Fixed(n, scale))) &&
            NewFromString(TrimSpace(amount)).Some? && NewFromString(s.value).Some? &&
            Value(NewFromString(s.value).value) == Value(NewFromString(TrimSpace(amount)).value)
  {
    hide NewFromString, TrimSpace, ParseDecimalToRawExact, RawToDecimalString, ValueOf, Scale, HighPart,
      Fixed, NatToString, TrimZeros;
    var t, p := TrimSpace(amount), ParseDecimalToRawExact(amount, scale, allowZero);
    if t == "" || !NoExpMark(t) || NewFromString(t).None? || !(0 <= scale <= 30) {
      ParseRejects(amount, scale, allowZero);
    }
    var amt := NewFromString(t).value;
    ParseOfNumber(amount, scale, allowZero, amt);
    var raw := p.value;
    var n := CoefAt(raw, 0);
    assert IsWhole(raw, n);
    WholeSign(raw, n);
    IsWholeValue(raw, n);
    var m := RawPrints(raw, scale);
    assert m == n;
    if scale == 0 {
      assert Fixed(n, scale) == "" && NatToString(HighPart(n, 0)) + "" == NatToString(HighPart(n, 0));
    }
    SameValue(amt, scale, n);
  }

  lemma SameValue(amt: Dec, scale: nat, n: nat)
    requires amt.exp >= -(scale as int) && scale <= 30 && n == Scale(amt.coef, amt.exp + scale)
    ensures NewFromString(Dotted(n, scale, false)).Some?
    ensures Value(NewFromString(Dotted(n, scale, false)).value) == Value(amt)
  {
    hide NewFromString, Dotted, Scale;
    var v, k := ReadOfDotted(false, n, scale, false);
    assert "" + Dotted(n, scale, false) == Dotted(n, scale, false);
    assert Scale(v, 0) == v by { ScaleAdd(v, 0, 0); ScaleOrder(v, Scale(v, 0), 0); }
    CoefAtValue(amt, -(scale as int));
  }

  /** The truncating parser agrees with the exact one wherever that one accepts. */
  lemma RelaxedExtendsExact(amount: string, scale: int, allowZero: bool)
    requires ParseDecimalToRawExact(amount, scale, allowZero).Ok?
    ensures ParseDecimalToRawRelaxed(amount, scale, allowZero) == ParseDecimalToRawExact(amount, scale, allowZero)
  {
    hide NewFromString, TrimSpace, ValidateDecimal65Int, Less, Equal;
  }

  // ------------------------------------------------------------ by value

  /** Text that is read as a number at all. */
  predicate Readable(t: string) { t != "" && NoExpMark(t) && NewFromString(t).Some? }

  lemma ShiftedValue(amt: Dec, scale: nat)
    ensures Value(Shift(amt, scale)) == RealScale(Value(amt), scale)
  {
    RealScaleAdd(amt.coef as real, amt.exp, scale);
  }

  lemma BelowBound(x: real, f: int)
    requires f as real <= x < f as real + 1.0
    ensures f == x.Floor && (x >= 0.0 <==> f >= 0) && (x >= 1.0 <==> f >= 1)
    ensures f < Pow10(MAX_DIGITS) <==> x < Pow10(MAX_DIGITS) as real
  {
    hide Pow10;
  }

  lemma RelaxedOfNumber(amount: string, scale: int, allowZero: bool, amt: Dec)
    requires var t := TrimSpace(amount); t != "" && NoExpMark(t) && NewFromString(t) == Some(amt)
    requires 0 <= scale <= 30
    ensures ParseDecimalToRawRelaxed(amount, scale, allowZero) ==
            if allowZero && amt.coef < 0 then Err(NegativeAmount)
            else if !allowZero && amt.coef <= 0 then Err(NotPositive)
            else
              var raw := Truncate(Shift(amt, scale), 0);
              match ValidateDecimal65Int(raw)
              case Err(e) => Err(e)
              case Ok(_) => if !allowZero && raw.coef == 0 then Err(RawNotPositive) else Ok(raw)
  {
    hide NewFromString, Less, Equal, Scale, ValidateDecimal65Int, TrimSpace, Truncate, Shift;
    CompareZero(amt);
    CompareZero(Truncate(Shift(amt, scale), 0));
  }

  /** The truncating parser, by value: it accepts exactly the readable texts whose number of units
      is not negative, below 10^65 and, where zero is not allowed, at least one; it returns that
      number rounded down. */
  lemma RelaxedAcceptsExactly(amount: string, scale: int, allowZero: bool)
    ensures var t, p := TrimSpace(amount), ParseDecimalToRawRelaxed(amount, scale, allowZero);
            (p.Ok? <==>
              Readable(t) && 0 <= scale <= 30 &&
              var x := RealScale(Value(NewFromString(t).value), scale);
              (if allowZero then x >= 0.0 else x >= 1.0) && x < Pow10(MAX_DIGITS) as real) &&
            (p.Ok? ==> IsWhole(p.value, RealScale(Value(NewFromString(t).value), scale).Floor))
  {
    hide NewFromString, TrimSpace, ValidateDecimal65Int, Truncate, Shift, Value, RealScale, IsWhole, Less, Equal, Pow10;
    var t := TrimSpace(amount);
    if Readable(t) && 0 <= scale <= 30 {
      var amt := NewFromString(t).value;
      RelaxedOfNumber(amount, scale, allowZero, amt);
      SignOfValue(amt);
      SignOfShift(amt, scale);
      if amt.coef >= 0 {
        var f := TruncatedWhole(Shift(amt, scale));
        var raw := Truncate(Shift(amt, scale), 0);
        ShiftedValue(amt, scale);
        BelowBound(RealScale(Value(amt), scale), f);
        ValidateWhole(raw, f);
        WholeSign(raw, f);
      }
    }
  }

  lemma SignOfShift(amt: Dec, scale: nat)
    ensures Shift(amt, scale).coef == amt.coef
    ensures RealScale(Value(amt), scale) < 0.0 <==> amt.coef < 0
    ensures RealScale(Value(amt), scale) == 0.0 <==> amt.coef == 0
  {
    SignOfValue(amt);
    RealScaleOrder(Value(amt), 0.0, scale);
  }

  /** The exact parser, by value: beyond the written decimals only sign and size count, and it
      returns the number of units itself. */
  lemma ExactByValue(amount: string, scale: int, allowZero: bool)
    ensures var t, p := TrimSpace(amount), ParseDecimalToRawExact(amount, scale, allowZero);
            (p.Ok? <==>
              Readable(t) && 0 <= scale <= 30 && NewFromString(t).value.exp >= -scale &&
              var x := RealScale(Value(NewFromString(t).value), scale);
              (if allowZero then x >= 0.0 else x > 0.0) && x < Pow10(MAX_DIGITS) as real) &&
            (p.Ok? ==> Value(p.value) == RealScale(Value(NewFromString(t).value), scale)) &&
            (p.Ok? ==> exists n :: IsWhole(p.value, n))
  {
    hide NewFromString, TrimSpace, ValidateDecimal65Int, Truncate, Value, RealScale, IsWhole, Less, Equal, Pow10, Scale;
    var t := TrimSpace(amount);
    if Readable(t) && 0 <= scale <= 30 {
      var amt := NewFromString(t).value;
      ParseOfNumber(amount, scale, allowZero, amt);
      SignOfShift(amt, scale);
      ShiftedValue(amt, scale);
      if amt.exp >= -scale {
        IsWholeValue(Shift(amt, scale), Scale(amt.coef, amt.exp + scale));
        ShiftIsWhole(amt, scale);
      }
    } else {
      ParseRejects(amount, scale, allowZero);
    }
  }

  lemma ShiftIsWhole(amt: Dec, scale: nat)
    requires amt.exp >= -(scale as int)
    ensures IsWhole(Shift(amt, scale), Scale(amt.coef, amt.exp + scale))
  {
  }
}
