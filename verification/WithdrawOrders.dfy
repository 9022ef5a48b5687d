/** A withdrawal's amounts on their way from the request to the ledger
    (services/business/rpc/internal/logic/createWithdrawLogic.go and withdraw_payout_worker.go):
    cut to six digits, printed into the order, read back, split into net and fee, printed again
    and parsed into smallest units. */
module WithdrawOrders {
  import opened Numerals
  import opened Decimals
  import Amounts
  import WithdrawFee

  /** The texts kept in a withdrawal order. */
  datatype Order = Order(id: int, amount: string, fee: string)

  /** Amount, fee and minimum are cut to six digits before they are checked; the order keeps the
      cut amount and fee. */
  function CreateOrder(id: int, amount: Dec, fee: Dec, minWithdraw: Dec): Option<Order>
  {
    var a := WithdrawFee.TruncateAccounting(amount);
    var f := WithdrawFee.TruncateAccounting(fee);
    var m := WithdrawFee.TruncateAccounting(minWithdraw);
    if WithdrawFee.ValidateGrossAmount(a, f, m).Some? then None else Some(Order(id, ToString(a), ToString(f)))
  }

  function ReadOrZero(text: string): Dec
  {
    match NewFromString(text)
    case Some(d) => d
    case None => ZERO
  }

  function FeeText(o: Order): string { if TrimSpace(o.fee) == "" then "0" else TrimSpace(o.fee) }

  /** What the payout worker asks to be settled. */
  function NetText(o: Order): string
  {
    ToString(Truncate(Sub(ReadOrZero(TrimSpace(o.amount)), ReadOrZero(FeeText(o))), 6))
  }

  function SettledFeeText(o: Order): string { ToString(Truncate(ReadOrZero(FeeText(o)), 6)) }

  /** What the payout worker asks to be unfrozen: the amount with six decimals written out. */
  function UnfreezeText(o: Order): string
  {
    match NewFromString(TrimSpace(o.amount))
    case Some(d) => StringFixed(d, 6)
    case None => TrimSpace(o.amount)
  }

  // ----------------------------------------------------- decimals as units

  /** `d` in units of 10^-scale. */
  function Units(d: Dec, scale: nat): int
    requires -(scale as int) <= d.exp
  {
    CoefAt(d, -(scale as int))
  }

  /** The text parses to exactly `n` smallest units. */
  predicate ParsesTo(text: string, scale: int, allowZero: bool, n: int)
  {
    var r := Amounts.ParseDecimalToRawExact(text, scale, allowZero);
    r.Ok? && Amounts.IsWhole(r.value, n)
  }

  lemma TextParses(d: Dec, scale: nat, allowZero: bool)
    requires d.coef >= 0 && -(scale as int) <= d.exp && scale <= 30
    ensures var r := Amounts.ParseDecimalToRawExact(ToString(d), scale, allowZero);
            (r.Ok? <==> (allowZero || d.coef > 0) && Units(d, scale) < Pow10(65)) &&
            (r.Ok? ==> Amounts.IsWhole(r.value, Units(d, scale)))
  {
    hide Amounts.ParseDecimalToRawExact, Amounts.IsWhole, Scale, Pow10, Dotted, Format;
    if d.exp >= 0 {
      WholeIsDotted(d);
      ScaleOrder(0, d.coef, d.exp);
      ScaleAdd(d.coef, d.exp, scale);
      Amounts.PrintedParses(CoefAt(d, 0), 0, true, scale, allowZero);
    } else {
      FormatIsDotted(d, true);
      assert "" + Dotted(d.coef, -d.exp, true) == Dotted(d.coef, -d.exp, true);
      Amounts.PrintedParses(d.coef, -d.exp, true, scale, allowZero);
    }
  }

  lemma WholeIsDotted(d: Dec)
    requires d.coef >= 0 && d.exp >= 0
    ensures CoefAt(d, 0) >= 0 && ToString(d) == Dotted(CoefAt(d, 0), 0, true)
  {
    hide Dotted, Scale;
    ScaleOrder(0, d.coef, d.exp);
    DottedWhole(CoefAt(d, 0), true);
  }

  lemma UnitsValue(d: Dec, scale: nat)
    requires -(scale as int) <= d.exp
    ensures RealScale(Value(d), scale) == Units(d, scale) as real
  {
    hide RealScale;
    CoefAtValue(d, -(scale as int));
    RealScaleAdd(Units(d, scale) as real, -(scale as int), scale);
    ZeroScale(Units(d, scale) as real);
  }

  lemma ZeroScale(x: real)
    ensures RealScale(x, 0) == x
  {
  }

  lemma UnitsAdd(a: Dec, b: Dec, c: Dec, scale: nat)
    requires -(scale as int) <= a.exp && -(scale as int) <= b.exp && -(scale as int) <= c.exp
    requires Value(a) == Value(b) + Value(c)
    ensures Units(a, scale) == Units(b, scale) + Units(c, scale)
  {
    hide RealScale, Units, Value;
    UnitsValue(a, scale);
    UnitsValue(b, scale);
    UnitsValue(c, scale);
    RealScaleLinear(Value(b), Value(c), scale);
  }

  lemma WholeReadsBack(d: Dec) returns (r: Dec)
    requires d.coef >= 0 && d.exp >= 0
    ensures NewFromString(ToString(d)) == Some(r) && TrimSpace(ToString(d)) == ToString(d)
    ensures Value(r) == Value(d) && r.exp == 0 && r.coef >= 0
  {
    hide NewFromString, TrimSpace, Value, Scale, Dotted, NatToString;
    WithdrawFee.WholeReads(d);
    ScaleOrder(0, d.coef, d.exp);
    var c: nat := CoefAt(d, 0);
    DottedWhole(c, true);
    var reading := Amounts.DottedIsPlain(c, 0, true);
    r := Dec(c, 0);
  }

  lemma ScaleSign(v: int, k: nat)
    ensures Scale(v, k) >= 0 <==> v >= 0
  {
  }

  lemma FractionReadsBack(d: Dec) returns (r: Dec)
    requires d.coef >= 0 && -6 <= d.exp < 0
    ensures NewFromString(ToString(d)) == Some(r) && TrimSpace(ToString(d)) == ToString(d)
    ensures Value(r) == Value(d) && -6 <= r.exp <= 0 && r.coef >= 0
  {
    hide NewFromString, TrimSpace, Value, Scale, Dotted, Format, Amounts.Plain, ValueOf;
    var p: nat := -d.exp;
    FormatIsDotted(d, true);
    var t := Dotted(d.coef, p, true);
    assert SignText(false) + t == t;
    var v, k := ReadOfDotted(false, d.coef, p, true);
    ScaleSign(v, p - k);
    var reading := Amounts.DottedIsPlain(d.coef, p, true);
    WithdrawFee.SameScaled(v, p, k, d.coef);
    var places: int := k;
    r := Dec(v, -places);
  }

  /** A printed decimal of at most six digits reads back as such, with its value. */
  lemma ReadsBack(d: Dec) returns (r: Dec)
    requires d.coef >= 0 && d.exp >= -6
    ensures NewFromString(ToString(d)) == Some(r) && TrimSpace(ToString(d)) == ToString(d) && ToString(d) != ""
    ensures Value(r) == Value(d) && -6 <= r.exp <= 0 && r.coef >= 0
  {
    hide NewFromString, TrimSpace, Value, ToString;
    if d.exp >= 0 {
      r := WholeReadsBack(d);
    } else {
      r := FractionReadsBack(d);
    }
    PrintedIsNotEmpty(d);
  }

  lemma PrintedIsNotEmpty(d: Dec)
    requires d.coef >= 0
    ensures ToString(d) != ""
  {
    Amounts.FormatFirstChar(d);
  }

  lemma TruncatedExponent(d: Dec)
    ensures Truncate(d, 6).exp >= -6 && (d.exp >= -6 ==> Truncate(d, 6) == d)
  {
  }

  lemma SignFollowsValue(d: Dec)
    requires Value(d) >= 0.0
    ensures d.coef >= 0
  {
    SignOfValue(d);
  }

  /** Net and fee of an order as the worker reads them: six digits lose nothing. */
  lemma SplitIsExact(amount: Dec, fee: Dec, minWithdraw: Dec, id: int, o: Order) returns (a: Dec, f: Dec, net: Dec)
    requires CreateOrder(id, amount, fee, minWithdraw) == Some(o)
    ensures a == WithdrawFee.TruncateAccounting(amount) && f == WithdrawFee.TruncateAccounting(fee)
    ensures a.coef > 0 && f.coef >= 0 && a.exp >= -6 && f.exp >= -6
    ensures net.coef > 0 && net.exp >= -6 && Value(net) == Value(a) - Value(f)
    ensures Value(net) >= Value(WithdrawFee.TruncateAccounting(minWithdraw)) > 0.0
    ensures o.amount == ToString(a) && NetText(o) == ToString(net)
    ensures exists g: Dec :: SettledFeeText(o) == ToString(g) && Value(g) == Value(f) && g.exp >= -6 && g.coef >= 0
  {
    hide Value, ToString, NewFromString, TrimSpace, Truncate, WithdrawFee.ValidateGrossAmount, Sub;
    a, f := WithdrawFee.TruncateAccounting(amount), WithdrawFee.TruncateAccounting(fee);
    TruncatedExponent(amount);
    TruncatedExponent(fee);
    WithdrawFee.GrossAcceptedExactly(a, f, WithdrawFee.TruncateAccounting(minWithdraw));
    SignFollowsValue(f);
    SignFollowsValue(a);
    SignOfValue(a);
    var ra := ReadsBack(a);
    var rf := ReadsBack(f);
    net := Sub(ra, rf);
    ArithmeticIsExact(ra, rf);
    SubExponent(ra, rf);
    SignFollowsValue(net);
    SignOfValue(net);
    TruncatedExponent(net);
    TruncatedExponent(rf);
    assert SettledFeeText(o) == ToString(rf);
  }

  lemma SubExponent(a: Dec, b: Dec)
    requires a.exp >= -6 && b.exp >= -6
    ensures Sub(a, b).exp >= -6
  {
  }

  /** Conservation: an order accepted by the gross check, at any precision of six to thirty
      digits that can hold its amount, freezes exactly what its settlement takes as net and fee,
      and what unfreezing returns; the net is at least the minimum. */
  lemma OrderConserves(amount: Dec, fee: Dec, minWithdraw: Dec, id: int, o: Order, scale: nat)
    returns (frozen: nat, net: nat, charged: nat)
    requires CreateOrder(id, amount, fee, minWithdraw) == Some(o) && 6 <= scale <= 30
    requires RealScale(Value(WithdrawFee.TruncateAccounting(amount)), scale) < Pow10(65) as real
    ensures ParsesTo(o.amount, scale, false, frozen)
    ensures ParsesTo(NetText(o), scale, false, net)
    ensures ParsesTo(SettledFeeText(o), scale, true, charged)
    ensures ParsesTo(UnfreezeText(o), scale, false, frozen)
    ensures frozen == net + charged
    ensures net as real >= RealScale(Value(WithdrawFee.TruncateAccounting(minWithdraw)), scale) > 0.0
  {
    hide Value, ToString, Amounts.ParseDecimalToRawExact, Amounts.IsWhole, CreateOrder, NetText,
      SettledFeeText, UnfreezeText, Units, RealScale, WithdrawFee.TruncateAccounting, Pow10;
    var a, f, n := SplitIsExact(amount, fee, minWithdraw, id, o);
    var g: Dec :| SettledFeeText(o) == ToString(g) && Value(g) == Value(f) && g.exp >= -6 && g.coef >= 0;
    UnitsValue(a, scale);
    UnitsAdd(a, n, g, scale);
    UnitsSign(n, scale);
    UnitsSign(g, scale);
    frozen, net, charged := Units(a, scale), Units(n, scale), Units(g, scale);
    TextParses(a, scale, false);
    TextParses(n, scale, false);
    TextParses(g, scale, true);
    UnitsValue(n, scale);
    MinimumIsKept(Value(n), Value(WithdrawFee.TruncateAccounting(minWithdraw)), scale);
    UnfreezeParses(a, o, scale);
  }

  lemma MinimumIsKept(x: real, m: real, scale: nat)
    requires x >= m > 0.0
    ensures RealScale(x, scale) >= RealScale(m, scale) > 0.0
  {
    RealScaleOrder(m, x, scale);
    RealScaleOrder(0.0, m, scale);
    RealScaleOrder(x, m, scale);
    ScaledZero(scale);
  }

  lemma {:induction false} ScaledZero(k: nat)
    ensures RealScale(0.0, k) == 0.0
  {
    if k > 0 {
      ScaledZero(k - 1);
    }
  }

  lemma UnitsSign(d: Dec, scale: nat)
    requires -(scale as int) <= d.exp && d.coef >= 0
    ensures Units(d, scale) >= 0 && (d.coef > 0 ==> Units(d, scale) > 0)
  {
    ScaleOrder(0, d.coef, d.exp + scale);
  }

  /** The unfreezing text always writes six decimals. */
  lemma UnfreezeWritesSix(a: Dec, o: Order) returns (m: nat)
    requires a.coef >= 0 && a.exp >= -6 && o.amount == ToString(a)
    ensures UnfreezeText(o) == Dotted(m, 6, false) && m == Units(a, 6)
  {
    hide Value, NewFromString, TrimSpace, Scale, Dotted;
    var r := ReadsBack(a);
    UnitsSign(r, 6);
    m := Units(r, 6);
    RoundToSix(r);
    Amounts.DottedText(m, 6);
    assert Units(a, 6) == m by {
      UnitsValue(a, 6);
      UnitsValue(r, 6);
    }
  }

  lemma RoundToSix(r: Dec)
    requires -6 <= r.exp <= 0 && r.coef >= 0
    ensures Round(r, 6) == Dec(Units(r, 6), -6)
  {
    if r.exp > -6 {
      var x := Scale(r.coef, r.exp + 7);
      ScaleAdd(r.coef, r.exp + 6, 1);
      assert x == Scale(Scale(r.coef, r.exp + 6), 1) == 10 * Scale(r.coef, r.exp + 6);
      ScaleOrder(0, r.coef, r.exp + 6);
      assert (x + 5) / 10 == Scale(r.coef, r.exp + 6);
    }
  }

  lemma UnfreezeParses(a: Dec, o: Order, scale: nat)
    requires a.coef > 0 && a.exp >= -6 && o.amount == ToString(a) && 6 <= scale <= 30
    requires Units(a, scale) < Pow10(65)
    ensures ParsesTo(UnfreezeText(o), scale, false, Units(a, scale))
  {
    hide Amounts.ParseDecimalToRawExact, Amounts.IsWhole, UnfreezeText, Dotted, Scale, ToString, Pow10;
    var m := UnfreezeWritesSix(a, o);
    Amounts.PrintedParses(m, 6, false, scale, false);
    ScaleAdd(a.coef, a.exp + 6, scale - 6);
    UnitsSign(a, 6);
  }

  /** An asset of fewer than six digits freezes amounts that the worker cannot unfreeze: the
      written zeros count against the precision. For a frozen order, unfreezing parses exactly
      at six digits or more. */
  lemma UnfreezeParsesExactly(amount: Dec, fee: Dec, minWithdraw: Dec, id: int, o: Order, scale: nat)
    requires CreateOrder(id, amount, fee, minWithdraw) == Some(o) && scale <= 30
    requires Amounts.ParseDecimalToRawExact(o.amount, scale, false).Ok?
    ensures Amounts.ParseDecimalToRawExact(UnfreezeText(o), scale, false).Ok? <==> scale >= 6
  {
    hide Amounts.ParseDecimalToRawExact, UnfreezeText, Dotted, ToString, CreateOrder, Value, Units,
      SettledFeeText, NetText, Scale, Pow10, WithdrawFee.TruncateAccounting;
    var a, f, n := SplitIsExact(amount, fee, minWithdraw, id, o);
    if scale >= 6 {
      TextParses(a, scale, false);
      UnfreezeParses(a, o, scale);
    } else {
      var m := UnfreezeWritesSix(a, o);
      SixDecimalsExceed(m, scale);
    }
  }

  lemma SixDecimalsExceed(m: nat, scale: nat)
    requires scale < 6
    ensures Amounts.ParseDecimalToRawExact(Dotted(m, 6, false), scale, false).Err?
  {
    hide Amounts.ParseDecimalToRawExact, Dotted, TrimSpace, Scale, Pow10, Amounts.Plain, Amounts.SignAfterDot;
    var r := Amounts.DottedIsPlain(m, 6, false);
    Amounts.ParseOfReading(Dotted(m, 6, false), scale, false, r);
  }

  /** Such an order: a precision of two, one and a half coins. */
  lemma UnfreezeCanFail()
    ensures var o := CreateOrder(1, Dec(15, -1), Dec(0, 0), Dec(1, 0));
            o == Some(Order(1, "1.5", "0")) && ParsesTo("1.5", 2, false, 150) &&
            Amounts.ParseDecimalToRawExact(UnfreezeText(o.value), 2, false).Err?
  {
    hide ToString, UnfreezeText, Amounts.ParseDecimalToRawExact, Pow10, Amounts.IsWhole, Units;
    OneAndAHalf();
    var o := CreateOrder(1, Dec(15, -1), Dec(0, 0), Dec(1, 0));
    assert o == Some(Order(1, "1.5", "0")) by { OrderOfOneAndAHalf(); }
    TextParses(Dec(15, -1), 2, false);
    SmallNumber();
    UnfreezeParsesExactly(Dec(15, -1), Dec(0, 0), Dec(1, 0), 1, o.value, 2);
  }

  lemma OrderOfOneAndAHalf()
    ensures CreateOrder(1, Dec(15, -1), Dec(0, 0), Dec(1, 0)) == Some(Order(1, "1.5", "0"))
  {
    hide ToString;
    OneAndAHalf();
    assert Scale(15, 0) == 15 && Scale(15, 1) == 150 && Scale(1, 0) == 1 && Scale(1, 1) == 10;
    assert Scale(0, 2) == 0 && Scale(0, 1) == 0;
  }

  lemma SmallNumber()
    ensures Units(Dec(15, -1), 2) == 150 < Pow10(65)
  {
    assert Scale(15, 1) == 150;
    Amounts.PowersGrow(3, 65);
    assert Pow10(3) == 1000;
  }

  lemma OneAndAHalf()
    ensures ToString(Dec(15, -1)) == "1.5" && ToString(Dec(0, 0)) == "0"
  {
    assert NatToString(15) == "15" && TrimZeros("5") == "5";
  }

  // ------------------------------------------------------ any precision

  predicate WholeReal(x: real) { x == x.Floor as real }

  lemma TextIsDotted(d: Dec) returns (m: nat, p: nat)
    requires d.coef >= 0
    ensures ToString(d) == Dotted(m, p, true) && Value(d) == RealScale(m as real, 0 - p)
  {
    hide Dotted, Scale, Format, RealScale;
    if d.exp >= 0 {
      WholeIsDotted(d);
      m, p := CoefAt(d, 0), 0;
      CoefAtValue(d, 0);
    } else {
      m, p := d.coef, -d.exp;
      FormatIsDotted(d, true);
      assert "" + Dotted(m, p, true) == Dotted(m, p, true);
    }
  }

  /** A number whose last decimal counts is whole at a scale exactly when the scale holds its
      decimals. */
  lemma DecimalsDecide(v: nat, k: nat, scale: nat)
    requires k > 0 ==> v % 10 != 0
    ensures k <= scale <==> WholeReal(RealScale(v as real, scale - k))
  {
    var e: int := scale - k;
    if k <= scale {
      RealScaleOfInt(v, scale - k);
    } else {
      var x := RealScale(v as real, e);
      if WholeReal(x) {
        var n := x.Floor;
        RealScaleAdd(v as real, e, -e);
        ZeroScale(v as real);
        RealScaleOfInt(n, k - scale);
        MultipleOfTen(n, k - scale);
      }
    }
  }

  lemma MultipleOfTen(n: int, j: nat)
    requires j > 0
    ensures Scale(n, j) % 10 == 0
  {
  }

  /** What a printed number parses to, at every precision: it parses exactly when its written
      decimals fit, which is when its value is a whole number of units. */
  lemma TextParsesExactly(d: Dec, scale: nat, allowZero: bool)
    requires d.coef >= 0 && scale <= 30
    ensures var r, x := Amounts.ParseDecimalToRawExact(ToString(d), scale, allowZero), RealScale(Value(d), scale);
            (Amounts.WrittenDecimals(ToString(d)) <= scale <==> WholeReal(x)) &&
            (r.Ok? <==> WholeReal(x) && (allowZero || x > 0.0) && x < Pow10(65) as real) &&
            (r.Ok? ==> Amounts.IsWhole(r.value, x.Floor))
  {
    hide Amounts.ParseDecimalToRawExact, Amounts.IsWhole, Dotted, Format, Amounts.Plain, Amounts.SignAfterDot, ValueOf,
      RealScale, Scale, Pow10, TrimSpace, Amounts.WrittenDecimals;
    var m, p := TextIsDotted(d);
    var t := Dotted(m, p, true);
    var r := Amounts.DottedIsPlain(m, p, true);
    Amounts.ParseOfReading(t, scale, allowZero, r);
    var v, k := ValueOf(r.digits), r.places;
    ReadingValue(m, p, v, k, scale, Value(d));
    DecimalsDecide(v, k, scale);
    if k <= scale {
      UnitsOfReading(v, k, scale);
    }
  }

  lemma ReadingValue(m: nat, p: nat, v: nat, k: nat, scale: nat, x: real)
    requires k <= p && Scale(v, p - k) == m && x == RealScale(m as real, 0 - p)
    ensures RealScale(x, scale) == RealScale(v as real, scale - k)
  {
    hide RealScale, Scale;
    var minusP: int := -(p as int);
    RealScaleOfInt(v, p - k);
    RealScaleAdd(v as real, p - k, minusP);
    RealScaleAdd(v as real, minusP + (p - k), scale);
    assert minusP + (p - k) + scale == scale - k;
  }

  lemma UnitsOfReading(v: nat, k: nat, scale: nat)
    requires k <= scale
    ensures RealScale(v as real, scale - k) == Scale(v, scale - k) as real
    ensures Scale(v, scale - k) >= 0 && (Scale(v, scale - k) > 0 <==> v > 0)
  {
    RealScaleOfInt(v, scale - k);
    ScaleOrder(0, v, scale - k);
  }

  lemma WholeSplit(x: real, y: real, z: real)
    requires x == y + z && WholeReal(x)
    ensures WholeReal(y) <==> WholeReal(z)
    ensures y.Floor + z.Floor == x.Floor - if WholeReal(z) then 0 else 1
  {
  }

  /** An accepted order in units: amount, net and fee, with the decimals its texts print. */
  lemma OrderInUnits(amount: Dec, fee: Dec, minWithdraw: Dec, id: int, o: Order, scale: nat)
    returns (a: Dec, f: Dec, net: Dec, g: Dec)
    requires CreateOrder(id, amount, fee, minWithdraw) == Some(o)
    ensures a == WithdrawFee.TruncateAccounting(amount) && a.coef > 0 && a.exp >= -6 && o.amount == ToString(a)
    ensures f.coef >= 0 && o.fee == ToString(f) && net.coef > 0 && net.exp >= -6 && NetText(o) == ToString(net)
    ensures f == WithdrawFee.TruncateAccounting(fee) && Value(net) == Value(a) - Value(f)
    ensures g.coef >= 0 && g.exp >= -6 && SettledFeeText(o) == ToString(g)
    ensures RealScale(Value(g), scale) == RealScale(Value(f), scale)
    ensures var x, y, z := RealScale(Value(a), scale), RealScale(Value(net), scale), RealScale(Value(f), scale);
            x == y + z && y > 0.0 && z >= 0.0
  {
    hide Value, ToString, RealScale, NetText, SettledFeeText, WithdrawFee.ValidateGrossAmount,
      WithdrawFee.TruncateAccounting;
    a, f, net := SplitIsExact(amount, fee, minWithdraw, id, o);
    g :| SettledFeeText(o) == ToString(g) && Value(g) == Value(f) && g.exp >= -6 && g.coef >= 0;
    RealScaleLinear(Value(net), Value(f), scale);
    SignOfValue(net);
    SignOfValue(f);
    RealScaleOrder(0.0, Value(net), scale);
    RealScaleOrder(Value(f), 0.0, scale);
  }

  /** A frozen order is settled by the worker at a precision exactly when the precision holds the
      fee's written decimals; net and fee then add up to what was frozen. */
  lemma SettleParsesExactly(amount: Dec, fee: Dec, minWithdraw: Dec, id: int, o: Order, scale: nat, frozen: nat)
    requires CreateOrder(id, amount, fee, minWithdraw) == Some(o) && scale <= 30
    requires ParsesTo(o.amount, scale, false, frozen)
    ensures (exists net: nat, charged: nat ::
               ParsesTo(NetText(o), scale, false, net) && ParsesTo(SettledFeeText(o), scale, true, charged)) <==>
            Amounts.WrittenDecimals(o.fee) <= scale
    ensures forall net: nat, charged: nat ::
              ParsesTo(NetText(o), scale, false, net) && ParsesTo(SettledFeeText(o), scale, true, charged) ==>
              net + charged == frozen && net > 0
  {
    hide Value, ToString, RealScale, CreateOrder, NetText, SettledFeeText, Amounts.ParseDecimalToRawExact,
      Amounts.IsWhole, Amounts.WrittenDecimals, WithdrawFee.TruncateAccounting, Pow10;
    var a, f, n, g := OrderInUnits(amount, fee, minWithdraw, id, o, scale);
    TextParsesExactly(a, scale, false);
    TextParsesExactly(n, scale, false);
    TextParsesExactly(g, scale, true);
    TextParsesExactly(f, scale, true);
    var x, y, z := RealScale(Value(a), scale), RealScale(Value(n), scale), RealScale(Value(f), scale);
    WholeSplit(x, y, z);
    UniqueUnits(o.amount, scale, false, frozen);
    forall net: nat, charged: nat |
        ParsesTo(NetText(o), scale, false, net) && ParsesTo(SettledFeeText(o), scale, true, charged)
      ensures net == y.Floor && charged == z.Floor
    {
      Amounts.IsWholeUnique(Amounts.ParseDecimalToRawExact(NetText(o), scale, false).value, net, y.Floor);
      Amounts.IsWholeUnique(Amounts.ParseDecimalToRawExact(SettledFeeText(o), scale, true).value, charged, z.Floor);
    }
    Amounts.IsWholeUnique(Amounts.ParseDecimalToRawExact(o.amount, scale, false).value, frozen, x.Floor);
    if Amounts.WrittenDecimals(o.fee) <= scale {
      var net: nat, charged: nat := y.Floor, z.Floor;
      assert ParsesTo(NetText(o), scale, false, net) && ParsesTo(SettledFeeText(o), scale, true, charged);
    }
  }

  lemma UniqueUnits(text: string, scale: int, allowZero: bool, n: int)
    requires ParsesTo(text, scale, allowZero, n)
    ensures forall k :: ParsesTo(text, scale, allowZero, k) ==> k == n
  {
    hide Amounts.ParseDecimalToRawExact, Amounts.IsWhole;
    var raw := Amounts.ParseDecimalToRawExact(text, scale, allowZero).value;
    forall k | ParsesTo(text, scale, allowZero, k) ensures k == n {
      Amounts.IsWholeUnique(raw, k, n);
    }
  }

  /** The relaxed parser takes the text for exactly `n` smallest units. */
  predicate RelaxedParsesTo(text: string, scale: int, allowZero: bool, n: int)
  {
    var r := Amounts.ParseDecimalToRawRelaxed(text, scale, allowZero);
    r.Ok? && Amounts.IsWhole(r.value, n)
  }

  lemma RelaxedText(d: Dec, scale: nat, allowZero: bool)
    requires d.coef >= 0 && d.exp >= -6 && scale <= 30
    ensures var r, x := Amounts.ParseDecimalToRawRelaxed(ToString(d), scale, allowZero), RealScale(Value(d), scale);
            (r.Ok? <==> (allowZero || x >= 1.0) && x < Pow10(65) as real) &&
            (r.Ok? ==> Amounts.IsWhole(r.value, x.Floor))
  {
    hide Amounts.ParseDecimalToRawRelaxed, Amounts.IsWhole, Value, RealScale, ToString, NewFromString, TrimSpace, Pow10;
    var r := ReadsBack(d);
    PrintedHasNoMark(d);
    Amounts.RelaxedAcceptsExactly(ToString(d), scale, allowZero);
    Amounts.SignOfShift(d, scale);
  }

  lemma PrintedHasNoMark(d: Dec)
    requires d.coef >= 0
    ensures Amounts.NoExpMark(ToString(d))
  {
    hide Dotted, Format, Amounts.Plain, Amounts.SignAfterDot, NewFromString, TrimSpace, ValueOf, Scale;
    var m, p := TextIsDotted(d);
    var r := Amounts.DottedIsPlain(m, p, true);
    Amounts.ReadingIsRead(Dotted(m, p, true), r);
  }

  /** Completing a frozen order by hand cuts net and fee separately: it works exactly when the
      net is at least one unit, and leaves one unit locked exactly when the fee has more written
      decimals than the precision. */
  lemma CompletionLeavesDust(amount: Dec, fee: Dec, minWithdraw: Dec, id: int, o: Order, scale: nat, frozen: nat)
    requires CreateOrder(id, amount, fee, minWithdraw) == Some(o) && scale <= 30
    requires ParsesTo(o.amount, scale, false, frozen)
    ensures (exists net: nat, charged: nat ::
               RelaxedParsesTo(NetText(o), scale, false, net) &&
               RelaxedParsesTo(SettledFeeText(o), scale, true, charged)) <==>
            (var net := Value(WithdrawFee.TruncateAccounting(amount)) - Value(WithdrawFee.TruncateAccounting(fee));
             RealScale(net, scale) >= 1.0)
    ensures forall net: nat, charged: nat ::
              RelaxedParsesTo(NetText(o), scale, false, net) &&
              RelaxedParsesTo(SettledFeeText(o), scale, true, charged) ==>
              net > 0 && net + charged == frozen - if Amounts.WrittenDecimals(o.fee) <= scale then 0 else 1
  {
    hide Value, ToString, RealScale, CreateOrder, NetText, SettledFeeText, Amounts.ParseDecimalToRawExact,
      Amounts.IsWhole, Amounts.WrittenDecimals, WithdrawFee.TruncateAccounting, Pow10, Amounts.ParseDecimalToRawRelaxed;
    var a, f, n, g := OrderInUnits(amount, fee, minWithdraw, id, o, scale);
    TextParsesExactly(a, scale, false);
    RelaxedText(n, scale, false);
    RelaxedText(g, scale, true);
    TextParsesExactly(f, scale, true);
    var x, y, z := RealScale(Value(a), scale), RealScale(Value(n), scale), RealScale(Value(f), scale);
    WholeSplit(x, y, z);
    Amounts.IsWholeUnique(Amounts.ParseDecimalToRawExact(o.amount, scale, false).value, frozen, x.Floor);
    forall net: nat, charged: nat |
        RelaxedParsesTo(NetText(o), scale, false, net) && RelaxedParsesTo(SettledFeeText(o), scale, true, charged)
      ensures net == y.Floor && charged == z.Floor
    {
      Amounts.IsWholeUnique(Amounts.ParseDecimalToRawRelaxed(NetText(o), scale, false).value, net, y.Floor);
      Amounts.IsWholeUnique(Amounts.ParseDecimalToRawRelaxed(SettledFeeText(o), scale, true).value, charged, z.Floor);
    }
    if y >= 1.0 {
      var net: nat, charged: nat := y.Floor, z.Floor;
      assert RelaxedParsesTo(NetText(o), scale, false, net) && RelaxedParsesTo(SettledFeeText(o), scale, true, charged);
    }
  }

  // ------------------------------------------------------ other unfreezings

  /** What an administrator's rejection or cancellation asks to be unfrozen. */
  function CancelText(o: Order): string
  {
    match NewFromString(TrimSpace(o.amount))
    case Some(d) => ToString(Truncate(d, 6))
    case None => TrimSpace(o.amount)
  }

  /** Rejecting or cancelling returns exactly what was frozen, at every precision. */
  lemma CancelReturnsFrozen(amount: Dec, fee: Dec, minWithdraw: Dec, id: int, o: Order, scale: nat, frozen: nat)
    requires CreateOrder(id, amount, fee, minWithdraw) == Some(o) && scale <= 30
    requires ParsesTo(o.amount, scale, false, frozen)
    ensures ParsesTo(CancelText(o), scale, false, frozen)
  {
    hide Value, ToString, RealScale, CreateOrder, Amounts.ParseDecimalToRawExact, Amounts.IsWhole,
      WithdrawFee.TruncateAccounting, Pow10, NewFromString, TrimSpace, Truncate;
    var a, f, n, g := OrderInUnits(amount, fee, minWithdraw, id, o, scale);
    var r := ReadsBack(a);
    TruncatedExponent(r);
    TextParsesExactly(a, scale, false);
    TextParsesExactly(r, scale, false);
    var units := RealScale(Value(a), scale).Floor;
    Amounts.IsWholeUnique(Amounts.ParseDecimalToRawExact(o.amount, scale, false).value, frozen, units);
  }

  lemma TruncateBelow(d: Dec)
    requires d.coef >= 0
    ensures 0.0 <= Value(Truncate(d, 6)) <= Value(d)
  {
    hide Scale, RealScale, HighPart;
    var t := Truncate(d, 6);
    if d.exp < -6 {
      var k := -6 - d.exp;
      HighPartBounds(d.coef, k);
      RealScaleOfInt(t.coef, k);
      RealScaleAdd(t.coef as real, k, d.exp);
      RealScaleOrder(d.coef as real, Scale(t.coef, k) as real, d.exp);
    }
    SignOfValue(t);
  }

  lemma NothingToRead()
    ensures NewFromString("").None?
  {
    assert IndexWhere("", IsExpMark) == 0 && IndexWhere("", IsDot) == 0;
  }

  /** An administrator's creation that fails after freezing unfreezes the amount as typed, not as
      cut. It returns exactly what was frozen when the text has no exponent mark, at most `scale`
      written decimals and nothing beyond the sixth; with more significant digits it returns more
      than was frozen, and otherwise it is refused and the amount stays locked. */
  lemma RollbackExactly(
      text: string, amount: Dec, fee: Dec, minWithdraw: Dec, id: int, o: Order, scale: nat, frozen: nat)
    requires NewFromString(TrimSpace(text)) == Some(amount)
    requires CreateOrder(id, amount, fee, minWithdraw) == Some(o) && scale <= 30
    requires ParsesTo(o.amount, scale, false, frozen)
    ensures ParsesTo(text, scale, false, frozen) <==>
            Amounts.NoExpMark(TrimSpace(text)) && amount.exp >= -(scale as int) &&
            Value(Truncate(amount, 6)) == Value(amount)
    ensures Amounts.ParseDecimalToRawExact(text, scale, false).Ok? && Value(Truncate(amount, 6)) != Value(amount) ==>
            exists more: nat :: more > frozen && ParsesTo(text, scale, false, more)
  {
    hide Value, ToString, RealScale, CreateOrder, Amounts.ParseDecimalToRawExact, Amounts.IsWhole, Pow10, NewFromString,
      TrimSpace, Truncate, Amounts.NoExpMark;
    var a, f, n, g := OrderInUnits(amount, fee, minWithdraw, id, o, scale);
    var p := Amounts.ParseDecimalToRawExact(text, scale, false);
    var x, xa := RealScale(Value(amount), scale), RealScale(Value(a), scale);
    NothingToRead();
    TextParsesExactly(a, scale, false);
    Amounts.ExactByValue(text, scale, false);
    Amounts.IsWholeUnique(Amounts.ParseDecimalToRawExact(o.amount, scale, false).value, frozen, xa.Floor);
    TruncatedIsBelow(amount);
    RealScaleOrder(Value(a), Value(amount), scale);
    RealScaleOrder(Value(amount), Value(a), scale);
    if p.Ok? {
      var more :| Amounts.IsWhole(p.value, more);
      Amounts.IsWholeValue(p.value, more);
      Amounts.IsWholeValue(p.value, frozen);
      assert xa == frozen as real && x == more as real && xa <= x;
      if Value(Truncate(amount, 6)) != Value(amount) {
        assert more > frozen && ParsesTo(text, scale, false, more);
      }
    }
  }

  lemma TruncatedIsBelow(amount: Dec)
    requires Truncate(amount, 6).coef > 0
    ensures Value(Truncate(amount, 6)) <= Value(amount)
  {
    if amount.coef >= 0 {
      TruncateBelow(amount);
    }
  }

  /** At a precision of two, one and a half coins with a fee of 0.025 are frozen, and the worker
      can neither settle nor unfreeze them. */
  lemma NeitherSettledNorUnfrozen()
    ensures var o := CreateOrder(1, Dec(15, -1), Dec(25, -3), Dec(1, 0));
            o == Some(Order(1, "1.5", "0.025")) && ParsesTo("1.5", 2, false, 150) &&
            Amounts.ParseDecimalToRawExact(UnfreezeText(o.value), 2, false).Err? &&
            !exists net: nat, charged: nat ::
               ParsesTo(NetText(o.value), 2, false, net) && ParsesTo(SettledFeeText(o.value), 2, true, charged)
  {
    hide ToString, UnfreezeText, NetText, SettledFeeText, Amounts.ParseDecimalToRawExact, Pow10, Amounts.IsWhole, Units;
    OneAndAHalf();
    FeeOfTwoAndAHalf();
    var o := CreateOrder(1, Dec(15, -1), Dec(25, -3), Dec(1, 0));
    TextParses(Dec(15, -1), 2, false);
    SmallNumber();
    UnfreezeParsesExactly(Dec(15, -1), Dec(25, -3), Dec(1, 0), 1, o.value, 2);
    SettleParsesExactly(Dec(15, -1), Dec(25, -3), Dec(1, 0), 1, o.value, 2, 150);
  }

  lemma FeeOfTwoAndAHalf()
    ensures CreateOrder(1, Dec(15, -1), Dec(25, -3), Dec(1, 0)) == Some(Order(1, "1.5", "0.025"))
    ensures Amounts.WrittenDecimals("0.025") == 3
  {
    hide ToString;
    OneAndAHalf();
    FeePrints();
    assert Scale(15, 0) == 15 && Scale(15, 1) == 150 && Scale(15, 2) == 1500 && Scale(1, 0) == 1 && Scale(1, 3) == 1000;
    assert Scale(25, 0) == 25 && Scale(0, 2) == 0 && Scale(0, 4) == 0 && Scale(0, 1) == 0 && Scale(1025, 0) == 1025;
    IndexWhereUnique("0.025", IsDot, 1);
  }

  lemma FeePrints()
    ensures ToString(Dec(25, -3)) == "0.025"
  {
    assert NatToString(25) == "25" && FracDigits(25, 3) == "025" && TrimZeros("025") == "025";
  }

  /** At six digits or more the worker's unfreezing returns exactly what was frozen. */
  lemma UnfreezeReturnsFrozen(amount: Dec, fee: Dec, minWithdraw: Dec, id: int, o: Order, scale: nat, frozen: nat)
    requires CreateOrder(id, amount, fee, minWithdraw) == Some(o) && 6 <= scale <= 30
    requires ParsesTo(o.amount, scale, false, frozen)
    ensures ParsesTo(UnfreezeText(o), scale, false, frozen)
  {
    hide Value, ToString, RealScale, CreateOrder, Amounts.ParseDecimalToRawExact, Amounts.IsWhole, UnfreezeText,
      WithdrawFee.TruncateAccounting, Pow10, Units;
    var a, f, n, g := OrderInUnits(amount, fee, minWithdraw, id, o, scale);
    TextParses(a, scale, false);
    Amounts.IsWholeUnique(Amounts.ParseDecimalToRawExact(o.amount, scale, false).value, frozen, Units(a, scale));
    UnfreezeParses(a, o, scale);
  }

  // --------------------------------------------------------------- the cut

  /** Cutting a number that is not negative keeps its whole millionths. */
  lemma CutExactly(d: Dec)
    requires d.coef >= 0
    ensures RealScale(Value(WithdrawFee.TruncateAccounting(d)), 6) == RealScale(Value(d), 6).Floor as real
  {
    hide RealScale, Units, Value;
    var t := Truncate(d, 6);
    if d.exp >= -6 {
      assert t == d;
      UnitsValue(d, 6);
    } else {
      WholeMillionths(d, t);
      UnitsValue(t, 6);
      SixUnits(t);
    }
  }

  lemma WholeMillionths(d: Dec, t: Dec)
    requires d.coef >= 0 && d.exp < -6 && t == Truncate(d, 6)
    ensures t.exp == -6 && RealScale(Value(d), 6).Floor == t.coef
  {
    var k: nat := -6 - d.exp;
    assert t == Dec(HighPart(d.coef, k), -6);
    hide RealScale, HighPart, Truncate;
    HighPartBounds(d.coef, k);
    RealScaleAdd(d.coef as real, d.exp, 6);
    RealScaleAdd(d.coef as real, d.exp + 6, k);
    ZeroScale(d.coef as real);
    Between(RealScale(Value(d), 6), t.coef, k, d.coef);
  }

  lemma Between(x: real, q: nat, k: nat, c: nat)
    requires RealScale(x, k) == c as real && Scale(q, k) <= c < Scale(q + 1, k)
    ensures x.Floor == q
  {
    hide RealScale, Scale;
    RealScaleOfInt(q, k);
    RealScaleOfInt(q + 1, k);
    RealScaleOrder(q as real, x, k);
    RealScaleOrder(x, q as real, k);
    RealScaleOrder((q + 1) as real, x, k);
    RealScaleOrder(x, (q + 1) as real, k);
  }

  lemma SixUnits(t: Dec)
    requires t.exp == -6
    ensures Units(t, 6) == t.coef
  {
  }
}
