/** Freezing, settling and unfreezing withdrawals on the ledger
    (services/accounting/rpc/internal/logic/freezeWithdrawLogic.go, settleWithdrawLogic.go and
    unfreezeWithdrawLogic.go), and the moves between buckets and users that touch the same rows. */
module WithdrawFlow {
  import opened Numerals
  import opened Decimals
  import opened Ledger
  import opened LedgerSafety
  import opened WithdrawOrders
  import Amounts
  import WithdrawFee

  // -------------------------------------------------------------- requests

  /** The accounts involved: the user's, the chain's hot wallet and the fee income. */
  datatype Env = Env(chart: Chart, asset: string, scale: nat, user: int, hot: int, fee: int)

  /** An account of the chart with its normal side, for the asset. */
  predicate Opened(e: Env, account: int, side: Side)
  {
    account > 0 && account in e.chart.sides && e.chart.sides[account] == side && (account, e.asset) in e.chart.supported
  }

  /** The accounts differ; users and fees are credit-normal, the hot wallet is debit-normal. */
  predicate Ready(e: Env)
  {
    e.scale <= 30 && e.asset != "" && ToUpper(TrimSpace(e.asset)) == e.asset &&
    e.user != e.hot && e.user != e.fee && e.hot != e.fee &&
    Opened(e, e.user, CreditSide) && Opened(e, e.hot, DebitSide) && Opened(e, e.fee, CreditSide)
  }

  function AvailableKey(e: Env): Key { Key(e.user, e.asset, Available) }
  function LockedKey(e: Env): Key { Key(e.user, e.asset, Locked) }
  function HotKey(e: Env): Key { Key(e.hot, e.asset, Available) }
  function FeeKey(e: Env): Key { Key(e.fee, e.asset, Available) }

  lemma KeysApart(e: Env)
    requires Ready(e)
    ensures LockedKey(e) != AvailableKey(e) && LockedKey(e) != HotKey(e) && LockedKey(e) != FeeKey(e)
    ensures AvailableKey(e) != HotKey(e) && AvailableKey(e) != FeeKey(e) && HotKey(e) != FeeKey(e)
  {
  }

  datatype Stage = FreezeStage | SettleStage | UnfreezeStage

  function Prefix(stage: Stage): string
  {
    match stage
    case FreezeStage => "withdraw:freeze:"
    case SettleStage => "withdraw:settle:"
    case UnfreezeStage => "withdraw:unfreeze:"
  }

  function OpName(stage: Stage): string
  {
    match stage
    case FreezeStage => "FreezeWithdraw"
    case SettleStage => "SettleWithdraw"
    case UnfreezeStage => "UnfreezeWithdraw"
  }

  /** Idempotency key of a stage of withdrawal `id`. */
  function StageKey(stage: Stage, id: int): string { Prefix(stage) + IntToString(id) }

  /** A text in smallest units, by the exact or the truncating parser. */
  function RawOf(text: string, scale: int, allowZero: bool, relaxed: bool): Option<Dec>
  {
    match if relaxed then Amounts.ParseDecimalToRawRelaxed(text, scale, allowZero)
          else Amounts.ParseDecimalToRawExact(text, scale, allowZero)
    case Ok(raw) => Some(raw)
    case Err(_) => None
  }

  /** The text is taken for exactly `n` smallest units. */
  predicate Reads(text: string, scale: int, allowZero: bool, relaxed: bool, n: int)
  {
    var raw := RawOf(text, scale, allowZero, relaxed);
    raw.Some? && Amounts.IsWhole(raw.value, n)
  }

  /** A call of the accounting service for one withdrawal, with its texts. */
  datatype StageCall =
    | FreezeCall(id: int, amount: string)
    | UnfreezeCall(id: int, amount: string)
    | SettleCall(id: int, amount: string, fee: string, relaxed: bool)
  {
    function Stage(): Stage
    {
      match this
      case FreezeCall(_, _) => FreezeStage
      case UnfreezeCall(_, _) => UnfreezeStage
      case SettleCall(_, _, _, _) => SettleStage
    }
  }

  function Debit(e: Env, account: int, bucket: string, raw: Dec): RawPosting
  {
    RawPosting(e.asset, account, bucket, raw, ZERO)
  }

  function Credit(e: Env, account: int, bucket: string, raw: Dec): RawPosting
  {
    RawPosting(e.asset, account, bucket, ZERO, raw)
  }

  /** The postings a call sends, or none when its texts do not parse. */
  function CallPostings(e: Env, c: StageCall): Option<seq<RawPosting>>
  {
    match c
    case FreezeCall(_, amount) =>
      (match RawOf(amount, e.scale, false, false)
       case Some(raw) => Some([Debit(e, e.user, "available", raw), Credit(e, e.user, "locked", raw)])
       case None => None)
    case UnfreezeCall(_, amount) =>
      (match RawOf(amount, e.scale, false, false)
       case Some(raw) => Some([Debit(e, e.user, "locked", raw), Credit(e, e.user, "available", raw)])
       case None => None)
    case SettleCall(_, amount, fee, relaxed) =>
      match (RawOf(amount, e.scale, false, relaxed), RawOf(fee, e.scale, true, relaxed))
      case (Some(net), Some(charged)) =>
        var total := Add(net, charged);
        if Amounts.ValidateDecimal65Int(total).Err? || !Less(ZERO, total) then None
        else
          Some([Debit(e, e.user, "locked", total), Credit(e, e.hot, "available", net)] +
               if Less(ZERO, charged) then [Credit(e, e.fee, "available", charged)] else [])
      case _ => None
  }

  function Perform(e: Env, db: DB, c: StageCall, txID: int): (DB, Outcome)
  {
    match CallPostings(e, c)
    case Some(raw) => Post(e.chart, db, StageRequest(c.Stage(), c.id, raw), txID)
    case None => (db, Refused(InvalidRequest))
  }

  // ------------------------------------------------- what the engine admits

  lemma BucketNames()
    ensures BucketOf("available") == Some(Available) && BucketOf("locked") == Some(Locked)
  {
    assert ToLower("available") == "available" && ToLower("locked") == "locked";
    assert Trimmed("available") && Trimmed("locked");
    assert |"available"| != |"locked"|;
  }

  lemma ZeroAmount()
    ensures Amounts.IsWhole(ZERO, 0) && Amounts.ValidateDecimal65Int(ZERO).Ok? && WholeOf(ZERO) == 0
  {
    hide Amounts.ValidateDecimal65Int, Pow10;
    PowerIsPositive();
    assert Amounts.IsWhole(ZERO, 0) && Amounts.InRange65(0);
    Amounts.ValidateAcceptsExactly(ZERO);
  }

  lemma WholeAmount(raw: Dec, n: int)
    requires Amounts.IsWhole(raw, n) && 0 < n < Pow10(65)
    ensures raw.coef > 0 && Amounts.ValidateDecimal65Int(raw).Ok? && WholeOf(raw) == n
  {
    hide Amounts.ValidateDecimal65Int, Pow10;
    Amounts.WholeSign(raw, n);
    assert Amounts.InRange65(n);
    Amounts.ValidateAcceptsExactly(raw);
    WholeOfIs(raw);
    Amounts.IsWholeUnique(raw, n, WholeOf(raw));
  }

  predicate Named(p: RawPosting, bucket: Bucket)
  {
    p.asset != "" && ToUpper(TrimSpace(p.asset)) == p.asset && p.account > 0 && BucketOf(p.bucket) == Some(bucket)
  }

  lemma AdmitsDebit(p: RawPosting, bucket: Bucket, n: int)
    requires Named(p, bucket) && p.credit == ZERO && Amounts.IsWhole(p.debit, n) && 0 < n < Pow10(65)
    ensures Admit(p) == Some(Posting(p.asset, p.account, bucket, n, 0))
  {
    hide Amounts.ValidateDecimal65Int, Pow10, Less, Equal, WholeOf, TrimSpace, ToUpper, BucketOf;
    ZeroAmount();
    WholeAmount(p.debit, n);
    CompareZeroes(p);
  }

  lemma AdmitsCredit(p: RawPosting, bucket: Bucket, n: int)
    requires Named(p, bucket) && p.debit == ZERO && Amounts.IsWhole(p.credit, n) && 0 < n < Pow10(65)
    ensures Admit(p) == Some(Posting(p.asset, p.account, bucket, 0, n))
  {
    hide Amounts.ValidateDecimal65Int, Pow10, Less, Equal, WholeOf, TrimSpace, ToUpper, BucketOf;
    ZeroAmount();
    WholeAmount(p.credit, n);
    CompareZeroes(p);
  }

  /** The numbers a call carries: the net and fee it settles, or what it freezes or unfreezes as
      the net. */
  predicate Carries(e: Env, c: StageCall, net: nat, fee: nat)
  {
    net > 0 && net + fee < Pow10(65) && 0 < c.id < 0x8000_0000_0000_0000 &&
    match c
    case FreezeCall(_, amount) => Reads(amount, e.scale, false, false, net) && fee == 0
    case UnfreezeCall(_, amount) => Reads(amount, e.scale, false, false, net) && fee == 0
    case SettleCall(_, amount, charged, relaxed) =>
      Reads(amount, e.scale, false, relaxed, net) && Reads(charged, e.scale, true, relaxed, fee)
  }

  lemma ReadIsPositive(text: string, scale: int, allowZero: bool, relaxed: bool)
    requires RawOf(text, scale, allowZero, relaxed).Some?
    ensures exists n: nat :: Reads(text, scale, allowZero, relaxed, n)
    ensures forall n: int :: Reads(text, scale, allowZero, relaxed, n) ==>
              n >= (if allowZero then 0 else 1) && n < Pow10(65)
  {
    hide Amounts.ParseDecimalToRawExact, Amounts.ParseDecimalToRawRelaxed, Amounts.IsWhole, Value, RealScale,
      NewFromString, TrimSpace, Pow10;
    var raw := RawOf(text, scale, allowZero, relaxed).value;
    if relaxed {
      Amounts.RelaxedAcceptsExactly(text, scale, allowZero);
    } else {
      Amounts.ExactByValue(text, scale, allowZero);
    }
    var n :| Amounts.IsWhole(raw, n);
    Amounts.IsWholeValue(raw, n);
    RawIsInRange(text, scale, allowZero, relaxed, n);
    forall k | Amounts.IsWhole(raw, k) ensures k == n {
      Amounts.IsWholeUnique(raw, k, n);
    }
    assert Reads(text, scale, allowZero, relaxed, n);
  }

  lemma RawIsInRange(text: string, scale: int, allowZero: bool, relaxed: bool, n: int)
    requires Reads(text, scale, allowZero, relaxed, n)
    ensures n >= (if allowZero then 0 else 1) && n < Pow10(65)
  {
    hide Amounts.ParseDecimalToRawExact, Amounts.ParseDecimalToRawRelaxed, Amounts.IsWhole, Value, RealScale,
      NewFromString, TrimSpace, Pow10;
    var raw := RawOf(text, scale, allowZero, relaxed).value;
    Amounts.IsWholeValue(raw, n);
    if relaxed {
      Amounts.RelaxedAcceptsExactly(text, scale, allowZero);
      var x := RealScale(Value(NewFromString(TrimSpace(text)).value), scale);
      Amounts.IsWholeUnique(raw, n, x.Floor);
      Amounts.BelowBound(x, n);
    } else {
      Amounts.ExactByValue(text, scale, allowZero);
    }
  }

  /** A call carries numbers exactly when it sends postings: the texts parse and, for a
      settlement, the sum stays below 10^65. */
  lemma CarriesExactly(e: Env, c: StageCall)
    requires 0 < c.id < 0x8000_0000_0000_0000
    ensures CallPostings(e, c).Some? <==> exists net: nat, fee: nat :: Carries(e, c, net, fee)
  {
    hide RawOf, Amounts.IsWhole, Pow10, Add, Less, Amounts.ValidateDecimal65Int;
    match c {
      case FreezeCall(_, amount) =>
        if RawOf(amount, e.scale, false, false).Some? {
          ReadIsPositive(amount, e.scale, false, false);
          var n: nat :| Reads(amount, e.scale, false, false, n);
          assert Carries(e, c, n, 0);
        }
      case UnfreezeCall(_, amount) =>
        if RawOf(amount, e.scale, false, false).Some? {
          ReadIsPositive(amount, e.scale, false, false);
          var n: nat :| Reads(amount, e.scale, false, false, n);
          assert Carries(e, c, n, 0);
        }
      case SettleCall(_, amount, charged, relaxed) =>
        if RawOf(amount, e.scale, false, relaxed).Some? && RawOf(charged, e.scale, true, relaxed).Some? {
          ReadIsPositive(amount, e.scale, false, relaxed);
          ReadIsPositive(charged, e.scale, true, relaxed);
          var n: nat :| Reads(amount, e.scale, false, relaxed, n);
          var f: nat :| Reads(charged, e.scale, true, relaxed, f);
          var raw, rawFee := RawOf(amount, e.scale, false, relaxed).value, RawOf(charged, e.scale, true, relaxed).value;
          SettledTotal(raw, rawFee, n, f);
          if CallPostings(e, c).Some? {
            assert Carries(e, c, n, f);
          }
          forall net: nat, fee: nat | Carries(e, c, net, fee) ensures net == n && fee == f {
            Amounts.IsWholeUnique(RawOf(amount, e.scale, false, relaxed).value, net, n);
            Amounts.IsWholeUnique(RawOf(charged, e.scale, true, relaxed).value, fee, f);
          }
        }
    }
  }

  lemma SettledTotal(net: Dec, fee: Dec, n: nat, f: nat)
    requires Amounts.IsWhole(net, n) && Amounts.IsWhole(fee, f) && n > 0
    ensures Amounts.ValidateDecimal65Int(Add(net, fee)).Ok? && Less(ZERO, Add(net, fee)) <==> n + f < Pow10(65)
  {
    hide Amounts.ValidateDecimal65Int, Add, Less, Pow10, Amounts.IsWhole;
    SumIsWhole(net, fee, n, f);
    Amounts.ValidateAcceptsExactly(Add(net, fee));
    if k :| Amounts.IsWhole(Add(net, fee), k) && Amounts.InRange65(k) {
      Amounts.IsWholeUnique(Add(net, fee), k, n + f);
    }
    if n + f < Pow10(65) {
      TotalIsWhole(net, fee, n, f);
    }
  }

  function StagePostings(e: Env, stage: Stage, net: nat, fee: nat): seq<Posting>
  {
    match stage
    case FreezeStage =>
      [Posting(e.asset, e.user, Available, net + fee, 0), Posting(e.asset, e.user, Locked, 0, net + fee)]
    case UnfreezeStage =>
      [Posting(e.asset, e.user, Locked, net + fee, 0), Posting(e.asset, e.user, Available, 0, net + fee)]
    case SettleStage =>
      [Posting(e.asset, e.user, Locked, net + fee, 0), Posting(e.asset, e.hot, Available, 0, net)] +
      if fee > 0 then [Posting(e.asset, e.fee, Available, 0, fee)] else []
  }

  lemma AdmitOneMore(ps: seq<RawPosting>, q: RawPosting, admitted: seq<Posting>, b: Posting)
    requires AdmitAll(ps) == Some(admitted) && Admit(q) == Some(b)
    ensures AdmitAll(ps + [q]) == Some(admitted + [b])
  {
    hide Admit;
    assert (ps + [q])[..|ps|] == ps;
  }

  lemma AdmitTwo(p: RawPosting, q: RawPosting, a: Posting, b: Posting)
    requires Admit(p) == Some(a) && Admit(q) == Some(b)
    ensures AdmitAll([p, q]) == Some([a, b])
  {
    hide Admit;
    AdmitOneMore([], p, [], a);
    assert [] + [p] == [p] && [] + [a] == [a];
    AdmitOneMore([p], q, [a], b);
    assert [p] + [q] == [p, q] && [a] + [b] == [a, b];
  }

  lemma SumIsWhole(net: Dec, fee: Dec, n: nat, f: nat)
    requires Amounts.IsWhole(net, n) && Amounts.IsWhole(fee, f)
    ensures Amounts.IsWhole(Add(net, fee), n + f)
  {
    hide Value, Add, Amounts.IsWhole;
    ArithmeticIsExact(net, fee);
    Amounts.IsWholeValue(net, n);
    Amounts.IsWholeValue(fee, f);
    assert (n + f) as real == n as real + f as real;
    Amounts.IsWholeValue(Add(net, fee), n + f);
  }

  lemma TotalIsWhole(net: Dec, fee: Dec, n: nat, f: nat)
    requires Amounts.IsWhole(net, n) && Amounts.IsWhole(fee, f) && n > 0 && n + f < Pow10(65)
    ensures Amounts.IsWhole(Add(net, fee), n + f) && Amounts.ValidateDecimal65Int(Add(net, fee)).Ok?
    ensures Less(ZERO, Add(net, fee)) && (Less(ZERO, fee) <==> f > 0)
  {
    hide Amounts.ValidateDecimal65Int, Add, Less, Pow10, Amounts.IsWhole;
    SumIsWhole(net, fee, n, f);
    WholeAmount(Add(net, fee), n + f);
    Amounts.CompareZero(Add(net, fee));
    Amounts.CompareZero(fee);
    Amounts.WholeSign(fee, f);
  }

  /** What a call sends is admitted as the postings of its numbers. */
  lemma StageAdmitted(e: Env, c: StageCall, net: nat, fee: nat)
    requires Ready(e) && Carries(e, c, net, fee)
    ensures CallPostings(e, c).Some?
    ensures AdmitAll(CallPostings(e, c).value) == Some(StagePostings(e, c.Stage(), net, fee))
  {
    hide RawOf, Amounts.IsWhole, Pow10, Admit, AdmitAll, TrimSpace, ToUpper, BucketOf, Less, Add,
      Amounts.ValidateDecimal65Int;
    BucketNames();
    match c {
      case FreezeCall(_, amount) =>
        var raw := RawOf(amount, e.scale, false, false).value;
        AdmitsDebit(Debit(e, e.user, "available", raw), Available, net);
        AdmitsCredit(Credit(e, e.user, "locked", raw), Locked, net);
        AdmitTwo(Debit(e, e.user, "available", raw), Credit(e, e.user, "locked", raw),
                 Posting(e.asset, e.user, Available, net, 0), Posting(e.asset, e.user, Locked, 0, net));
      case UnfreezeCall(_, amount) =>
        var raw := RawOf(amount, e.scale, false, false).value;
        AdmitsDebit(Debit(e, e.user, "locked", raw), Locked, net);
        AdmitsCredit(Credit(e, e.user, "available", raw), Available, net);
        AdmitTwo(Debit(e, e.user, "locked", raw), Credit(e, e.user, "available", raw),
                 Posting(e.asset, e.user, Locked, net, 0), Posting(e.asset, e.user, Available, 0, net));
      case SettleCall(_, amount, charged, relaxed) =>
        var n, f := RawOf(amount, e.scale, false, relaxed).value, RawOf(charged, e.scale, true, relaxed).value;
        TotalIsWhole(n, f, net, fee);
        SettleAdmitted(e, n, f, net, fee);
    }
  }

  lemma SettleAdmitted(e: Env, n: Dec, f: Dec, net: nat, fee: nat)
    requires Ready(e) && Amounts.IsWhole(n, net) && Amounts.IsWhole(f, fee) && net > 0 && net + fee < Pow10(65)
    ensures AdmitAll([Debit(e, e.user, "locked", Add(n, f)), Credit(e, e.hot, "available", n)] +
                     if Less(ZERO, f) then [Credit(e, e.fee, "available", f)] else [])
            == Some(StagePostings(e, SettleStage, net, fee))
  {
    hide Amounts.IsWhole, Pow10, Admit, AdmitAll, TrimSpace, ToUpper, BucketOf, Less, Add, Amounts.ValidateDecimal65Int;
    BucketNames();
    TotalIsWhole(n, f, net, fee);
    var p, q := Debit(e, e.user, "locked", Add(n, f)), Credit(e, e.hot, "available", n);
    var a, b := Posting(e.asset, e.user, Locked, net + fee, 0), Posting(e.asset, e.hot, Available, 0, net);
    AdmitsDebit(p, Locked, net + fee);
    AdmitsCredit(q, Available, net);
    AdmitTwo(p, q, a, b);
    if fee > 0 {
      AdmitsCredit(Credit(e, e.fee, "available", f), Available, fee);
      AdmitOneMore([p, q], Credit(e, e.fee, "available", f), [a, b], Posting(e.asset, e.fee, Available, 0, fee));
    } else {
      assert [p, q] + [] == [p, q] && [a, b] + [] == [a, b];
    }
  }

  // ---------------------------------------------------------- the postings

  lemma IdText(id: int)
    requires 0 < id < 0x8000_0000_0000_0000
    ensures AllDigits(IntToString(id)) && 1 <= |IntToString(id)| <= 19
  {
    assert Pow10(19) == 10000000000000000000 by { NineteenDigits(); }
    NatToStringLength(id, 19);
  }

  lemma NineteenDigits()
    ensures Pow10(19) == 10000000000000000000
  {
    ScaleAdd(1, 10, 9);
    assert Scale(1, 10) == 10000000000;
    assert Scale(10000000000, 9) == 10000000000000000000;
  }

  predicate Plain(s: string) { s != "" && Trimmed(s) && forall i :: 0 <= i < |s| ==> IsAscii(s[i]) }

  lemma IdIsPlain(id: int)
    requires 0 < id < 0x8000_0000_0000_0000
    ensures Plain(IntToString(id)) && |IntToString(id)| <= 19
  {
    IdText(id);
    hide IntToString;
    var text := IntToString(id);
    assert IsDigit(text[0]) && IsDigit(text[|text| - 1]);
  }

  lemma NamesArePlain(stage: Stage)
    ensures Plain(OpName(stage)) && |OpName(stage)| <= 20
    ensures Prefix(stage) != "" && !IsSpace(Prefix(stage)[0]) && |Prefix(stage)| <= 20
    ensures forall i :: 0 <= i < |Prefix(stage)| ==> IsAscii(Prefix(stage)[i])
  {
  }

  lemma KeyIsPlain(stage: Stage, id: int)
    requires 0 < id < 0x8000_0000_0000_0000
    ensures Plain(StageKey(stage, id)) && |StageKey(stage, id)| <= 40
  {
    IdIsPlain(id);
    NamesArePlain(stage);
    hide IntToString, Prefix, IsSpace;
    var prefix, text := Prefix(stage), IntToString(id);
    assert (prefix + text)[0] == prefix[0] && (prefix + text)[|prefix + text| - 1] == text[|text| - 1];
  }

  /** Keys and names pass the engine's checks as they are. */
  lemma NamesPass(stage: Stage, id: int)
    requires 0 < id < 0x8000_0000_0000_0000
    ensures TrimSpace(StageKey(stage, id)) == StageKey(stage, id) != "" && ByteLength(StageKey(stage, id)) <= 128
    ensures TrimSpace(OpName(stage)) == OpName(stage) != "" && ByteLength(OpName(stage)) <= 64
    ensures TrimSpace(IntToString(id)) == IntToString(id) && ByteLength(IntToString(id)) <= 128
  {
    hide IntToString, OpName, StageKey, TrimSpace, ByteLength, Trimmed;
    KeyIsPlain(stage, id);
    NamesArePlain(stage);
    IdIsPlain(id);
    AsciiByteLength(StageKey(stage, id));
    AsciiByteLength(OpName(stage));
    AsciiByteLength(IntToString(id));
  }

  lemma {:induction false} SumsConcat(ps: seq<Posting>, qs: seq<Posting>, asset: string)
    ensures DebitSum(ps + qs, asset) == DebitSum(ps, asset) + DebitSum(qs, asset)
    ensures CreditSum(ps + qs, asset) == CreditSum(ps, asset) + CreditSum(qs, asset)
    decreases |qs|
  {
    if qs == [] {
      assert ps + qs == ps;
    } else {
      assert (ps + qs)[..|ps + qs| - 1] == ps + qs[..|qs| - 1];
      SumsConcat(ps, qs[..|qs| - 1], asset);
    }
  }

  lemma OneSum(p: Posting)
    ensures DebitSum([p], p.asset) == p.debit && CreditSum([p], p.asset) == p.credit
  {
    assert [p][..|[p]| - 1] == [] && DebitSum([], p.asset) == 0 && CreditSum([], p.asset) == 0;
  }

  lemma StageBalanced(e: Env, stage: Stage, net: nat, fee: nat)
    ensures Balanced(StagePostings(e, stage, net, fee))
  {
    var ps := StagePostings(e, stage, net, fee);
    assert [ps[0]] + [ps[1]] == ps[..2] && ps == ps[..2] + ps[2..];
    OneSum(ps[0]);
    OneSum(ps[1]);
    SumsConcat([ps[0]], [ps[1]], e.asset);
    SumsConcat(ps[..2], ps[2..], e.asset);
    if |ps| == 3 {
      OneSum(ps[2]);
      assert ps[2..] == [ps[2]];
    }
    assert forall p <- ps :: p.asset == e.asset;
  }

  lemma StageAccounts(e: Env, stage: Stage, net: nat, fee: nat, p: Posting)
    requires Ready(e) && p in StagePostings(e, stage, net, fee)
    ensures Served(e.chart, p)
  {
    hide Ready, SideOf;
    ReadyAccounts(e);
    var ps := StagePostings(e, stage, net, fee);
    var i :| 0 <= i < |ps| && ps[i] == p;
    assert (p.account == e.user || p.account == e.hot || p.account == e.fee) && p.asset == e.asset;
  }

  lemma ReadyAccounts(e: Env)
    requires Ready(e)
    ensures forall a: int :: a == e.user || a == e.hot || a == e.fee ==>
      a in e.chart.sides && (a, e.asset) in e.chart.supported && !SideOf(e.chart, a).NoSide?
  {
  }

  function StageRequest(stage: Stage, id: int, raw: seq<RawPosting>): Request
  {
    Request(StageKey(stage, id), OpName(stage), IntToString(id), raw)
  }

  lemma CheckPasses(chart: Chart, req: Request, ps: seq<Posting>)
    requires TrimSpace(req.key) != "" && ByteLength(TrimSpace(req.key)) <= 128
    requires TrimSpace(req.op) != "" && ByteLength(TrimSpace(req.op)) <= 64 && ByteLength(TrimSpace(req.bizRef)) <= 128
    requires AdmitAll(req.postings) == Some(ps) && ps != [] && Balanced(ps)
    requires forall p <- ps :: Served(chart, p)
    ensures Checked(chart, req).0 == Some(ps)
  {
    hide AdmitAll, TrimSpace, ByteLength, Balanced;
    AdmitAllLength(req.postings);
  }

  /** The engine's checks pass for every call that carries numbers. */
  lemma StageChecked(e: Env, c: StageCall, net: nat, fee: nat)
    requires Ready(e) && Carries(e, c, net, fee)
    ensures CallPostings(e, c).Some?
    ensures Checked(e.chart, StageRequest(c.Stage(), c.id, CallPostings(e, c).value)).0 ==
            Some(StagePostings(e, c.Stage(), net, fee))
  {
    hide Checked, AdmitAll, TrimSpace, ByteLength, StageKey, OpName, IntToString, Balanced, CallPostings,
      Ready, Carries, SideOf;
    CarryBounds(e, c, net, fee);
    StageAdmitted(e, c, net, fee);
    NamesPass(c.Stage(), c.id);
    StageBalanced(e, c.Stage(), net, fee);
    forall p <- StagePostings(e, c.Stage(), net, fee) ensures Served(e.chart, p) {
      StageAccounts(e, c.Stage(), net, fee, p);
    }
    CheckPasses(e.chart, StageRequest(c.Stage(), c.id, CallPostings(e, c).value),
                StagePostings(e, c.Stage(), net, fee));
  }

  lemma CarryBounds(e: Env, c: StageCall, net: nat, fee: nat)
    requires Carries(e, c, net, fee)
    ensures net > 0 && net + fee < Pow10(65) && 0 < c.id < 0x8000_0000_0000_0000
  {
  }

  // --------------------------------------------------------------- effects

  /** What a stage does to each row. */
  function Effect(e: Env, stage: Stage, net: nat, fee: nat, k: Key): int
  {
    var frozen: int, net: int := net + fee, net;
    match stage
    case FreezeStage => if k == AvailableKey(e) then -frozen else if k == LockedKey(e) then frozen else 0
    case UnfreezeStage => if k == AvailableKey(e) then frozen else if k == LockedKey(e) then -frozen else 0
    case SettleStage =>
      if k == LockedKey(e) then -frozen else if k == HotKey(e) then -net else if k == FeeKey(e) then fee else 0
  }

  /** Room in the rows a stage adds to, and funds in those it takes from. */
  predicate HasRoom(e: Env, b: Balances, stage: Stage, net: nat, fee: nat)
  {
    match stage
    case FreezeStage => Get(b, AvailableKey(e)) >= net + fee && Get(b, LockedKey(e)) + net + fee < Pow10(65)
    case UnfreezeStage => Get(b, LockedKey(e)) >= net + fee && Get(b, AvailableKey(e)) + net + fee < Pow10(65)
    case SettleStage =>
      Get(b, LockedKey(e)) >= net + fee && Get(b, HotKey(e)) >= net && (fee > 0 ==> Get(b, FeeKey(e)) + fee < Pow10(65))
  }

  lemma Sides(e: Env)
    requires Ready(e)
    ensures SideOf(e.chart, e.user) == CreditSide && SideOf(e.chart, e.fee) == CreditSide
    ensures SideOf(e.chart, e.hot) == DebitSide
    ensures e.user != e.hot && e.user != e.fee && e.hot != e.fee
  {
  }

  lemma DeltaOfPostings(chart: Chart, ps: seq<Posting>, k: Key)
    requires 2 <= |ps| <= 3
    ensures DeltaSum(chart, ps, k) ==
            (if KeyOf(ps[0]) == k then Delta(chart, ps[0]) else 0) +
            (if KeyOf(ps[1]) == k then Delta(chart, ps[1]) else 0) +
            (if |ps| == 3 && KeyOf(ps[2]) == k then Delta(chart, ps[2]) else 0)
  {
    hide Delta, KeyOf, DeltaSum;
    OneDelta(chart, ps[0], k);
    OneDelta(chart, ps[1], k);
    DeltaSumConcat(chart, [ps[0]], [ps[1]], k);
    if |ps| == 3 {
      OneDelta(chart, ps[2], k);
      DeltaSumConcat(chart, [ps[0]] + [ps[1]], [ps[2]], k);
      assert ps == [ps[0]] + [ps[1]] + [ps[2]];
    } else {
      assert ps == [ps[0]] + [ps[1]];
    }
  }

  lemma StageDelta(e: Env, stage: Stage, net: nat, fee: nat, k: Key)
    requires Ready(e)
    ensures DeltaSum(e.chart, StagePostings(e, stage, net, fee), k) == Effect(e, stage, net, fee, k)
  {
    hide Ready, DeltaSum, SideOf;
    Sides(e);
    DeltaOfPostings(e.chart, StagePostings(e, stage, net, fee), k);
  }

  predicate Fresh(db: DB, key: string, txID: int)
  {
    Find(db.journal, key).None? && forall t <- db.journal :: t.id != txID
  }

  lemma BalancesInRange(chart: Chart, db: DB, k: Key)
    requires Sound(chart, db)
    ensures 0 <= Get(db.balances, k) < Pow10(65)
  {
    hide Replay, Pow10, OncePerKey;
    PowerIsPositive();
  }

  lemma FitsEach(chart: Chart, b: Balances, ps: seq<Posting>)
    ensures AllFit(chart, b, ps) <==>
            forall i :: 0 <= i < |ps| ==> Fits(Get(b, KeyOf(ps[i])), DeltaSum(chart, ps, KeyOf(ps[i])))
  {
    hide Fits, DeltaSum, Get, KeyOf;
  }

  function FirstRow(e: Env, stage: Stage): Key { if stage.FreezeStage? then AvailableKey(e) else LockedKey(e) }

  function SecondRow(e: Env, stage: Stage): Key
  {
    match stage
    case FreezeStage => LockedKey(e)
    case UnfreezeStage => AvailableKey(e)
    case SettleStage => HotKey(e)
  }

  lemma StageRows(e: Env, stage: Stage, net: nat, fee: nat)
    ensures var ps := StagePostings(e, stage, net, fee);
            |ps| == (if stage.SettleStage? && fee > 0 then 3 else 2) &&
            KeyOf(ps[0]) == FirstRow(e, stage) && KeyOf(ps[1]) == SecondRow(e, stage) &&
            (|ps| == 3 ==> KeyOf(ps[2]) == FeeKey(e))
  {
  }

  predicate EffectFits(e: Env, b: Balances, stage: Stage, net: nat, fee: nat, k: Key)
  {
    Fits(Get(b, k), Effect(e, stage, net, fee, k))
  }

  /** Row by row, the effect of a stage fits exactly when there are funds and room. */
  lemma RoomIsFit(e: Env, b: Balances, stage: Stage, net: nat, fee: nat)
    requires Ready(e) && net > 0 && net + fee < Pow10(65)
    requires forall k: Key :: 0 <= Get(b, k) < Pow10(65)
    ensures HasRoom(e, b, stage, net, fee) <==>
            EffectFits(e, b, stage, net, fee, FirstRow(e, stage)) &&
            EffectFits(e, b, stage, net, fee, SecondRow(e, stage)) &&
            (stage.SettleStage? && fee > 0 ==> EffectFits(e, b, stage, net, fee, FeeKey(e)))
  {
    hide Get, Pow10, Ready, AvailableKey, LockedKey, HotKey, FeeKey;
    KeysApart(e);
    assert 0 <= Get(b, AvailableKey(e)) && 0 <= Get(b, LockedKey(e));
    assert 0 <= Get(b, HotKey(e)) && 0 <= Get(b, FeeKey(e));
  }

  lemma StageFits(e: Env, db: DB, stage: Stage, net: nat, fee: nat)
    requires Ready(e) && Sound(e.chart, db) && net > 0 && net + fee < Pow10(65)
    ensures AllFit(e.chart, db.balances, StagePostings(e, stage, net, fee)) <==>
            HasRoom(e, db.balances, stage, net, fee)
  {
    hide Sound, DeltaSum, Get, Pow10, AllFit, Ready, StagePostings, KeyOf, FeeKey, FirstRow, SecondRow;
    hide Fits, Effect, HasRoom;
    var ps, b := StagePostings(e, stage, net, fee), db.balances;
    FitsEach(e.chart, b, ps);
    StageRows(e, stage, net, fee);
    forall k: Key ensures 0 <= Get(b, k) < Pow10(65) {
      BalancesInRange(e.chart, db, k);
    }
    RoomIsFit(e, b, stage, net, fee);
    StageDelta(e, stage, net, fee, FirstRow(e, stage));
    StageDelta(e, stage, net, fee, SecondRow(e, stage));
    StageDelta(e, stage, net, fee, FeeKey(e));
  }

  /** A checked request under a fresh key is posted exactly when its netted rows fit, and then
      moves every row by its net amount; otherwise nothing changes. */
  lemma PostExactly(chart: Chart, db: DB, req: Request, ps: seq<Posting>, txID: int)
    requires Sound(chart, db) && Checked(chart, req).0 == Some(ps) && Fresh(db, TrimSpace(req.key), txID)
    ensures var (after, outcome) := Post(chart, db, req, txID);
            if AllFit(chart, db.balances, ps) then
              outcome == Posted(txID, false) && Sound(chart, after) &&
              forall k :: Get(after.balances, k) == Get(db.balances, k) + DeltaSum(chart, ps, k)
            else after == db && outcome.Refused?
  {
    hide Sound, AllFit, Commit, FinalOf, DeltaSum, Get, Find, Checked, TrimSpace;
    CommitExactly(chart, db, TxOf(req, txID, ps));
    PostKeeps(chart, db, req, txID);
    forall k ensures Get(FinalOf(chart, db.balances, ps), k) == Get(db.balances, k) + DeltaSum(chart, ps, k) {
      FinalAt(chart, db.balances, ps, k);
    }
  }

  /** A call under a fresh key is posted exactly when the rows have funds and room; it then moves
      frozen, net and fee amounts exactly, and touches no other balance. */
  lemma StageExactly(e: Env, db: DB, c: StageCall, net: nat, fee: nat, txID: int)
    requires Ready(e) && Sound(e.chart, db) && Carries(e, c, net, fee) && Fresh(db, StageKey(c.Stage(), c.id), txID)
    ensures var (after, outcome) := Perform(e, db, c, txID);
            if HasRoom(e, db.balances, c.Stage(), net, fee) then
              outcome == Posted(txID, false) && Sound(e.chart, after) &&
              forall k :: Get(after.balances, k) == Get(db.balances, k) + Effect(e, c.Stage(), net, fee, k)
            else after == db && outcome.Refused?
  {
    hide Sound, Carries, AllFit, HasRoom, Checked, CallPostings, DeltaSum, Get, StageKey, OpName, IntToString, Find,
      Pow10, Effect, StagePostings, Ready, Post, ByteLength, TrimSpace, Fresh;
    CarryBounds(e, c, net, fee);
    StageChecked(e, c, net, fee);
    NamesPass(c.Stage(), c.id);
    StageFits(e, db, c.Stage(), net, fee);
    var ps := StagePostings(e, c.Stage(), net, fee);
    PostExactly(e.chart, db, StageRequest(c.Stage(), c.id, CallPostings(e, c).value), ps, txID);
    forall k ensures DeltaSum(e.chart, ps, k) == Effect(e, c.Stage(), net, fee, k) {
      StageDelta(e, c.Stage(), net, fee, k);
    }
  }

  // ------------------------------------------------------------- orders

  /** The calls made for an order: freezing, the worker's settling and unfreezing, and an
      administrator's completion, rejection or cancellation. */
  function FreezeOf(o: Order): StageCall { FreezeCall(o.id, o.amount) }
  function SettleOf(o: Order): StageCall { SettleCall(o.id, NetText(o), SettledFeeText(o), false) }
  function UnfreezeOf(o: Order): StageCall { UnfreezeCall(o.id, UnfreezeText(o)) }
  function CompleteOf(o: Order): StageCall { SettleCall(o.id, NetText(o), SettledFeeText(o), true) }
  function CancelOf(o: Order): StageCall { UnfreezeCall(o.id, CancelText(o)) }

  lemma OrderKeepsId(id: int, amount: Dec, fee: Dec, minWithdraw: Dec)
    ensures var o := CreateOrder(id, amount, fee, minWithdraw); o.Some? ==> o.value.id == id
  {
    hide WithdrawFee.ValidateGrossAmount, ToString, WithdrawFee.TruncateAccounting;
  }

  lemma ParsesIsReads(text: string, scale: int, allowZero: bool, n: int)
    ensures ParsesTo(text, scale, allowZero, n) <==> Reads(text, scale, allowZero, false, n)
    ensures RelaxedParsesTo(text, scale, allowZero, n) <==> Reads(text, scale, allowZero, true, n)
  {
    hide Amounts.ParseDecimalToRawExact, Amounts.ParseDecimalToRawRelaxed, Amounts.IsWhole;
  }

  /** Which calls a frozen order can still make, at every precision: cancelling always returns
      what was frozen; the worker unfreezes it at six digits or more, and settles it where the
      precision holds the fee's decimals; completing by hand takes all of it or leaves one unit. */
  lemma OrderCallsExactly(e: Env, amount: Dec, fee: Dec, minWithdraw: Dec, id: int, o: Order, frozen: nat)
    requires CreateOrder(id, amount, fee, minWithdraw) == Some(o) && e.scale <= 30
    requires Carries(e, FreezeOf(o), frozen, 0)
    ensures Carries(e, CancelOf(o), frozen, 0)
    ensures if e.scale >= 6 then Carries(e, UnfreezeOf(o), frozen, 0) else CallPostings(e, UnfreezeOf(o)).None?
    ensures (exists net: nat, charged: nat :: Carries(e, SettleOf(o), net, charged)) <==>
            Amounts.WrittenDecimals(o.fee) <= e.scale
    ensures forall net: nat, charged: nat :: Carries(e, SettleOf(o), net, charged) ==> net + charged == frozen
    ensures forall net: nat, charged: nat :: Carries(e, CompleteOf(o), net, charged) ==>
              net + charged == frozen - if Amounts.WrittenDecimals(o.fee) <= e.scale then 0 else 1
  {
    hide Reads, ParsesTo, RelaxedParsesTo, RawOf, CreateOrder, Amounts.WrittenDecimals, NetText, SettledFeeText,
      UnfreezeText, CancelText, Pow10, RealScale, Value;
    OrderKeepsId(id, amount, fee, minWithdraw);
    forall text: string, allowZero: bool, n: int
      ensures ParsesTo(text, e.scale, allowZero, n) <==> Reads(text, e.scale, allowZero, false, n)
      ensures RelaxedParsesTo(text, e.scale, allowZero, n) <==> Reads(text, e.scale, allowZero, true, n)
    {
      ParsesIsReads(text, e.scale, allowZero, n);
    }
    CancelReturnsFrozen(amount, fee, minWithdraw, id, o, e.scale, frozen);
    SettleParsesExactly(amount, fee, minWithdraw, id, o, e.scale, frozen);
    CompletionLeavesDust(amount, fee, minWithdraw, id, o, e.scale, frozen);
    UnfreezeOrRefusal(e, amount, fee, minWithdraw, id, o, frozen);
    if net: nat, charged: nat :|
        ParsesTo(NetText(o), e.scale, false, net) && ParsesTo(SettledFeeText(o), e.scale, true, charged) {
      assert Carries(e, SettleOf(o), net, charged);
    }
  }

  lemma UnfreezeOrRefusal(e: Env, amount: Dec, fee: Dec, minWithdraw: Dec, id: int, o: Order, frozen: nat)
    requires CreateOrder(id, amount, fee, minWithdraw) == Some(o) && e.scale <= 30
    requires ParsesTo(o.amount, e.scale, false, frozen)
    ensures if e.scale >= 6 then ParsesTo(UnfreezeText(o), e.scale, false, frozen)
            else CallPostings(e, UnfreezeOf(o)).None?
  {
    hide CreateOrder, UnfreezeText, Amounts.IsWhole, Amounts.ParseDecimalToRawExact;
    UnfreezeParsesExactly(amount, fee, minWithdraw, id, o, e.scale);
    if e.scale >= 6 {
      UnfreezeReturnsFrozen(amount, fee, minWithdraw, id, o, e.scale, frozen);
    }
  }
}
