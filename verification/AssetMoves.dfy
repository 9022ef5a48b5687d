/** The other moves of a user's funds: freezing and unfreezing assets, and transfers
    (services/accounting/rpc/internal/logic/freezeUserAssetsLogic.go, unfreezeUserAssetsLogic.go and
    transferLogic.go). They share the locked rows with withdrawals. */
module AssetMoves {
  import opened Numerals
  import opened Decimals
  import opened Ledger
  import opened LedgerSafety
  import opened WithdrawOrders
  import opened WithdrawFlow
  import Amounts

  /** One bucket of one account. */
  datatype Place = Place(account: int, bucket: Bucket)

  /** A call of the accounting service, in the asset of the environment. */
  datatype AssetCall =
    | FreezeAssets(key: string, bizRef: string, account: int, amount: string)
    | UnfreezeAssets(key: string, bizRef: string, account: int, amount: string)
    | Transfer(key: string, bizRef: string, from: Place, to: Place, amount: string, relaxed: bool)
  {
    function Source(): Place
    {
      match this
      case FreezeAssets(_, _, account, _) => Place(account, Available)
      case UnfreezeAssets(_, _, account, _) => Place(account, Locked)
      case Transfer(_, _, from, _, _, _) => from
    }

    function Target(): Place
    {
      match this
      case FreezeAssets(_, _, account, _) => Place(account, Locked)
      case UnfreezeAssets(_, _, account, _) => Place(account, Available)
      case Transfer(_, _, _, to, _, _) => to
    }

    predicate Cuts() { Transfer? && relaxed }

    function Op(): string
    {
      match this
      case FreezeAssets(_, _, _, _) => "FreezeUserAssets"
      case UnfreezeAssets(_, _, _, _) => "UnfreezeUserAssets"
      case Transfer(_, _, _, _, _, _) => "Transfer"
    }
  }

  function BucketName(b: Bucket): string { if b.Available? then "available" else "locked" }

  function RowAt(e: Env, p: Place): Key { Key(p.account, e.asset, p.bucket) }

  function RawPair(e: Env, a: Place, b: Place, raw: Dec): seq<RawPosting>
  {
    [Debit(e, a.account, BucketName(a.bucket), raw), Credit(e, b.account, BucketName(b.bucket), raw)]
  }

  function PairPostings(e: Env, a: Place, b: Place, n: nat): seq<Posting>
  {
    [Posting(e.asset, a.account, a.bucket, n, 0), Posting(e.asset, b.account, b.bucket, 0, n)]
  }

  /** The postings a call sends; none when the amount does not parse or the transfer goes nowhere. */
  function AssetPostings(e: Env, c: AssetCall): Option<seq<RawPosting>>
  {
    if c.Source() == c.Target() then None
    else
      match RawOf(c.amount, e.scale, false, c.Cuts())
      case Some(raw) => Some(RawPair(e, c.Source(), c.Target(), raw))
      case None => None
  }

  function AssetRequest(c: AssetCall, raw: seq<RawPosting>): Request { Request(c.key, c.Op(), c.bizRef, raw) }

  function PerformAsset(e: Env, db: DB, c: AssetCall, txID: int): (DB, Outcome)
  {
    match AssetPostings(e, c)
    case Some(raw) => Post(e.chart, db, AssetRequest(c, raw), txID)
    case None => (db, Refused(InvalidRequest))
  }

  // -------------------------------------------------------------- admission

  lemma PairAdmitted(e: Env, a: Place, b: Place, raw: Dec, n: nat)
    requires Ready(e) && a.account > 0 && b.account > 0 && Amounts.IsWhole(raw, n) && 0 < n < Pow10(65)
    ensures AdmitAll(RawPair(e, a, b, raw)) == Some(PairPostings(e, a, b, n))
  {
    hide Admit, AdmitAll, TrimSpace, ToUpper, BucketOf, Pow10, Amounts.IsWhole;
    BucketNames();
    AdmitsDebit(Debit(e, a.account, BucketName(a.bucket), raw), a.bucket, n);
    AdmitsCredit(Credit(e, b.account, BucketName(b.bucket), raw), b.bucket, n);
    AdmitTwo(Debit(e, a.account, BucketName(a.bucket), raw), Credit(e, b.account, BucketName(b.bucket), raw),
             Posting(e.asset, a.account, a.bucket, n, 0), Posting(e.asset, b.account, b.bucket, 0, n));
  }

  lemma PairBalanced(e: Env, a: Place, b: Place, n: nat)
    ensures Balanced(PairPostings(e, a, b, n))
  {
    var ps := PairPostings(e, a, b, n);
    assert ps == [ps[0]] + [ps[1]];
    OneSum(ps[0]);
    OneSum(ps[1]);
    SumsConcat([ps[0]], [ps[1]], e.asset);
  }

  function PairDelta(e: Env, a: Place, b: Place, n: nat, k: Key): int
  {
    (if RowAt(e, a) != k then 0 else if SideOf(e.chart, a.account).DebitSide? then n else -(n as int)) +
    (if RowAt(e, b) != k then 0 else if SideOf(e.chart, b.account).DebitSide? then -(n as int) else n)
  }

  lemma PairMoves(e: Env, a: Place, b: Place, n: nat, k: Key)
    ensures DeltaSum(e.chart, PairPostings(e, a, b, n), k) == PairDelta(e, a, b, n, k)
  {
    hide DeltaSum, SideOf;
    DeltaOfPostings(e.chart, PairPostings(e, a, b, n), k);
  }

  /** The engine's checks pass for a pair between accounts that serve the asset. */
  lemma PairChecked(e: Env, req: Request, a: Place, b: Place, raw: Dec, n: nat)
    requires Ready(e) && a.account > 0 && b.account > 0 && Amounts.IsWhole(raw, n) && 0 < n < Pow10(65)
    requires req.postings == RawPair(e, a, b, raw) && NamesFit(req.key, req.op, req.bizRef)
    requires forall p <- PairPostings(e, a, b, n) :: Served(e.chart, p)
    ensures Checked(e.chart, req).0 == Some(PairPostings(e, a, b, n))
  {
    hide Checked, AdmitAll, TrimSpace, ByteLength, Balanced, RawPair, Served, Pow10, Amounts.IsWhole;
    PairAdmitted(e, a, b, raw, n);
    PairBalanced(e, a, b, n);
    CheckPasses(e.chart, req, PairPostings(e, a, b, n));
  }

  /** The call goes somewhere and its amount is read as `n` units. */
  predicate Transfers(e: Env, c: AssetCall, n: nat)
  {
    c.Source() != c.Target() && Reads(c.amount, e.scale, false, c.Cuts(), n)
  }

  lemma TransferBounds(e: Env, c: AssetCall, n: nat)
    requires Transfers(e, c, n)
    ensures 0 < n < Pow10(65) && AssetPostings(e, c).Some? && RawOf(c.amount, e.scale, false, c.Cuts()).Some?
    ensures Amounts.IsWhole(RawOf(c.amount, e.scale, false, c.Cuts()).value, n)
    ensures AssetPostings(e, c).value ==
            RawPair(e, c.Source(), c.Target(), RawOf(c.amount, e.scale, false, c.Cuts()).value)
  {
    hide RawOf, Amounts.IsWhole, Pow10;
    RawIsInRange(c.amount, e.scale, false, c.Cuts(), n);
  }

  /** A call sends postings exactly when it transfers some number of units. */
  lemma TransfersExactly(e: Env, c: AssetCall)
    ensures AssetPostings(e, c).Some? <==> exists n: nat :: Transfers(e, c, n)
  {
    hide RawOf, Amounts.IsWhole, Pow10;
    if AssetPostings(e, c).Some? {
      ReadIsPositive(c.amount, e.scale, false, c.Cuts());
      var n: nat :| Reads(c.amount, e.scale, false, c.Cuts(), n);
      assert Transfers(e, c, n);
    }
  }

  /** A transfer on historical data reads its amount by cutting it; every other call exactly. */
  lemma AmountsAreRead(e: Env, c: AssetCall, n: nat)
    ensures Transfers(e, c, n) <==>
            c.Source() != c.Target() &&
            if c.Transfer? && c.relaxed then RelaxedParsesTo(c.amount, e.scale, false, n)
            else ParsesTo(c.amount, e.scale, false, n)
  {
    hide Reads, ParsesTo, RelaxedParsesTo;
    ParsesIsReads(c.amount, e.scale, false, n);
  }

  lemma UserPairServed(e: Env, a: Place, b: Place, n: nat)
    requires Opened(e, a.account, CreditSide) && Opened(e, b.account, CreditSide)
    ensures forall p <- PairPostings(e, a, b, n) :: Served(e.chart, p)
  {
  }

  lemma OpsFit(c: AssetCall)
    ensures TrimSpace(c.Op()) == c.Op() != "" && ByteLength(c.Op()) <= 64
  {
    assert Trimmed(c.Op()) && |c.Op()| <= 20;
    assert forall i :: 0 <= i < |c.Op()| ==> IsAscii(c.Op()[i]);
    hide TrimSpace, ByteLength;
    AsciiByteLength(c.Op());
  }

  lemma PairFits(e: Env, db: DB, a: Place, b: Place, n: nat)
    requires Sound(e.chart, db) && a != b && 0 < n < Pow10(65)
    requires Opened(e, a.account, CreditSide) && Opened(e, b.account, CreditSide)
    ensures AllFit(e.chart, db.balances, PairPostings(e, a, b, n)) <==>
            Get(db.balances, RowAt(e, a)) >= n && Get(db.balances, RowAt(e, b)) + n < Pow10(65)
  {
    hide Sound, DeltaSum, Get, Pow10, AllFit;
    FitsEach(e.chart, db.balances, PairPostings(e, a, b, n));
    PairMoves(e, a, b, n, RowAt(e, a));
    PairMoves(e, a, b, n, RowAt(e, b));
    BalancesInRange(e.chart, db, RowAt(e, a));
    BalancesInRange(e.chart, db, RowAt(e, b));
    var ps := PairPostings(e, a, b, n);
    assert KeyOf(ps[0]) == RowAt(e, a) && KeyOf(ps[1]) == RowAt(e, b);
  }

  /** A call between user accounts under a fresh key is posted exactly when the source has the
      amount and the target has room; it then moves that amount and touches nothing else. */
  lemma AssetExactly(e: Env, db: DB, c: AssetCall, n: nat, txID: int)
    requires Ready(e) && Sound(e.chart, db) && Transfers(e, c, n) && Fresh(db, TrimSpace(c.key), txID)
    requires Opened(e, c.Source().account, CreditSide) && Opened(e, c.Target().account, CreditSide)
    requires NamesFit(c.key, c.Op(), c.bizRef)
    ensures var (after, outcome) := PerformAsset(e, db, c, txID);
            var source, target := RowAt(e, c.Source()), RowAt(e, c.Target());
            if Get(db.balances, source) >= n && Get(db.balances, target) + n < Pow10(65) then
              outcome == Posted(txID, false) && Sound(e.chart, after) &&
              forall k :: Get(after.balances, k) ==
                Get(db.balances, k) + if k == source then -(n as int) else if k == target then n else 0
            else after == db && outcome.Refused?
  {
    hide Sound, AllFit, Checked, Get, Pow10, Post, TrimSpace, ByteLength, Fresh, RawOf, RawPair, PairPostings,
      Transfers, AssetPostings, Ready, Amounts.IsWhole, DeltaSum, NamesFit;
    TransferBounds(e, c, n);
    var a, b, raw := c.Source(), c.Target(), RawOf(c.amount, e.scale, false, c.Cuts()).value;
    UserPairServed(e, a, b, n);
    var req := AssetRequest(c, RawPair(e, a, b, raw));
    PairChecked(e, req, a, b, raw, n);
    PlacesApart(e, c, n);
    PairFits(e, db, a, b, n);
    PostExactly(e.chart, db, req, PairPostings(e, a, b, n), txID);
    forall k ensures DeltaSum(e.chart, PairPostings(e, a, b, n), k) ==
                     if k == RowAt(e, a) then -(n as int) else if k == RowAt(e, b) then n else 0 {
      PairMoves(e, a, b, n, k);
    }
  }

  lemma PlacesApart(e: Env, c: AssetCall, n: nat)
    requires Transfers(e, c, n)
    ensures c.Source() != c.Target() && RowAt(e, c.Source()) != RowAt(e, c.Target())
  {
  }

  // ------------------------------------------------------- balances as shown

  /** A balance as it is shown to callers: with its asset's decimals, then rounded to six. */
  function ShownBalance(raw: nat, scale: nat): string
  {
    match Amounts.RawToDecimalString(Dec(raw, 0), scale)
    case Ok(text) => (match NewFromString(text)
                      case Some(d) => StringFixed(Round(d, 6), 6)
                      case None => text)
    case Err(_) => ""
  }

  lemma PrintedBalance(raw: nat, scale: nat)
    requires raw < Pow10(65) && scale <= 30
    ensures Amounts.RawToDecimalString(Dec(raw, 0), scale) == Amounts.Ok(Dotted(raw, scale, false))
    ensures NewFromString(Dotted(raw, scale, false)) == Some(Dec(raw, 0 - scale))
  {
    hide NewFromString, Amounts.RawToDecimalString, Amounts.ParseDecimalToRawExact, Amounts.IsWhole, Dotted, Scale,
      Pow10, Value, NearestAway;
    ZeroShift(raw);
    var n := Amounts.RawPrints(Dec(raw, 0), scale);
    assert n == raw;
    var v, k := ReadOfDotted(false, raw, scale, false);
    assert v == raw;
    assert SignText(false) + Dotted(raw, scale, false) == Dotted(raw, scale, false);
  }

  lemma RoundToMillionths(raw: nat, scale: nat) returns (m: nat)
    ensures m == NearestAway(RealScale(raw as real, 6 - scale))
    ensures Round(Round(Dec(raw, 0 - scale), 6), 6) == Dec(m, -6)
  {
    hide Round, RealScale;
    m := Amounts.RoundedRaw(Dec(raw, 6 - scale), 6);
    RoundAgain(m);
  }

  /** The text shown is the balance in millionths, rounded half away from zero. */
  lemma ShownBalanceIs(raw: nat, scale: nat) returns (m: nat)
    requires raw < Pow10(65) && scale <= 30
    ensures m == NearestAway(RealScale(raw as real, 6 - scale)) && ShownBalance(raw, scale) == Dotted(m, 6, false)
  {
    hide NewFromString, Amounts.RawToDecimalString, Dotted, Format, Round, RealScale, Pow10;
    PrintedBalance(raw, scale);
    m := RoundToMillionths(raw, scale);
    Amounts.DottedText(m, 6);
  }

  lemma ZeroShift(raw: nat)
    ensures NearestAway(Value(Dec(raw, 0))) == raw && Value(Dec(raw, 0)) == raw as real
    ensures forall v: int :: Scale(v, 0) == v
  {
  }

  lemma RoundAgain(m: int)
    ensures Round(Dec(m, -6), 6) == Dec(m, -6)
  {
  }

  /** What unfreezing a whole shown balance asks for: below six digits of precision it is always
      refused; at six it is the balance itself; above, the balance rounded to millionths. */
  lemma ShownBalanceReads(raw: nat, scale: nat) returns (m: nat)
    requires raw < Pow10(65) && scale <= 30
    ensures m == NearestAway(RealScale(raw as real, 6 - scale)) && (scale == 6 ==> m == raw)
    ensures scale < 6 ==> RawOf(ShownBalance(raw, scale), scale, false, false).None?
    ensures scale >= 6 ==>
              forall n: int :: (Reads(ShownBalance(raw, scale), scale, false, false, n) <==>
                                m > 0 && n == Scale(m, scale - 6) < Pow10(65))
  {
    hide Amounts.ParseDecimalToRawExact, Amounts.IsWhole, Dotted, ShownBalance, Scale, Pow10, RealScale;
    m := ShownBalanceIs(raw, scale);
    if scale < 6 {
      SixDecimalsExceed(m, scale);
    } else {
      Amounts.PrintedParses(m, 6, false, scale, false);
      var text := Dotted(m, 6, false);
      forall n: int | Reads(text, scale, false, false, n) ensures n == Scale(m, scale - 6) {
        Amounts.IsWholeUnique(RawOf(text, scale, false, false).value, n, Scale(m, scale - 6));
      }
    }
    if scale == 6 {
      ZeroShift(raw);
      ZeroScale(raw as real);
    }
  }

  /** Rounding to millionths leaves at most half a millionth. */
  lemma RoundingLeavesHalf(raw: nat, scale: nat, m: nat)
    requires scale >= 6 && m == NearestAway(RealScale(raw as real, 6 - scale))
    ensures 2 * raw <= 2 * Scale(m, scale - 6) + Pow10(scale - 6)
    ensures 2 * Scale(m, scale - 6) <= 2 * raw + Pow10(scale - 6)
  {
    var k: nat, x := scale - 6, RealScale(raw as real, 6 - scale);
    RealScaleAdd(raw as real, 6 - scale, k);
    ZeroScale(raw as real);
    assert RealScale(x, k) == raw as real;
    RealScaleLinear(x, x, k);
    RealScaleLinear(m as real, m as real, k);
    RealScaleOfInt(m, k);
    RealScaleOfInt(1, k);
    RealScaleLinear(2.0 * m as real, 1.0, k);
    RealScaleLinear(2.0 * x, 1.0, k);
    RealScaleOrder(2.0 * x, 2.0 * m as real + 1.0, k);
    RealScaleOrder(2.0 * m as real, 2.0 * x + 1.0, k);
  }

  /** So an unfreezing of a shown balance that parses asks for the balance to within half a
      millionth, and at six digits for all of it. */
  lemma ShownBalanceAsks(raw: nat, scale: nat, n: int)
    requires raw < Pow10(65) && scale <= 30 && Reads(ShownBalance(raw, scale), scale, false, false, n)
    ensures scale >= 6 && 2 * raw <= 2 * n + Pow10(scale - 6) && (scale == 6 ==> n == raw)
  {
    hide RawOf, Amounts.IsWhole, ShownBalance, NearestAway, RealScale, Pow10, Scale;
    var m := ShownBalanceReads(raw, scale);
    if scale >= 6 {
      RoundingLeavesHalf(raw, scale, m);
      ZeroShift(m);
    }
  }
}
