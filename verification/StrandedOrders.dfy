/** Two runs from the empty ledger after which an open order cannot be closed any more. */
module StrandedOrders {
  import opened Numerals
  import opened Decimals
  import opened Ledger
  import opened LedgerSafety
  import opened WithdrawOrders
  import opened WithdrawFlow
  import opened AssetMoves
  import opened WithdrawRuns
  import opened WithdrawCover
  import Amounts

  // ------------------------------------------------------------- the steps

  /** A confirmed deposit (services/accounting/rpc/internal/logic/confirmDepositLogic.go). */
  function DepositOf(e: Env, n: nat): Request
  {
    Request("deposit:1", "ConfirmDeposit", "1",
            RawPair(e, Place(e.hot, Available), Place(e.user, Available), Dec(n, 0)))
  }

  /** The keys used so far, and the next transaction id. */
  ghost predicate Journal(db: DB, keys: set<string>, next: int)
  {
    (forall key: string :: Find(db.journal, key).Some? <==> key in keys) && forall t <- db.journal :: t.id < next
  }

  lemma JournalStep(e: Env, db: DB, m: Move, keys: set<string>)
    requires Journal(db, keys, m.txID) && IsNew(e, db, m)
    ensures Journal(Performed(e, db, m).0, keys + {KeyUsedBy(m)}, m.txID + 1)
  {
    hide Performed, Find, KeyUsedBy;
    MoveRecords(e, db, m);
  }

  /** The user's two rows and the hot wallet's. */
  ghost predicate Rows(e: Env, db: DB, available: int, locked: int, hot: int)
  {
    Sound(e.chart, db) && Get(db.balances, AvailableKey(e)) == available &&
    Get(db.balances, LockedKey(e)) == locked && Get(db.balances, HotKey(e)) == hot
  }

  lemma PlainText(s: string)
    requires Plain(s)
    ensures TrimSpace(s) == s != "" && ByteLength(s) == |s|
  {
    hide TrimSpace, ByteLength;
    AsciiByteLength(s);
  }

  lemma DepositFits(key: string, op: string, ref: string)
    requires key == "deposit:1" && op == "ConfirmDeposit" && ref == "1"
    ensures TrimSpace(key) == key && NamesFit(key, op, ref)
  {
    hide TrimSpace, ByteLength;
    PlainText(key);
    PlainText(op);
    PlainText(ref);
  }

  lemma DepositStep(e: Env, n: nat)
    requires Ready(e) && 0 < n < Pow10(65)
    ensures var m := Other(DepositOf(e, n), 1);
            var db := Performed(e, NEW_DB, m).0;
            IsNew(e, NEW_DB, m) && Rows(e, db, n, 0, n) && Journal(db, {"deposit:1"}, 2)
  {
    hide Ready, Pow10, Checked, Post, TrimSpace, NamesFit, RawPair, DeltaSum, AllFit, Sound, Get;
    var hot, user, req := Place(e.hot, Available), Place(e.user, Available), DepositOf(e, n);
    var m, ps := Other(req, 1), PairPostings(e, hot, user, n);
    DepositFits(req.key, req.op, req.bizRef);
    DepositServed(e, n);
    EmptyLedger(e);
    PairChecked(e, req, hot, user, Dec(n, 0), n);
    PostExactly(e.chart, NEW_DB, req, ps, 1);
    forall k: Key ensures DeltaSum(e.chart, ps, k) == if k == HotKey(e) || k == AvailableKey(e) then n else 0 {
      PairMoves(e, hot, user, n, k);
      Sides(e);
    }
    KeysApart(e);
    FitsEach(e.chart, NEW_DB.balances, ps);
    JournalStep(e, NEW_DB, m, {});
    assert {} + {"deposit:1"} == {"deposit:1"};
  }

  lemma DepositServed(e: Env, n: nat)
    requires Ready(e)
    ensures e.hot > 0 && e.user > 0 && Amounts.IsWhole(Dec(n, 0), n)
    ensures forall p <- PairPostings(e, Place(e.hot, Available), Place(e.user, Available), n) :: Served(e.chart, p)
  {
    hide SideOf, Ready, Amounts.IsWhole;
    PositiveAccounts(e);
    ReadyAccounts(e);
    WholeNumber(n);
  }

  lemma WholeNumber(n: nat)
    ensures Amounts.IsWhole(Dec(n, 0), n)
  {
  }

  lemma PositiveAccounts(e: Env)
    requires Ready(e)
    ensures e.hot > 0 && e.user > 0
  {
  }

  lemma EmptyLedger(e: Env)
    ensures Sound(e.chart, NEW_DB) && Journal(NEW_DB, {}, 1) && forall k :: Get(NEW_DB.balances, k) == 0
  {
  }

  /** A call under an unused key with funds and room is posted, with its effect. */
  lemma CallStep(e: Env, db: DB, c: StageCall, net: nat, fee: nat, txID: int, keys: set<string>)
    requires Ready(e) && Carries(e, c, net, fee) && Sound(e.chart, db) && Journal(db, keys, txID)
    requires StageKey(c.Stage(), c.id) !in keys && HasRoom(e, db.balances, c.Stage(), net, fee)
    ensures var m := Do(e.hot, c, txID);
            var after := Performed(e, db, m).0;
            IsNew(e, db, m) && Sound(e.chart, after) &&
            Journal(after, keys + {StageKey(c.Stage(), c.id)}, txID + 1) &&
            forall k :: Get(after.balances, k) == Get(db.balances, k) + Effect(e, c.Stage(), net, fee, k)
  {
    hide Ready, Carries, Sound, Performed, Perform, HasRoom, Effect, Find, StageKey, Get;
    var m := Do(e.hot, c, txID);
    assert OnChain(e, e.hot) == e;
    PerformedIs(e, db, m);
    StageExactly(e, db, c, net, fee, txID);
    JournalStep(e, db, m, keys);
  }

  lemma RunExtends(e: Env, moves: seq<Move>, m: Move)
    ensures RunOf(e, moves + [m]) == Next(e, RunOf(e, moves), m)
  {
    assert (moves + [m])[..|moves|] == moves;
  }

  lemma DepositKeyApart(stage: Stage, id: int)
    ensures StageKey(stage, id) != "deposit:1"
  {
    hide IntToString;
    assert StageKey(stage, id)[0] == 'w';
  }

  // -------------------------------------------------------------- the runs

  /** A deposit and a freeze. */
  function FrozenRun(e: Env, deposit: nat, f: StageCall): seq<Move>
  {
    [Other(DepositOf(e, deposit), 1)] + [Do(e.hot, f, 2)]
  }

  lemma FirstMove(e: Env, m: Move)
    ensures RunOf(e, [m]) == Next(e, START, m)
  {
    hide Next;
    RunExtends(e, [], m);
    assert [] + [m] == [m];
  }

  lemma FrozenRunIs(e: Env, deposit: nat, f: StageCall, n: nat)
    requires Ready(e) && f.FreezeCall? && Carries(e, f, n, 0) && n <= deposit < Pow10(65)
    ensures var s := RunOf(e, FrozenRun(e, deposit, f));
            s.open == map[f.id := n] && Rows(e, s.db, deposit - n, n, deposit) &&
            Journal(s.db, {"deposit:1", StageKey(FreezeStage, f.id)}, 3)
  {
    hide Ready, Carries, Performed, Rows, Journal, StageKey, Pow10, TotalOf, Get, IsNew, Linked, RunOf, DepositOf,
      Takes;
    CarryBounds(e, f, n, 0);
    var m := Other(DepositOf(e, deposit), 1);
    var start := Next(e, START, m);
    DepositStep(e, deposit);
    FirstMove(e, m);
    RunExtends(e, [m], Do(e.hot, f, 2));
    DepositKeyApart(FreezeStage, f.id);
    FreezeRows(e, start.db, f, n, deposit, 0, deposit, 2, {"deposit:1"});
    TotalIs(e, f, n, 0);
    assert {"deposit:1"} + {StageKey(FreezeStage, f.id)} == {"deposit:1", StageKey(FreezeStage, f.id)};
  }

  lemma FreezeRows(
      e: Env, db: DB, f: StageCall, n: nat, available: int, locked: int, hot: int, txID: int, keys: set<string>)
    requires Ready(e) && f.FreezeCall? && Carries(e, f, n, 0) && Rows(e, db, available, locked, hot)
    requires Journal(db, keys, txID) && StageKey(FreezeStage, f.id) !in keys
    requires available >= n && locked + n < Pow10(65)
    ensures var after := Performed(e, db, Do(e.hot, f, txID)).0;
            IsNew(e, db, Do(e.hot, f, txID)) && Rows(e, after, available - n, locked + n, hot) &&
            Journal(after, keys + {StageKey(FreezeStage, f.id)}, txID + 1)
  {
    hide Ready, Carries, Performed, Journal, StageKey, Pow10, Sound, Get, IsNew;
    KeysApart(e);
    CallStep(e, db, f, n, 0, txID, keys);
  }

  lemma CloseRows(
      e: Env, db: DB, c: StageCall, net: nat, fee: nat, available: int, locked: int, hot: int, txID: int,
      keys: set<string>)
    requires Ready(e) && !c.FreezeCall? && Carries(e, c, net, fee) && Rows(e, db, available, locked, hot)
    requires Journal(db, keys, txID) && StageKey(c.Stage(), c.id) !in keys
    requires HasRoom(e, db.balances, c.Stage(), net, fee)
    ensures var after, gone := Performed(e, db, Do(e.hot, c, txID)).0, net + fee;
            var paid := if c.SettleCall? then net else 0;
            IsNew(e, db, Do(e.hot, c, txID)) && Journal(after, keys + {StageKey(c.Stage(), c.id)}, txID + 1) &&
            Rows(e, after, available + if c.SettleCall? then 0 else gone, locked - gone, hot - paid)
  {
    hide Ready, Carries, Performed, Journal, StageKey, Pow10, Sound, Get, IsNew, HasRoom;
    KeysApart(e);
    CarryBounds(e, c, net, fee);
    CallStep(e, db, c, net, fee, txID, keys);
  }

  lemma UnfreezeAssetsRows(
      e: Env, db: DB, u: AssetCall, n: nat, available: int, locked: int, hot: int, txID: int, keys: set<string>)
    requires Ready(e) && u.UnfreezeAssets? && u.account == e.user && Transfers(e, u, n)
    requires Rows(e, db, available, locked, hot) && Journal(db, keys, txID) && TrimSpace(u.key) !in keys
    requires NamesFit(u.key, u.Op(), u.bizRef) && n <= locked && available + n < Pow10(65)
    ensures var after := Performed(e, db, Asset(u, txID)).0;
            IsNew(e, db, Asset(u, txID)) && Rows(e, after, available + n, locked - n, hot)
  {
    hide Ready, Performed, PerformAsset, Pow10, Sound, Get, Transfers, NamesFit, TrimSpace, Find;
    KeysApart(e);
    PerformedIs(e, db, Asset(u, txID));
    UserIsOpen(e);
    AssetExactly(e, db, u, n, txID);
  }

  lemma UserIsOpen(e: Env)
    requires Ready(e)
    ensures Opened(e, e.user, CreditSide)
  {
  }

  /** An amount is deposited, frozen for a withdrawal and unfrozen as an asset: the order stays
      open, nothing is locked, and no call can settle or unfreeze it. */
  lemma UnfreezeStrands(e: Env, f: StageCall, u: AssetCall, n: nat, c: StageCall, net: nat, fee: nat)
    requires Ready(e) && f.FreezeCall? && Carries(e, f, n, 0)
    requires u.UnfreezeAssets? && u.account == e.user && Transfers(e, u, n) && NamesFit(u.key, u.Op(), u.bizRef)
    requires TrimSpace(u.key) != "deposit:1" && TrimSpace(u.key) != StageKey(FreezeStage, f.id)
    requires !c.FreezeCall? && c.id == f.id && Carries(e, c, net, fee)
    ensures var s := RunOf(e, FrozenRun(e, n, f) + [Asset(u, 3)]);
            s.open == map[f.id := n] && Rows(e, s.db, n, 0, n) && !IsNew(e, s.db, Do(e.hot, c, 4))
  {
    hide Ready, Carries, Performed, Rows, Journal, StageKey, Pow10, TotalOf, Get, IsNew, Linked, NamesFit, TrimSpace,
      Transfers, RunOf, FrozenRun;
    CarryBounds(e, f, n, 0);
    CarryBounds(e, c, net, fee);
    FrozenRunIs(e, n, f, n);
    RunExtends(e, FrozenRun(e, n, f), Asset(u, 3));
    var s := RunOf(e, FrozenRun(e, n, f));
    UnfreezeAssetsRows(e, s.db, u, n, 0, n, n, 3, {"deposit:1", StageKey(FreezeStage, f.id)});
    var after := Performed(e, s.db, Asset(u, 3)).0;
    RowsAre(e, after, n, 0, n);
    assert OnChain(e, e.hot) == e;
    CannotTakeMore(e, after, Do(e.hot, c, 4), net, fee);
  }

  lemma RowsAre(e: Env, db: DB, available: int, locked: int, hot: int)
    requires Rows(e, db, available, locked, hot)
    ensures Sound(e.chart, db) && Get(db.balances, LockedKey(e)) == locked
    ensures Get(db.balances, AvailableKey(e)) == available && Get(db.balances, HotKey(e)) == hot
  {
  }

  /** Orders A and B are frozen, A is settled and then unfrozen too. */
  function TwiceClosedRun(e: Env, deposit: nat, a: StageCall, b: StageCall, settle: StageCall, unfreeze: StageCall)
    : seq<Move>
  {
    FrozenRun(e, deposit, a) + [Do(e.hot, b, 3)] + [Do(e.hot, settle, 4)] + [Do(e.hot, unfreeze, 5)]
  }

  lemma RoomToClose(e: Env, db: DB, stage: Stage, n: nat, available: int, locked: int, hot: int)
    requires Rows(e, db, available, locked, hot) && !stage.FreezeStage? && n <= locked
    requires if stage.SettleStage? then n <= hot else available + n < Pow10(65)
    ensures HasRoom(e, db.balances, stage, n, 0)
  {
    hide Sound, Get, Pow10;
  }

  /** Everything is posted; B stays open, but only the difference of the two amounts is locked. */
  lemma TwiceClosedRunIs(
      e: Env, a: StageCall, b: StageCall, settle: StageCall, unfreeze: StageCall, n: nat, k: nat)
    requires Ready(e) && a.FreezeCall? && b.FreezeCall? && settle.SettleCall? && unfreeze.UnfreezeCall?
    requires a.id == settle.id == unfreeze.id != b.id && n <= k && n + k < Pow10(65)
    requires Carries(e, a, n, 0) && Carries(e, b, k, 0) && Carries(e, settle, n, 0) && Carries(e, unfreeze, n, 0)
    ensures var s := RunOf(e, TwiceClosedRun(e, n + k, a, b, settle, unfreeze));
            s.open == map[b.id := k] && Rows(e, s.db, n, k - n, k)
  {
    hide Ready, Carries, Performed, Rows, Journal, StageKey, Pow10, TotalOf, Get, IsNew, Linked, RunOf, FrozenRun,
      HasRoom;
    var run, A, B := FrozenRun(e, n + k, a), a.id, b.id;
    CarryBounds(e, a, n, 0);
    FrozenRunIs(e, n + k, a, n);
    ClosingKeysApart(A, B);
    TotalIs(e, b, k, 0);
    var keys := {"deposit:1", StageKey(FreezeStage, A)};
    var s := RunOf(e, run);
    FreezeRows(e, s.db, b, k, k, n, n + k, 3, keys);
    RunExtends(e, run, Do(e.hot, b, 3));
    var s3 := Next(e, s, Do(e.hot, b, 3));
    assert s3.open == map[A := n, B := k];
    RoomToClose(e, s3.db, SettleStage, n, 0, n + k, n + k);
    CloseRows(e, s3.db, settle, n, 0, 0, n + k, n + k, 4, keys + {StageKey(FreezeStage, B)});
    RunExtends(e, run + [Do(e.hot, b, 3)], Do(e.hot, settle, 4));
    var s4 := Next(e, s3, Do(e.hot, settle, 4));
    assert s4.open == map[B := k];
    RoomToClose(e, s4.db, UnfreezeStage, n, 0, k, k);
    CloseRows(e, s4.db, unfreeze, n, 0, 0, k, k, 5,
              keys + {StageKey(FreezeStage, B)} + {StageKey(SettleStage, A)});
    RunExtends(e, run + [Do(e.hot, b, 3)] + [Do(e.hot, settle, 4)], Do(e.hot, unfreeze, 5));
    assert s4.open - {A} == map[B := k];
  }

  lemma ClosingKeysApart(a: int, b: int)
    requires a != b
    ensures StageKey(FreezeStage, b) !in {"deposit:1", StageKey(FreezeStage, a)}
    ensures StageKey(SettleStage, a) !in {"deposit:1", StageKey(FreezeStage, a), StageKey(FreezeStage, b)}
    ensures StageKey(UnfreezeStage, a) !in
              {"deposit:1", StageKey(FreezeStage, a), StageKey(FreezeStage, b), StageKey(SettleStage, a)}
  {
    hide StageKey;
    StageKeysApart(FreezeStage, a, FreezeStage, b);
    StageKeysApart(FreezeStage, a, SettleStage, a);
    StageKeysApart(FreezeStage, b, SettleStage, a);
    StageKeysApart(FreezeStage, a, UnfreezeStage, a);
    StageKeysApart(FreezeStage, b, UnfreezeStage, a);
    StageKeysApart(SettleStage, a, UnfreezeStage, a);
    DepositKeyApart(FreezeStage, b);
    DepositKeyApart(SettleStage, a);
    DepositKeyApart(UnfreezeStage, a);
  }

  /** So no call can settle or unfreeze B any more. */
  lemma SecondCloseStrands(
      e: Env, a: StageCall, b: StageCall, settle: StageCall, unfreeze: StageCall, n: nat, k: nat, c: StageCall,
      net: nat, fee: nat)
    requires Ready(e) && a.FreezeCall? && b.FreezeCall? && settle.SettleCall? && unfreeze.UnfreezeCall?
    requires a.id == settle.id == unfreeze.id != b.id && n <= k && n + k < Pow10(65)
    requires Carries(e, a, n, 0) && Carries(e, b, k, 0) && Carries(e, settle, n, 0) && Carries(e, unfreeze, n, 0)
    requires !c.FreezeCall? && c.id == b.id && Carries(e, c, net, fee) && net + fee == k
    ensures var s := RunOf(e, TwiceClosedRun(e, n + k, a, b, settle, unfreeze));
            s.open == map[b.id := k] && Get(s.db.balances, LockedKey(e)) == k - n && !IsNew(e, s.db, Do(e.hot, c, 6))
  {
    hide Ready, Carries, Performed, Rows, Pow10, TotalOf, Get, IsNew, RunOf, TwiceClosedRun;
    CarryBounds(e, a, n, 0);
    CarryBounds(e, c, net, fee);
    TwiceClosedRunIs(e, a, b, settle, unfreeze, n, k);
    var s := RunOf(e, TwiceClosedRun(e, n + k, a, b, settle, unfreeze));
    RowsAre(e, s.db, n, k - n, k);
    assert OnChain(e, e.hot) == e;
    CannotTakeMore(e, s.db, Do(e.hot, c, 6), net, fee);
  }

  // ------------------------------------------------------------ an instance

  /** A user with account 1, a hot wallet 2 and the fee income 3; six digits of precision. */
  const WALLET := Env(
    Chart(map[1 := CreditSide, 2 := DebitSide, 3 := CreditSide], {(1, "USDT"), (2, "USDT"), (3, "USDT")}),
    "USDT", 6, 1, 2, 3)

  lemma WalletIsReady()
    ensures Ready(WALLET)
  {
    assert Trimmed("USDT") && ToUpper("USDT") == "USDT";
  }

  lemma UnitsOfText(text: string, d: Dec, allowZero: bool, n: nat)
    requires ToString(d) == text && d.coef >= 0 && -6 <= d.exp && Units(d, 6) == n < Pow10(65)
    requires allowZero || d.coef > 0
    ensures Reads(text, 6, allowZero, false, n)
  {
    hide Amounts.ParseDecimalToRawExact, Amounts.IsWhole, ToString, Units, Pow10;
    TextParses(d, 6, allowZero);
  }

  lemma UnitsOfTexts()
    ensures Reads("1.5", 6, false, false, 1500000) && Reads("2", 6, false, false, 2000000)
    ensures Reads("0", 6, true, false, 0) && Reads("1.500000", 6, false, false, 1500000)
  {
    hide Reads, ToString, Pow10, Scale, Units, Dotted;
    OneAndAHalf();
    TwoPrints();
    UnitsInDigits();
    assert Units(Dec(15, -1), 6) == 1500000 && Units(Dec(2, 0), 6) == 2000000 && Units(Dec(0, 0), 6) == 0 by {
      UnitsAreScaled();
    }
    UnitsOfText("1.5", Dec(15, -1), false, 1500000);
    UnitsOfText("2", Dec(2, 0), false, 2000000);
    UnitsOfText("0", Dec(0, 0), true, 0);
    SixDigitsPrint();
    DottedIsRead("1.500000", 1500000);
  }

  lemma UnitsAreScaled()
    ensures Units(Dec(15, -1), 6) == Scale(15, 5) && Units(Dec(2, 0), 6) == Scale(2, 6)
    ensures Units(Dec(0, 0), 6) == Scale(0, 6)
  {
    hide Scale;
  }

  lemma DottedIsRead(text: string, m: nat)
    requires text == Dotted(m, 6, false) && 0 < m < Pow10(65)
    ensures Reads(text, 6, false, false, m)
  {
    hide Amounts.ParseDecimalToRawExact, Amounts.IsWhole, Dotted, Pow10, Scale;
    Amounts.PrintedParses(m, 6, false, 6, false);
    ZeroShift(m);
  }

  lemma TwoPrints()
    ensures ToString(Dec(2, 0)) == "2"
  {
    assert NatToString(2) == "2";
  }

  lemma SixDigitsPrint()
    ensures Dotted(1500000, 6, false) == "1.500000"
  {
    assert HighPart(1500000, 6) == 1 && NatToString(1) == "1";
    assert Fixed(1500000, 6) == "500000";
  }

  lemma UnitsInDigits()
    ensures Scale(15, 5) == 1500000 && Scale(2, 6) == 2000000 && Scale(0, 6) == 0 && Scale(1500000, 0) == 1500000
    ensures 4000000 < Pow10(65)
  {
    Amounts.PowersGrow(7, 65);
    assert Pow10(7) == 10000000;
  }

  lemma CallsCarry()
    ensures Carries(WALLET, FreezeCall(7, "1.5"), 1500000, 0) && Carries(WALLET, FreezeCall(8, "2"), 2000000, 0)
    ensures Carries(WALLET, UnfreezeCall(7, "1.5"), 1500000, 0)
    ensures Carries(WALLET, SettleCall(7, "1.5", "0", false), 1500000, 0)
    ensures Carries(WALLET, SettleCall(8, "2", "0", false), 2000000, 0)
  {
    hide Reads, Pow10;
    UnitsOfTexts();
    UnitsInDigits();
  }

  const UNFREEZE_USER := UnfreezeAssets("user:unfreeze:1:USDT:1700000000", "user_unfreeze:1", 1, "1.500000")

  lemma UserTextsArePlain()
    ensures Plain(UNFREEZE_USER.key) && |UNFREEZE_USER.key| <= 128 && UNFREEZE_USER.key[0] == 'u'
    ensures Plain(UNFREEZE_USER.bizRef) && |UNFREEZE_USER.bizRef| <= 128
  {
  }

  lemma UnfreezeUserTransfers()
    ensures Transfers(WALLET, UNFREEZE_USER, 1500000)
    ensures NamesFit(UNFREEZE_USER.key, UNFREEZE_USER.Op(), UNFREEZE_USER.bizRef)
    ensures TrimSpace(UNFREEZE_USER.key) == UNFREEZE_USER.key && UNFREEZE_USER.key[0] == 'u'
  {
    hide TrimSpace, ByteLength, Reads, Plain;
    OpsFit(UNFREEZE_USER);
    UserTextsArePlain();
    PlainText(UNFREEZE_USER.key);
    PlainText(UNFREEZE_USER.bizRef);
    UnitsOfTexts();
  }

  /** One and a half coins are deposited and frozen for withdrawal 7, and the user is unfrozen with
      their assets: nothing is locked, and the worker's settlement is refused. */
  lemma UnfrozenUserStrands()
    ensures var moves := FrozenRun(WALLET, 1500000, FreezeCall(7, "1.5")) + [Asset(UNFREEZE_USER, 3)];
            var s := RunOf(WALLET, moves);
            s.open == map[7 := 1500000] && Rows(WALLET, s.db, 1500000, 0, 1500000) &&
            !IsNew(WALLET, s.db, Do(2, SettleCall(7, "1.5", "0", false), 4))
  {
    hide Ready, Carries, Rows, IsNew, RunOf, FrozenRun, Transfers, NamesFit, TrimSpace, StageKey;
    WalletIsReady();
    CallsCarry();
    UnfreezeUserTransfers();
    assert StageKey(FreezeStage, 7)[0] == 'w' by { KeyStarts(7); }
    UnfreezeStrands(WALLET, FreezeCall(7, "1.5"), UNFREEZE_USER, 1500000, SettleCall(7, "1.5", "0", false), 1500000, 0);
  }

  /** That is what unfreezing the user asks for at that moment. */
  lemma UnfreezesWhatIsShown()
    ensures var s := RunOf(WALLET, FrozenRun(WALLET, 1500000, FreezeCall(7, "1.5")));
            UnfreezeUser(WALLET, s.db, UNFREEZE_USER.key, UNFREEZE_USER.bizRef) == UNFREEZE_USER
  {
    hide Ready, Carries, RunOf, FrozenRun, ShownBalance, Get, Pow10, Rows, Journal, NearestAway, RealScale, Dotted;
    WalletIsReady();
    CallsCarry();
    UnitsInDigits();
    FrozenRunIs(WALLET, 1500000, FreezeCall(7, "1.5"), 1500000);
    RowsAre(WALLET, RunOf(WALLET, FrozenRun(WALLET, 1500000, FreezeCall(7, "1.5"))).db, 0, 1500000, 1500000);
    var m := ShownBalanceIs(1500000, 6);
    var n := ShownBalanceReads(1500000, 6);
    SixDigitsPrint();
  }

  lemma KeyStarts(id: int)
    ensures StageKey(FreezeStage, id) != "" && StageKey(FreezeStage, id)[0] == 'w'
  {
    hide IntToString;
  }

  /** Withdrawals 7 of one and a half coins and 8 of two are frozen, 7 is settled and unfrozen:
      half a coin is locked where 8 needs two, and its settlement is refused. */
  lemma TwiceClosedStrands()
    ensures var moves := TwiceClosedRun(WALLET, 3500000, FreezeCall(7, "1.5"), FreezeCall(8, "2"),
                                        SettleCall(7, "1.5", "0", false), UnfreezeCall(7, "1.5"));
            var s := RunOf(WALLET, moves);
            s.open == map[8 := 2000000] && Get(s.db.balances, LockedKey(WALLET)) == 500000 &&
            !IsNew(WALLET, s.db, Do(2, SettleCall(8, "2", "0", false), 6))
  {
    hide Ready, Carries, IsNew, RunOf, TwiceClosedRun, Pow10, Get;
    WalletIsReady();
    CallsCarry();
    UnitsInDigits();
    SecondCloseStrands(WALLET, FreezeCall(7, "1.5"), FreezeCall(8, "2"), SettleCall(7, "1.5", "0", false),
                       UnfreezeCall(7, "1.5"), 1500000, 2000000, SettleCall(8, "2", "0", false), 2000000, 0);
  }
}
