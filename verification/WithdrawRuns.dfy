/** Whole runs of the ledger seen from one user's locked row: freezes, closings, retries, asset
    freezes and unfreezes, transfers, and any other traffic in between. */
module WithdrawRuns {
  import opened Numerals
  import opened Decimals
  import opened Ledger
  import opened LedgerSafety
  import opened WithdrawFlow
  import opened AssetMoves
  import Amounts

  // ------------------------------------------------------------ single runs

  /** Freezing and unfreezing the same amount gives every balance back. */
  lemma FreezeThenUnfreeze(e: Env, db: DB, f: StageCall, u: StageCall, n: nat, first: int, second: int, k: Key)
    requires Ready(e) && Sound(e.chart, db) && f.FreezeCall? && u.UnfreezeCall? && f.id == u.id
    requires Carries(e, f, n, 0) && Carries(e, u, n, 0)
    requires Fresh(db, StageKey(FreezeStage, f.id), first)
    requires Perform(e, db, f, first).1 == Posted(first, false)
    requires Fresh(Perform(e, db, f, first).0, StageKey(UnfreezeStage, u.id), second)
    ensures var (after, outcome) := Perform(e, Perform(e, db, f, first).0, u, second);
            outcome == Posted(second, false) && Get(after.balances, k) == Get(db.balances, k)
  {
    hide Sound, Carries, Perform, Fresh, Get, Pow10, Ready;
    var frozen := Perform(e, db, f, first).0;
    StageExactly(e, db, f, n, 0, first);
    CarryBounds(e, f, n, 0);
    StageExactly(e, frozen, u, n, 0, second);
    BalancesInRange(e.chart, db, AvailableKey(e));
    BalancesInRange(e.chart, db, LockedKey(e));
  }

  /** Freezing an order and settling it, exactly or by hand, takes the frozen amount from the
      user's available funds: the net leaves the hot wallet, the fee is earned, and what a
      completion by hand cuts off stays locked. */
  lemma FreezeThenSettle(
      e: Env, db: DB, f: StageCall, c: StageCall, n: nat, net: nat, fee: nat, first: int, second: int, k: Key)
    requires Ready(e) && Sound(e.chart, db) && f.FreezeCall? && c.SettleCall? && f.id == c.id
    requires Carries(e, f, n, 0) && Carries(e, c, net, fee) && net + fee <= n
    requires Fresh(db, StageKey(FreezeStage, f.id), first)
    requires Perform(e, db, f, first).1 == Posted(first, false)
    requires Fresh(Perform(e, db, f, first).0, StageKey(SettleStage, c.id), second)
    requires Get(db.balances, HotKey(e)) >= net && Get(db.balances, FeeKey(e)) + fee < Pow10(65)
    ensures var (after, outcome) := Perform(e, Perform(e, db, f, first).0, c, second);
            outcome == Posted(second, false) &&
            Get(after.balances, k) == Get(db.balances, k) +
              (if k == AvailableKey(e) then 0 - n
               else if k == LockedKey(e) then n - net - fee
               else if k == HotKey(e) then 0 - net
               else if k == FeeKey(e) then fee
               else 0)
  {
    hide Sound, Carries, Perform, Fresh, Get, Pow10, Ready, AvailableKey, LockedKey, HotKey, FeeKey;
    KeysApart(e);
    var frozen := Perform(e, db, f, first).0;
    StageExactly(e, db, f, n, 0, first);
    BalancesInRange(e.chart, db, LockedKey(e));
    StageExactly(e, frozen, c, net, fee, second);
  }

  // ------------------------------------------------------------------ moves

  /** The ledger, the user's orders that are frozen and not yet closed with what each froze, and
      what everything else holds in the locked row. */
  datatype Flow = Flow(db: DB, open: map<int, nat>, holds: int)

  /** A call for one of the user's orders on the chain of a hot wallet, a move of user funds, or
      any other request; each with the transaction id drawn for it. */
  datatype Move =
    | Do(hot: int, call: StageCall, txID: int)
    | Asset(moved: AssetCall, txID: int)
    | Other(req: Request, txID: int)

  const START := Flow(NEW_DB, map[], 0)

  function OnChain(e: Env, hot: int): Env { e.(hot := hot) }

  function RequestOf(e: Env, m: Move): Option<Request>
  {
    match m
    case Do(hot, c, _) =>
      (match CallPostings(OnChain(e, hot), c)
       case Some(raw) => Some(StageRequest(c.Stage(), c.id, raw))
       case None => None)
    case Asset(c, _) => (match AssetPostings(e, c) case Some(raw) => Some(AssetRequest(c, raw)) case None => None)
    case Other(req, _) => Some(req)
  }

  function Performed(e: Env, db: DB, m: Move): (DB, Outcome)
  {
    match RequestOf(e, m)
    case Some(req) => Post(e.chart, db, req, m.txID)
    case None => (db, Refused(InvalidRequest))
  }

  lemma PerformedIs(e: Env, db: DB, m: Move)
    ensures m.Do? ==> Performed(e, db, m) == Perform(OnChain(e, m.hot), db, m.call, m.txID)
    ensures m.Asset? ==> Performed(e, db, m) == PerformAsset(e, db, m.moved, m.txID)
  {
    hide CallPostings, AssetPostings, Post, StageKey, OpName;
  }

  predicate IsNew(e: Env, db: DB, m: Move) { Performed(e, db, m).1 == Posted(m.txID, false) }

  /** Order ids are positive 64-bit numbers, and the chain's hot wallet serves the asset. */
  predicate Proper(e: Env, m: Move)
  {
    m.Do? ==> 0 < m.call.id < 0x8000_0000_0000_0000 && Ready(OnChain(e, m.hot))
  }

  /** The units an amount's text is taken for. */
  function UnitsRead(text: string, scale: int, allowZero: bool, relaxed: bool): nat
  {
    match RawOf(text, scale, allowZero, relaxed)
    case Some(raw) => if raw.coef >= 0 then WholeOf(raw) else 0
    case None => 0
  }

  function TotalOf(e: Env, c: StageCall): nat
  {
    match c
    case FreezeCall(_, amount) => UnitsRead(amount, e.scale, false, false)
    case UnfreezeCall(_, amount) => UnitsRead(amount, e.scale, false, false)
    case SettleCall(_, amount, fee, relaxed) =>
      UnitsRead(amount, e.scale, false, relaxed) + UnitsRead(fee, e.scale, true, relaxed)
  }

  function OpenAmount(open: map<int, nat>, id: int): nat { if id in open then open[id] else 0 }

  /** What a move, when posted, takes from the other holds: a closing takes what it moves beyond
      its order's frozen amount; everything else what it takes from the locked row. */
  function Takes(e: Env, open: map<int, nat>, m: Move): int
  {
    match m
    case Do(_, c, _) => if c.FreezeCall? then 0 else TotalOf(e, c) - OpenAmount(open, c.id)
    case Asset(c, _) =>
      var n: int := UnitsRead(c.amount, e.scale, false, c.Cuts());
      if RowAt(e, c.Source()) == LockedKey(e) then n else if RowAt(e, c.Target()) == LockedKey(e) then -n else 0
    case Other(req, _) =>
      match Checked(e.chart, req).0
      case Some(ps) => -DeltaSum(e.chart, ps, LockedKey(e))
      case None => 0
  }

  function OpenAfter(e: Env, open: map<int, nat>, m: Move): map<int, nat>
  {
    if !m.Do? then open else if m.call.FreezeCall? then open[m.call.id := TotalOf(e, m.call)] else open - {m.call.id}
  }

  function Next(e: Env, s: Flow, m: Move): Flow
  {
    if IsNew(e, s.db, m) then Flow(Performed(e, s.db, m).0, OpenAfter(e, s.open, m), s.holds - Takes(e, s.open, m))
    else Flow(Performed(e, s.db, m).0, s.open, s.holds)
  }

  function RunOf(e: Env, moves: seq<Move>): Flow
  {
    if moves == [] then START else Next(e, RunOf(e, moves[..|moves| - 1]), moves[|moves| - 1])
  }

  // ---------------------------------------------------------- open amounts

  ghost function OpenSum(open: map<int, nat>): nat
    decreases |open|
  {
    if open == map[] then 0
    else
      assert open.Keys != {};
      var id := PickFrom(open.Keys);
      assert |open - {id}| < |open| by { Shrinks(open, id); }
      open[id] + OpenSum(open - {id})
  }

  lemma {:induction false} OpenSumWithout(open: map<int, nat>, id: int)
    requires id in open
    ensures OpenSum(open) == open[id] + OpenSum(open - {id})
    decreases |open|
  {
    assert open.Keys != {};
    var first := PickFrom(open.Keys);
    if first != id {
      Shrinks(open, first);
      OpenSumWithout(open - {first}, id);
      OpenSumWithout(open - {id}, first);
      assert (open - {first}) - {id} == (open - {id}) - {first};
    }
  }

  lemma OpenSumWith(open: map<int, nat>, id: int, n: nat)
    requires id !in open
    ensures OpenSum(open[id := n]) == OpenSum(open) + n
  {
    OpenSumWithout(open[id := n], id);
    assert open[id := n] - {id} == open;
  }

  lemma OpenSumLess(open: map<int, nat>, id: int)
    ensures OpenSum(open - {id}) == OpenSum(open) - OpenAmount(open, id)
  {
    if id in open {
      OpenSumWithout(open, id);
    } else {
      assert open - {id} == open;
    }
  }

  lemma UnitsAre(text: string, scale: int, allowZero: bool, relaxed: bool, n: nat)
    requires Reads(text, scale, allowZero, relaxed, n)
    ensures UnitsRead(text, scale, allowZero, relaxed) == n
  {
    hide RawOf, Amounts.IsWhole, Pow10, Amounts.ValidateDecimal65Int, WholeOf;
    RawIsInRange(text, scale, allowZero, relaxed, n);
    var raw := RawOf(text, scale, allowZero, relaxed).value;
    Amounts.WholeSign(raw, n);
    if n > 0 {
      WholeAmount(raw, n);
    } else {
      ZeroIsZero(raw);
    }
  }

  lemma ZeroIsZero(raw: Dec)
    requires Amounts.IsWhole(raw, 0) && raw.coef >= 0
    ensures WholeOf(raw) == 0
  {
    Amounts.WholeSign(raw, 0);
    assert raw.coef == 0;
    if raw.exp < 0 {
      Amounts.WholeIsHighPart(raw.coef, 0 - raw.exp, 0);
    }
  }

  lemma TotalIs(e: Env, c: StageCall, net: nat, fee: nat)
    requires Carries(e, c, net, fee)
    ensures TotalOf(e, c) == net + fee
  {
    hide Reads, UnitsRead, Pow10;
    match c {
      case FreezeCall(_, amount) => UnitsAre(amount, e.scale, false, false, net);
      case UnfreezeCall(_, amount) => UnitsAre(amount, e.scale, false, false, net);
      case SettleCall(_, amount, charged, relaxed) =>
        UnitsAre(amount, e.scale, false, relaxed, net);
        UnitsAre(charged, e.scale, true, relaxed, fee);
    }
  }

  // ------------------------------------------------------------------- keys

  predicate Used(db: DB, stage: Stage, id: int) { Find(db.journal, StageKey(stage, id)).Some? }

  lemma StageKeysApart(stage: Stage, id: int, stage': Stage, id': int)
    ensures StageKey(stage, id) == StageKey(stage', id') <==> stage == stage' && id == id'
  {
    hide IntToString;
    var a, b := StageKey(stage, id), StageKey(stage', id');
    assert a[9] == (match stage case FreezeStage => 'f' case SettleStage => 's' case UnfreezeStage => 'u');
    assert b[9] == (match stage' case FreezeStage => 'f' case SettleStage => 's' case UnfreezeStage => 'u');
    if a == b {
      var n := |Prefix(stage)|;
      assert a[n..] == IntToString(id) && b[n..] == IntToString(id');
      ParseIntToString(id);
      ParseIntToString(id');
    }
  }

  lemma StageKeyTrimmed(stage: Stage, id: int)
    ensures TrimSpace(StageKey(stage, id)) == StageKey(stage, id)
  {
    LastDigit(id);
    hide IntToString, TrimSpace;
    var key, text := StageKey(stage, id), IntToString(id);
    assert key[0] == 'w' && key[|key| - 1] == text[|text| - 1];
    assert Trimmed(key);
  }

  lemma LastDigit(id: int)
    ensures IntToString(id) != "" && IsDigit(IntToString(id)[|IntToString(id)| - 1])
  {
  }

  lemma FindAfter(journal: seq<Tx>, tx: Tx, key: string)
    ensures Find(journal + [tx], key) == if tx.key == key then Some(tx) else Find(journal, key)
  {
    assert (journal + [tx])[..|journal|] == journal;
  }

  function KeyUsedBy(m: Move): string
  {
    match m
    case Do(_, c, _) => StageKey(c.Stage(), c.id)
    case Asset(c, _) => TrimSpace(c.key)
    case Other(req, _) => TrimSpace(req.key)
  }

  /** A move that is posted anew uses its own key for the first time, and no other; one that is
      not changes nothing. */
  lemma MoveRecords(e: Env, db: DB, m: Move)
    ensures var after := Performed(e, db, m).0;
            if IsNew(e, db, m) then
              Find(db.journal, KeyUsedBy(m)).None? &&
              forall key: string ::
                Find(after.journal, key).Some? <==> Find(db.journal, key).Some? || key == KeyUsedBy(m)
            else after == db
    ensures IsNew(e, db, m) ==> forall t <- Performed(e, db, m).0.journal :: t in db.journal || t.id == m.txID
  {
    hide CallPostings, AssetPostings, Post, Checked, TrimSpace, StageKey, OpName, IntToString, Find;
    if m.Do? {
      StageKeyTrimmed(m.call.Stage(), m.call.id);
    }
    if RequestOf(e, m).Some? {
      var req := RequestOf(e, m).value;
      PostRecords(e.chart, db, req, m.txID);
      if IsNew(e, db, m) {
        var tx := TxOf(req, m.txID, Checked(e.chart, req).0.value);
        forall key: string
          ensures Find(db.journal + [tx], key).Some? <==> Find(db.journal, key).Some? || key == tx.key
        {
          FindAfter(db.journal, tx, key);
        }
      }
    }
  }

  // ------------------------------------------------------------- invariant

  /** Every open order froze something under its own key; the locked row holds the open orders'
      amounts and the other holds. */
  ghost predicate Linked(e: Env, s: Flow)
  {
    Sound(e.chart, s.db) &&
    (forall id <- s.open :: s.open[id] > 0 && Used(s.db, FreezeStage, id)) &&
    Get(s.db.balances, LockedKey(e)) == OpenSum(s.open) + s.holds
  }

  lemma ChainsShareRows(e: Env, hot: int, c: StageCall)
    ensures LockedKey(OnChain(e, hot)) == LockedKey(e) && AvailableKey(OnChain(e, hot)) == AvailableKey(e)
    ensures FeeKey(OnChain(e, hot)) == FeeKey(e) && TotalOf(OnChain(e, hot), c) == TotalOf(e, c)
    ensures OnChain(e, hot).chart == e.chart && OnChain(e, hot).scale == e.scale
  {
  }

  /** What a call that is posted does to the locked row. */
  lemma DoMovesLocked(e: Env, db: DB, m: Move)
    requires Sound(e.chart, db) && m.Do? && Proper(e, m) && IsNew(e, db, m)
    ensures var after, total := Performed(e, db, m).0, TotalOf(e, m.call);
            total > 0 && Get(after.balances, LockedKey(e)) ==
              Get(db.balances, LockedKey(e)) + if m.call.FreezeCall? then total else 0 - total
  {
    hide Sound, Carries, Post, Checked, CallPostings, Get, DeltaSum, Ready, StageKey, Pow10, TotalOf, StagePostings;
    var c, at := m.call, OnChain(e, m.hot);
    ChainsShareRows(e, m.hot, c);
    CarriesExactly(at, c);
    var net: nat, fee: nat :| Carries(at, c, net, fee);
    StageChecked(at, c, net, fee);
    TotalIs(at, c, net, fee);
    CarryBounds(at, c, net, fee);
    PostMoves(e.chart, db, StageRequest(c.Stage(), c.id, CallPostings(at, c).value), m.txID);
    StageDelta(at, c.Stage(), net, fee, LockedKey(e));
    KeysApart(at);
  }

  lemma {:induction false} AdmittedAccounts(raw: seq<RawPosting>, i: nat)
    requires AdmitAll(raw).Some? && i < |raw|
    ensures raw[i].account > 0
  {
    hide AdmitAll;
    if Admit(raw[i]).None? {
      OneBadPosting(raw, i);
    }
  }

  lemma UserIsCredit(e: Env)
    requires Ready(e)
    ensures SideOf(e.chart, e.user).CreditSide?
  {
  }

  /** What a posted transfer, asset freeze or asset unfreeze does to the locked row. */
  lemma AssetMovesLocked(e: Env, db: DB, m: Move, open: map<int, nat>)
    requires Ready(e) && Sound(e.chart, db) && m.Asset? && IsNew(e, db, m)
    ensures Get(Performed(e, db, m).0.balances, LockedKey(e)) == Get(db.balances, LockedKey(e)) - Takes(e, open, m)
  {
    hide Sound, Post, Checked, Get, DeltaSum, Ready, Pow10, RawPair, PairPostings, AdmitAll, UnitsRead, RawOf,
      PairDelta, Transfers, AssetPostings, Amounts.IsWhole, SideOf;
    var c := m.moved;
    TransfersExactly(e, c);
    var n: nat :| Transfers(e, c, n);
    TransferBounds(e, c, n);
    PlacesApart(e, c, n);
    UnitsMoved(e, c, n);
    var a, b, raw := c.Source(), c.Target(), RawOf(c.amount, e.scale, false, c.Cuts()).value;
    var req := AssetRequest(c, RawPair(e, a, b, raw));
    PostMoves(e.chart, db, req, m.txID);
    CheckedIsProper(e.chart, req, m.txID);
    PairAccounts(e, a, b, raw);
    PairAdmitted(e, a, b, raw, n);
    PairMoves(e, a, b, n, LockedKey(e));
    LockedDelta(e, a, b, n);
  }

  lemma LockedDelta(e: Env, a: Place, b: Place, n: nat)
    requires Ready(e) && RowAt(e, a) != RowAt(e, b)
    ensures var m: int := n;
            PairDelta(e, a, b, n, LockedKey(e)) ==
            if RowAt(e, a) == LockedKey(e) then -m else if RowAt(e, b) == LockedKey(e) then m else 0
  {
    hide Ready, SideOf;
    UserIsCredit(e);
  }

  lemma UnitsMoved(e: Env, c: AssetCall, n: nat)
    requires Transfers(e, c, n)
    ensures UnitsRead(c.amount, e.scale, false, c.Cuts()) == n
  {
    hide Reads, UnitsRead;
    UnitsAre(c.amount, e.scale, false, c.Cuts(), n);
  }

  lemma PairAccounts(e: Env, a: Place, b: Place, raw: Dec)
    requires AdmitAll(RawPair(e, a, b, raw)).Some?
    ensures a.account > 0 && b.account > 0
  {
    hide AdmitAll;
    AdmittedAccounts(RawPair(e, a, b, raw), 0);
    AdmittedAccounts(RawPair(e, a, b, raw), 1);
  }

  lemma OtherMovesLocked(e: Env, db: DB, m: Move, open: map<int, nat>)
    requires Sound(e.chart, db) && m.Other? && IsNew(e, db, m)
    ensures Get(Performed(e, db, m).0.balances, LockedKey(e)) == Get(db.balances, LockedKey(e)) - Takes(e, open, m)
  {
    hide Sound, Post, Checked, Get, DeltaSum;
    PostMoves(e.chart, db, m.req, m.txID);
  }

  lemma SoundStays(e: Env, db: DB, m: Move)
    requires Sound(e.chart, db)
    ensures Sound(e.chart, Performed(e, db, m).0)
  {
    hide Sound, Post, CallPostings, AssetPostings;
    if RequestOf(e, m).Some? {
      PostKeeps(e.chart, db, RequestOf(e, m).value, m.txID);
    }
  }

  lemma MoveKeepsLinked(e: Env, s: Flow, m: Move)
    requires Ready(e) && Linked(e, s) && Proper(e, m)
    ensures Linked(e, Next(e, s, m))
  {
    hide Sound, Performed, Get, Ready, StageKey, Find, LockedKey, TotalOf, OpenSum, Takes;
    SoundStays(e, s.db, m);
    MoveRecords(e, s.db, m);
    if IsNew(e, s.db, m) {
      match m {
        case Do(_, c, _) =>
          DoMovesLocked(e, s.db, m);
          CallTakes(e, s.open, m);
          if c.FreezeCall? {
            OpenSumWith(s.open, c.id, TotalOf(e, c));
          } else {
            OpenSumLess(s.open, c.id);
          }
        case Asset(_, _) => AssetMovesLocked(e, s.db, m, s.open);
        case Other(_, _) => OtherMovesLocked(e, s.db, m, s.open);
      }
    }
  }

  lemma CallTakes(e: Env, open: map<int, nat>, m: Move)
    requires m.Do?
    ensures Takes(e, open, m) == if m.call.FreezeCall? then 0 else TotalOf(e, m.call) - OpenAmount(open, m.call.id)
  {
  }

  /** In every run whatsoever, of this user and all others, the locked row holds exactly what the
      open orders froze and what the other moves left in it. */
  lemma {:induction false} LockedIsOpenAndHolds(e: Env, moves: seq<Move>)
    requires Ready(e) && forall m <- moves :: Proper(e, m)
    ensures Linked(e, RunOf(e, moves))
  {
    hide Linked, Next, Ready;
    if moves == [] {
      StartIsLinked(e);
    } else {
      var init, m := moves[..|moves| - 1], moves[|moves| - 1];
      LockedIsOpenAndHolds(e, init);
      MoveKeepsLinked(e, RunOf(e, init), m);
    }
  }

  lemma StartIsLinked(e: Env)
    ensures Linked(e, START)
  {
  }
}
