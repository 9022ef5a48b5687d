/** When the locked row covers the open orders, and what that is worth: then, and only then, all of
    them can still be closed. */
module WithdrawCover {
  import opened Numerals
  import opened Decimals
  import opened Ledger
  import opened LedgerSafety
  import opened WithdrawFlow
  import opened AssetMoves
  import opened WithdrawRuns

  /** What the locked row holds beyond the open orders. */
  ghost function Spare(e: Env, s: Flow): int { Get(s.db.balances, LockedKey(e)) - OpenSum(s.open) }

  ghost predicate Covered(e: Env, s: Flow) { Spare(e, s) >= 0 }

  // -------------------------------------------------------- move by move

  /** A posted move leaves the open orders covered exactly when it takes at most what is spare. */
  lemma MoveCoversExactly(e: Env, s: Flow, m: Move)
    requires Ready(e) && Linked(e, s) && Proper(e, m) && IsNew(e, s.db, m)
    ensures Spare(e, Next(e, s, m)) == Spare(e, s) - Takes(e, s.open, m)
    ensures Covered(e, Next(e, s, m)) <==> Takes(e, s.open, m) <= Spare(e, s)
  {
    hide Sound, Performed, Get, Ready, Proper, OpenSum, Takes, OpenAfter, IsNew;
    MoveKeepsLinked(e, s, m);
  }

  /** Every posted move of the run takes at most what the other moves hold. */
  predicate Frugal(e: Env, moves: seq<Move>)
  {
    moves == [] ||
    (Frugal(e, moves[..|moves| - 1]) &&
     var s, m := RunOf(e, moves[..|moves| - 1]), moves[|moves| - 1];
     (IsNew(e, s.db, m) ==> Takes(e, s.open, m) <= s.holds))
  }

  ghost predicate AlwaysCovered(e: Env, moves: seq<Move>)
  {
    forall n :: 0 <= n <= |moves| ==> Covered(e, RunOf(e, moves[..n]))
  }

  lemma CoveredSoFar(e: Env, moves: seq<Move>)
    requires moves != []
    ensures AlwaysCovered(e, moves) <==> AlwaysCovered(e, moves[..|moves| - 1]) && Covered(e, RunOf(e, moves))
  {
    hide Covered, RunOf;
    var init := moves[..|moves| - 1];
    assert moves[..|moves|] == moves;
    assert forall n :: 0 <= n <= |init| ==> init[..n] == moves[..n];
  }

  /** Over whole runs: the open orders stay covered exactly when no move takes more than is held
      beside them. */
  lemma {:induction false} AlwaysCoveredExactly(e: Env, moves: seq<Move>)
    requires Ready(e) && forall m <- moves :: Proper(e, m)
    ensures AlwaysCovered(e, moves) <==> Frugal(e, moves)
  {
    hide Covered, Ready, Proper, Takes, IsNew, AlwaysCovered, RunOf;
    if moves == [] {
      StartIsCovered(e);
    } else {
      var init := moves[..|moves| - 1];
      AlwaysCoveredExactly(e, init);
      CoveredSoFar(e, moves);
      if Frugal(e, init) {
        CoveredNow(e, init);
        LastMoveCovers(e, moves);
      }
    }
  }

  lemma CoveredNow(e: Env, moves: seq<Move>)
    requires AlwaysCovered(e, moves)
    ensures Covered(e, RunOf(e, moves))
  {
    assert moves[..|moves|] == moves;
  }

  lemma StartIsCovered(e: Env)
    ensures AlwaysCovered(e, [])
  {
  }

  lemma LastMoveCovers(e: Env, moves: seq<Move>)
    requires Ready(e) && moves != [] && forall m <- moves :: Proper(e, m)
    requires Covered(e, RunOf(e, moves[..|moves| - 1]))
    ensures var s, m := RunOf(e, moves[..|moves| - 1]), moves[|moves| - 1];
            Covered(e, RunOf(e, moves)) <==> (IsNew(e, s.db, m) ==> Takes(e, s.open, m) <= s.holds)
  {
    hide Sound, Performed, Ready, Proper, Takes, IsNew, Get, OpenSum, OpenAfter;
    var init, m := moves[..|moves| - 1], moves[|moves| - 1];
    LockedIsOpenAndHolds(e, init);
    var s := RunOf(e, init);
    if IsNew(e, s.db, m) {
      MoveCoversExactly(e, s, m);
    } else {
      MoveRecords(e, s.db, m);
    }
  }

  /** Unfreezing assets, and transferring out of the locked row, leaves the open orders covered
      exactly when the amount is at most what is spare. */
  lemma AssetMoveCoversExactly(e: Env, s: Flow, m: Move, n: nat)
    requires Ready(e) && Linked(e, s) && m.Asset? && IsNew(e, s.db, m)
    requires Transfers(e, m.moved, n) && RowAt(e, m.moved.Source()) == LockedKey(e)
    ensures Spare(e, Next(e, s, m)) == Spare(e, s) - n
    ensures Covered(e, Next(e, s, m)) <==> n <= Spare(e, s)
  {
    hide Spare, Linked, Ready, IsNew, Transfers, UnitsRead, Next;
    MoveCoversExactly(e, s, m);
    UnitsMoved(e, m.moved, n);
  }

  /** Settling or unfreezing keeps what is spare exactly when it closes an open order for the
      amount that order froze. Closing an order twice, or one never frozen, takes the whole
      amount from the other orders; they stay covered exactly when enough is spare. */
  lemma CloseCoversExactly(e: Env, s: Flow, m: Move, net: nat, fee: nat)
    requires Ready(e) && Linked(e, s) && m.Do? && Proper(e, m) && !m.call.FreezeCall?
    requires var at, c := OnChain(e, m.hot), m.call;
             Carries(at, c, net, fee) && Fresh(s.db, StageKey(c.Stage(), c.id), m.txID) &&
             HasRoom(at, s.db.balances, c.Stage(), net, fee)
    ensures IsNew(e, s.db, m) && m.call.id !in Next(e, s, m).open
    ensures Spare(e, Next(e, s, m)) == Spare(e, s) <==> m.call.id in s.open && s.open[m.call.id] == net + fee
    ensures Covered(e, Next(e, s, m)) <==> net + fee <= Spare(e, s) + OpenAmount(s.open, m.call.id)
  {
    hide Spare, Ready, Carries, Fresh, HasRoom, StageKey, Perform, Performed, Pow10, TotalOf, Sound, OpenSum;
    var at := OnChain(e, m.hot);
    ChainsShareRows(e, m.hot, m.call);
    PerformedIs(e, s.db, m);
    StageExactly(at, s.db, m.call, net, fee, m.txID);
    TotalIs(at, m.call, net, fee);
    CarryBounds(at, m.call, net, fee);
    MoveCoversExactly(e, s, m);
  }

  // ------------------------------------------------------------ what it buys

  /** A key of a stage of one of the user's orders. */
  ghost predicate OrderKey(mine: iset<int>, key: string)
  {
    exists stage, id :: id in mine && key == StageKey(stage, id)
  }

  /** Orders are frozen before they are closed; other moves use other keys. */
  ghost predicate Orderly(e: Env, mine: iset<int>, s: Flow, m: Move)
  {
    if m.Do? then m.call.id in mine && (m.call.FreezeCall? || Used(s.db, FreezeStage, m.call.id))
    else !OrderKey(mine, KeyUsedBy(m))
  }

  ghost predicate OrderlyRun(e: Env, mine: iset<int>, moves: seq<Move>)
  {
    moves == [] ||
    (OrderlyRun(e, mine, moves[..|moves| - 1]) &&
     Orderly(e, mine, RunOf(e, moves[..|moves| - 1]), moves[|moves| - 1]))
  }

  predicate Unclosed(db: DB, id: int) { !Used(db, SettleStage, id) && !Used(db, UnfreezeStage, id) }

  /** No open order's closing keys are used, and only frozen orders are ever closed. */
  ghost predicate Closable(mine: iset<int>, s: Flow)
  {
    (forall id <- s.open :: id in mine && Unclosed(s.db, id)) &&
    forall id: int :: id in mine && !Used(s.db, FreezeStage, id) ==> Unclosed(s.db, id)
  }

  lemma UsedExactly(e: Env, mine: iset<int>, s: Flow, m: Move, stage: Stage, id: int)
    requires Orderly(e, mine, s, m) && id in mine
    ensures Used(Performed(e, s.db, m).0, stage, id) <==>
            Used(s.db, stage, id) || (IsNew(e, s.db, m) && m.Do? && stage == m.call.Stage() && id == m.call.id)
    ensures IsNew(e, s.db, m) && m.Do? ==> !Used(s.db, m.call.Stage(), m.call.id)
  {
    hide Performed, StageKey, TrimSpace, Find;
    MoveRecords(e, s.db, m);
    if m.Do? {
      StageKeysApart(stage, id, m.call.Stage(), m.call.id);
    }
  }

  lemma StepKeepsClosable(e: Env, mine: iset<int>, s: Flow, m: Move)
    requires Closable(mine, s) && Orderly(e, mine, s, m)
    requires forall id <- s.open :: Used(s.db, FreezeStage, id)
    ensures Closable(mine, Next(e, s, m))
  {
    hide Performed, Used, IsNew, TotalOf, Orderly;
    forall stage: Stage, id: int | id in mine
      ensures Used(Performed(e, s.db, m).0, stage, id) <==>
              Used(s.db, stage, id) || (IsNew(e, s.db, m) && m.Do? && stage == m.call.Stage() && id == m.call.id)
      ensures IsNew(e, s.db, m) && m.Do? ==> !Used(s.db, m.call.Stage(), m.call.id)
    {
      UsedExactly(e, mine, s, m, stage, id);
    }
    ClosesFrozenOrders(e, mine, s, m);
  }

  lemma ClosesFrozenOrders(e: Env, mine: iset<int>, s: Flow, m: Move)
    requires Orderly(e, mine, s, m)
    ensures m.Do? ==> m.call.id in mine && (m.call.FreezeCall? || Used(s.db, FreezeStage, m.call.id))
  {
  }

  lemma StartIsClosable(mine: iset<int>)
    ensures Closable(mine, START)
  {
  }

  lemma LinkedIsFrozen(e: Env, s: Flow)
    requires Linked(e, s)
    ensures forall id <- s.open :: Used(s.db, FreezeStage, id)
  {
    hide Used;
  }

  lemma {:induction false} OrderlyRunsAreClosable(e: Env, mine: iset<int>, moves: seq<Move>)
    requires Ready(e) && OrderlyRun(e, mine, moves) && forall m <- moves :: Proper(e, m)
    ensures Closable(mine, RunOf(e, moves))
  {
    hide Closable, Ready, Proper, Orderly, Next, Linked;
    if moves == [] {
      StartIsClosable(mine);
    } else {
      var init := moves[..|moves| - 1];
      OrderlyRunsAreClosable(e, mine, init);
      LockedIsOpenAndHolds(e, init);
      LinkedIsFrozen(e, RunOf(e, init));
      StepKeepsClosable(e, mine, RunOf(e, init), moves[|moves| - 1]);
    }
  }

  /** While the open orders are covered, none is stuck for want of locked funds: unfreezing one
      needs only room in the available row, and settling it only the hot wallet's funds and room
      in the fee row. */
  lemma OpenOrdersCanClose(e: Env, mine: iset<int>, moves: seq<Move>, m: Move, net: nat, fee: nat)
    requires Ready(e) && OrderlyRun(e, mine, moves) && Frugal(e, moves)
    requires m.Do? && Proper(e, m) && !m.call.FreezeCall? && forall k <- moves :: Proper(e, k)
    requires var s, c := RunOf(e, moves), m.call;
             Carries(OnChain(e, m.hot), c, net, fee) && c.id in s.open && net + fee <= s.open[c.id] &&
             forall t <- s.db.journal :: t.id != m.txID
    ensures var b := RunOf(e, moves).db.balances;
            IsNew(e, RunOf(e, moves).db, m) <==>
            if m.call.UnfreezeCall? then Get(b, AvailableKey(e)) + net + fee < Pow10(65)
            else Get(b, HotKey(OnChain(e, m.hot))) >= net && (fee > 0 ==> Get(b, FeeKey(e)) + fee < Pow10(65))
  {
    hide Ready, Carries, StageKey, Perform, Performed, Pow10, TotalOf, Sound, OpenSum, Get, RunOf, Find, Frugal,
      OrderlyRun, HotKey, AlwaysCovered;
    var s, at := RunOf(e, moves), OnChain(e, m.hot);
    LockedIsOpenAndHolds(e, moves);
    OrderlyRunsAreClosable(e, mine, moves);
    CoveredAtEnd(e, moves);
    ChainsShareRows(e, m.hot, m.call);
    OpenSumWithout(s.open, m.call.id);
    OpenSumIsNotNegative(s.open - {m.call.id});
    PerformedIs(e, s.db, m);
    assert Unclosed(s.db, m.call.id);
    StageExactly(at, s.db, m.call, net, fee, m.txID);
  }

  lemma CoveredAtEnd(e: Env, moves: seq<Move>)
    requires Ready(e) && Frugal(e, moves) && forall m <- moves :: Proper(e, m)
    ensures Covered(e, RunOf(e, moves))
  {
    hide Ready, Frugal, Proper, AlwaysCovered;
    AlwaysCoveredExactly(e, moves);
    CoveredNow(e, moves);
  }

  lemma OpenSumIsNotNegative(open: map<int, nat>)
    ensures OpenSum(open) >= 0
    decreases |open|
  {
    if open != map[] {
      assert open.Keys != {};
      Shrinks(open, PickFrom(open.Keys));
      OpenSumIsNotNegative(open - {PickFrom(open.Keys)});
    }
  }

  // -------------------------------------------------------- closing them all

  /** The calls unfreeze every open order once, for what it froze. */
  predicate ClosesAll(e: Env, open: map<int, nat>, calls: seq<StageCall>)
  {
    if calls == [] then open == map[]
    else
      var c := calls[0];
      c.UnfreezeCall? && c.id in open && Carries(e, c, open[c.id], 0) && ClosesAll(e, open - {c.id}, calls[1..])
  }

  /** Called one after another, with ids drawn from `txID` on, all calls are posted. */
  predicate AllPosted(e: Env, db: DB, calls: seq<StageCall>, txID: int)
    decreases |calls|
  {
    calls == [] ||
    (Perform(e, db, calls[0], txID).1 == Posted(txID, false) &&
     AllPosted(e, Perform(e, db, calls[0], txID).0, calls[1..], txID + 1))
  }

  /** The open orders are covered exactly when they can all be unfrozen one after another. */
  lemma {:induction false} CoveredExactly(e: Env, db: DB, open: map<int, nat>, calls: seq<StageCall>, txID: int)
    requires Ready(e) && Sound(e.chart, db) && ClosesAll(e, open, calls)
    requires forall id <- open :: !Used(db, UnfreezeStage, id)
    requires forall t <- db.journal :: t.id < txID
    requires Get(db.balances, AvailableKey(e)) + OpenSum(open) < Pow10(65)
    ensures AllPosted(e, db, calls, txID) <==> OpenSum(open) <= Get(db.balances, LockedKey(e))
    decreases |calls|
  {
    hide Ready, Sound, Carries, Perform, OpenSum, Get, Pow10, Find, StageKey;
    BalancesInRange(e.chart, db, LockedKey(e));
    if calls == [] {
      NothingOpen();
    } else {
      var c, n := calls[0], open[calls[0].id];
      StageExactly(e, db, c, n, 0, txID);
      OpenSumWithout(open, c.id);
      OpenSumIsNotNegative(open - {c.id});
      if HasRoom(e, db.balances, UnfreezeStage, n, 0) {
        var after := Perform(e, db, c, txID).0;
        UnfreezeRecords(e, db, c, txID);
        KeysApart(e);
        CoveredExactly(e, after, open - {c.id}, calls[1..], txID + 1);
      }
    }
  }

  lemma NothingOpen()
    ensures OpenSum(map[]) == 0
  {
  }

  lemma UnfreezeRecords(e: Env, db: DB, c: StageCall, txID: int)
    requires c.UnfreezeCall? && Perform(e, db, c, txID).1 == Posted(txID, false)
    ensures var after := Perform(e, db, c, txID).0;
            (forall id: int :: id != c.id ==> (Used(after, UnfreezeStage, id) <==> Used(db, UnfreezeStage, id))) &&
            forall t <- after.journal :: t in db.journal || t.id == txID
  {
    hide Perform, Performed, StageKey, Find;
    var m := Do(e.hot, c, txID);
    assert OnChain(e, e.hot) == e;
    PerformedIs(e, db, m);
    MoveRecords(e, db, m);
    forall id: int | id != c.id ensures StageKey(UnfreezeStage, id) != StageKey(UnfreezeStage, c.id) {
      StageKeysApart(UnfreezeStage, id, UnfreezeStage, c.id);
    }
  }

  /** After any orderly run, the open orders are covered exactly when all of them can still be
      unfrozen. */
  lemma CoveredMeansClosable(e: Env, mine: iset<int>, moves: seq<Move>, calls: seq<StageCall>, txID: int)
    requires Ready(e) && OrderlyRun(e, mine, moves) && forall m <- moves :: Proper(e, m)
    requires var s := RunOf(e, moves);
             ClosesAll(e, s.open, calls) && (forall t <- s.db.journal :: t.id < txID) &&
             Get(s.db.balances, AvailableKey(e)) + OpenSum(s.open) < Pow10(65)
    ensures Covered(e, RunOf(e, moves)) <==> AllPosted(e, RunOf(e, moves).db, calls, txID)
  {
    hide Ready, Sound, OpenSum, Get, Pow10, RunOf, OrderlyRun, ClosesAll, AllPosted;
    var s := RunOf(e, moves);
    LockedIsOpenAndHolds(e, moves);
    OrderlyRunsAreClosable(e, mine, moves);
    CoveredExactly(e, s.db, s.open, calls, txID);
  }

  // --------------------------------------------------------- unfreezing users

  /** What unfreezing a user with their assets asks for: the whole locked balance, as shown. */
  function UnfreezeUser(e: Env, db: DB, key: string, bizRef: string): AssetCall
  {
    var locked := Get(db.balances, LockedKey(e));
    UnfreezeAssets(key, bizRef, e.user, ShownBalance(if locked >= 0 then locked else 0, e.scale))
  }

  /** A closing that takes more than is locked is never posted. */
  lemma CannotTakeMore(e: Env, db: DB, m: Move, net: nat, fee: nat)
    requires Sound(e.chart, db) && m.Do? && Proper(e, m) && !m.call.FreezeCall?
    requires Carries(OnChain(e, m.hot), m.call, net, fee) && Get(db.balances, LockedKey(e)) < net + fee
    ensures !IsNew(e, db, m)
  {
    hide Sound, Carries, Performed, Get, TotalOf, Ready, Pow10;
    ChainsShareRows(e, m.hot, m.call);
    TotalIs(OnChain(e, m.hot), m.call, net, fee);
    if IsNew(e, db, m) {
      DoMovesLocked(e, db, m);
      SoundStays(e, db, m);
      BalancesInRange(e.chart, Performed(e, db, m).0, LockedKey(e));
    }
  }

  lemma UserPostings(e: Env, db: DB, m: Move)
    requires m.Asset? && IsNew(e, db, m)
    ensures exists n: nat :: Transfers(e, m.moved, n)
  {
    hide AssetPostings, Transfers, Post;
    TransfersExactly(e, m.moved);
  }

  lemma UserReads(e: Env, db: DB, key: string, bizRef: string, n: nat)
    requires Transfers(e, UnfreezeUser(e, db, key, bizRef), n) && Get(db.balances, LockedKey(e)) >= 0
    ensures RowAt(e, UnfreezeUser(e, db, key, bizRef).Source()) == LockedKey(e)
    ensures Reads(ShownBalance(Get(db.balances, LockedKey(e)), e.scale), e.scale, false, false, n)
  {
    hide Reads, ShownBalance, Get;
  }

  /** What is asked for is the balance to within half a millionth, and at six digits all of it. */
  lemma UserAsks(e: Env, db: DB, key: string, bizRef: string, n: nat)
    requires Ready(e) && Sound(e.chart, db) && Transfers(e, UnfreezeUser(e, db, key, bizRef), n)
    ensures e.scale >= 6 && 2 * Get(db.balances, LockedKey(e)) <= 2 * n + Pow10(e.scale - 6)
    ensures e.scale == 6 ==> n == Get(db.balances, LockedKey(e))
  {
    hide Sound, Get, Pow10, Reads, ShownBalance, Transfers, UnfreezeUser;
    BalancesInRange(e.chart, db, LockedKey(e));
    UserReads(e, db, key, bizRef, n);
    ShownBalanceAsks(Get(db.balances, LockedKey(e)), e.scale, n);
  }

  lemma UserMove(e: Env, s: Flow, key: string, bizRef: string, txID: int) returns (n: nat)
    requires Ready(e) && Linked(e, s) && IsNew(e, s.db, Asset(UnfreezeUser(e, s.db, key, bizRef), txID))
    ensures e.scale >= 6 && 2 * Get(s.db.balances, LockedKey(e)) <= 2 * n + Pow10(e.scale - 6)
    ensures e.scale == 6 ==> n == Get(s.db.balances, LockedKey(e))
    ensures var after := Next(e, s, Asset(UnfreezeUser(e, s.db, key, bizRef), txID));
            after.open == s.open && Spare(e, after) == Spare(e, s) - n
  {
    hide Get, Pow10, Ready, Transfers, UnfreezeUser, Next, IsNew, LockedKey, RowAt, Spare, Linked, Reads, ShownBalance,
      Sound;
    var m := Asset(UnfreezeUser(e, s.db, key, bizRef), txID);
    UserPostings(e, s.db, m);
    n :| Transfers(e, m.moved, n);
    LinkedIsSound(e, s);
    UserAsks(e, s.db, key, bizRef, n);
    UserReads(e, s.db, key, bizRef, n);
    AssetMoveCoversExactly(e, s, m, n);
    AssetsKeepOpen(e, s, m);
  }

  lemma AssetsKeepOpen(e: Env, s: Flow, m: Move)
    requires m.Asset?
    ensures Next(e, s, m).open == s.open
  {
    hide Performed, IsNew, Takes;
  }

  lemma LinkedIsSound(e: Env, s: Flow)
    requires Linked(e, s)
    ensures Sound(e.chart, s.db) && Get(s.db.balances, LockedKey(e)) >= 0
    ensures forall id <- s.open :: s.open[id] > 0
  {
    hide Sound, Get, Used;
    BalancesInRange(e.chart, s.db, LockedKey(e));
  }

  /** Unfreezing a user works at six digits of precision or more only. It takes the open orders'
      funds as well: at most half a millionth stays locked, and at six digits nothing, so that the
      open orders stay covered exactly when there are none. */
  lemma UnfreezeUserTakes(e: Env, s: Flow, key: string, bizRef: string, txID: int)
    requires Ready(e) && Linked(e, s) && IsNew(e, s.db, Asset(UnfreezeUser(e, s.db, key, bizRef), txID))
    ensures var after := Next(e, s, Asset(UnfreezeUser(e, s.db, key, bizRef), txID));
            e.scale >= 6 && 2 * Get(after.db.balances, LockedKey(e)) <= Pow10(e.scale - 6) && after.open == s.open &&
            (e.scale == 6 ==> Get(after.db.balances, LockedKey(e)) == 0 && (Covered(e, after) <==> s.open == map[]))
  {
    hide Get, Pow10, Ready, OpenSum, UnfreezeUser, Next, IsNew, LockedKey, Linked;
    var n := UserMove(e, s, key, bizRef, txID);
    LinkedIsSound(e, s);
    OpenIsPositive(s.open);
  }

  lemma OpenIsPositive(open: map<int, nat>)
    ensures OpenSum(open) >= 0
    ensures (forall id <- open :: open[id] > 0) ==> (OpenSum(open) == 0 <==> open == map[])
  {
    OpenSumIsNotNegative(open);
    if open != map[] {
      assert open.Keys != {};
      OpenSumIsNotNegative(open - {PickFrom(open.Keys)});
    }
  }

  /** So no order worth more than half a millionth can be settled or unfrozen any more. */
  lemma UnfreezeUserStrands(e: Env, s: Flow, key: string, bizRef: string, txID: int, m: Move, net: nat, fee: nat)
    requires Ready(e) && Linked(e, s) && IsNew(e, s.db, Asset(UnfreezeUser(e, s.db, key, bizRef), txID))
    requires m.Do? && Proper(e, m) && !m.call.FreezeCall? && Carries(OnChain(e, m.hot), m.call, net, fee)
    requires e.scale >= 6 ==> 2 * (net + fee) > Pow10(e.scale - 6)
    ensures !IsNew(e, Next(e, s, Asset(UnfreezeUser(e, s.db, key, bizRef), txID)).db, m)
  {
    hide Sound, Get, Pow10, Ready, Carries, UnfreezeUser, Performed, IsNew, Proper;
    var taken := Asset(UnfreezeUser(e, s.db, key, bizRef), txID);
    UnfreezeUserTakes(e, s, key, bizRef, txID);
    SoundStays(e, s.db, taken);
    CannotTakeMore(e, Next(e, s, taken).db, m, net, fee);
  }
}
