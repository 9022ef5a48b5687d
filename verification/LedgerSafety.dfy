/** What every run of the ledger keeps. */
module LedgerSafety {
  import opened Numerals
  import opened Sorting
  import opened Ledger

  // ------------------------------------------------------ the netted update

  function Bump(b: Balances, k: Key, d: int): Balances { b[k := Get(b, k) + d] }

  /** The specification of an update: every posting moves its row, one after another. */
  function FinalOf(chart: Chart, b: Balances, ps: seq<Posting>): Balances
  {
    if ps == [] then b
    else Bump(FinalOf(chart, b, ps[..|ps| - 1]), KeyOf(ps[|ps| - 1]), Delta(chart, ps[|ps| - 1]))
  }

  predicate Touches(ps: seq<Posting>, k: Key) { exists p <- ps :: KeyOf(p) == k }

  lemma TouchesLast(ps: seq<Posting>, k: Key)
    requires ps != []
    ensures Touches(ps, k) <==> Touches(ps[..|ps| - 1], k) || KeyOf(ps[|ps| - 1]) == k
  {
    var init, last := ps[..|ps| - 1], ps[|ps| - 1];
    assert last in ps && forall p :: p in ps <==> p in init || p == last by {
      assert ps == init + [last];
    }
  }

  lemma {:induction false} FinalAt(chart: Chart, b: Balances, ps: seq<Posting>, k: Key)
    ensures Get(FinalOf(chart, b, ps), k) == Get(b, k) + DeltaSum(chart, ps, k)
    ensures k in FinalOf(chart, b, ps) <==> k in b || Touches(ps, k)
  {
    if ps != [] {
      hide Delta, Touches;
      FinalAt(chart, b, ps[..|ps| - 1], k);
      TouchesLast(ps, k);
    } else {
      assert !Touches(ps, k);
    }
  }

  lemma {:induction false} DistinctKeysAre(ps: seq<Posting>)
    ensures Distinct(DistinctKeys(ps))
    ensures forall k :: k in DistinctKeys(ps) <==> Touches(ps, k)
  {
    hide Touches;
    if ps != [] {
      var init := ps[..|ps| - 1];
      DistinctKeysAre(init);
      forall k ensures Touches(ps, k) <==> Touches(init, k) || KeyOf(ps[|ps| - 1]) == k {
        TouchesLast(ps, k);
      }
    } else {
      forall k ensures !Touches(ps, k) { NoPostings(k); }
    }
  }

  lemma NoPostings(k: Key)
    ensures !Touches([], k)
  {
  }

  lemma KeysTransitive(x: Key, y: Key, z: Key)
    requires KeyLess(x, y) && KeyLess(y, z)
    ensures KeyLess(x, z)
  {
    hide StringLess;
    Chained(x.asset, y.asset, z.asset);
    Chained(y.asset, z.asset, x.asset);
  }

  lemma KeysTotal(x: Key, y: Key)
    ensures KeyLess(x, y) || KeyLess(y, x) || x == y
  {
    hide StringLess;
    StringOrder(x.asset, y.asset);
    if x.account == y.account && x.asset == y.asset {
      match (x.bucket, y.bucket)
      case (Available, Available) => assert x == y;
      case (Locked, Locked) => assert x == y;
      case _ =>
    }
  }

  lemma KeysAreOrdered()
    ensures StrictOrder(KeyLess)
  {
    forall x: Key, y: Key ensures KeyLess(x, y) || KeyLess(y, x) || x == y { KeysTotal(x, y); }
    forall x: Key, y: Key, z: Key | KeyLess(x, y) && KeyLess(y, z) ensures KeyLess(x, z) { KeysTransitive(x, y, z); }
    forall x: Key ensures !KeyLess(x, x) { StringOrder(x.asset, x.asset); }
  }

  lemma {:induction false} DistinctByCount<T>(s: seq<T>)
    ensures Distinct(s) <==> forall x :: multiset(s)[x] <= 1
  {
    if s != [] {
      var init, last := s[..|s| - 1], s[|s| - 1];
      DistinctByCount(init);
      assert s == init + [last];
      assert forall x :: multiset(s)[x] == multiset(init)[x] + if x == last then 1 else 0;
      assert last in init <==> multiset(init)[last] > 0;
      assert Distinct(s) <==> Distinct(init) && last !in init;
    }
  }

  /** The rows locked for an update: each touched row once, in ascending order. */
  lemma LockedRows(ps: seq<Posting>)
    ensures Distinct(Sorted(KeyLess, DistinctKeys(ps)))
    ensures forall k :: k in Sorted(KeyLess, DistinctKeys(ps)) <==> Touches(ps, k)
    ensures InOrder(KeyLess, Sorted(KeyLess, DistinctKeys(ps)))
  {
    hide StrictOrder, KeyLess, Distinct, DistinctKeys, Sorted, Touches;
    KeysAreOrdered();
    var s := DistinctKeys(ps);
    DistinctKeysAre(ps);
    SortedSorts(KeyLess, s);
    DistinctByCount(s);
    DistinctByCount(Sorted(KeyLess, s));
    forall k ensures k in Sorted(KeyLess, s) <==> k in s {
      assert k in Sorted(KeyLess, s) <==> k in multiset(Sorted(KeyLess, s));
      assert k in s <==> k in multiset(s);
    }
  }

  /** Ascending by account, then by asset, the available bucket before the locked one. */
  lemma LockedRowsAscend(ps: seq<Posting>, i: nat, j: nat)
    requires i < j < |Sorted(KeyLess, DistinctKeys(ps))|
    ensures var a, b := Sorted(KeyLess, DistinctKeys(ps))[i], Sorted(KeyLess, DistinctKeys(ps))[j];
            a.account < b.account ||
            (a.account == b.account &&
             (StringLess(a.asset, b.asset) || (a.asset == b.asset && a.bucket == Available && b.bucket == Locked)))
  {
    hide Sorted, DistinctKeys, StringLess;
    LockedRows(ps);
    var keys := Sorted(KeyLess, DistinctKeys(ps));
    KeysTotal(keys[i], keys[j]);
  }

  predicate Fits(balance: int, delta: int)
  {
    delta == 0 || (delta < Pow10(65) && -delta < Pow10(65) && 0 <= balance + delta < Pow10(65))
  }

  lemma ApplyDeltaIs(b: Balances, k: Key, delta: int)
    requires k in b
    ensures var r := ApplyDelta(b, k, delta);
            (r.Done? <==> Fits(Get(b, k), delta)) && (r.Done? ==> r.balances.Keys == b.Keys) &&
            (r.Done? ==> forall j :: Get(r.balances, j) == Get(b, j) + if j == k then delta else 0)
  {
    hide Pow10;
  }

  /** Row by row: the update goes through exactly when every row fits, and then moves every row
      by its net amount. */
  lemma {:induction false} ApplyAllIs(chart: Chart, b: Balances, keys: seq<Key>, ps: seq<Posting>)
    requires Distinct(keys) && forall k <- keys :: k in b
    ensures var r := ApplyAll(chart, b, keys, ps);
            (r.Done? <==> forall k <- keys :: Fits(Get(b, k), DeltaSum(chart, ps, k))) &&
            (r.Done? ==> r.balances.Keys == b.Keys) &&
            (r.Done? ==> forall k :: Get(r.balances, k) == Get(b, k) + if k in keys then DeltaSum(chart, ps, k) else 0)
  {
    hide DeltaSum, ApplyDelta, Fits, Get;
    if keys != [] {
      var init, last := keys[..|keys| - 1], keys[|keys| - 1];
      assert last in keys && last !in init && forall k :: k in keys <==> k in init || k == last by {
        assert keys == init + [last];
      }
      ApplyAllIs(chart, b, init, ps);
      if ApplyAll(chart, b, init, ps).Done? {
        ApplyDeltaIs(ApplyAll(chart, b, init, ps).balances, last, DeltaSum(chart, ps, last));
      }
    }
  }

  predicate AllFit(chart: Chart, b: Balances, ps: seq<Posting>)
  {
    forall p <- ps :: Fits(Get(b, KeyOf(p)), DeltaSum(chart, ps, KeyOf(p)))
  }

  lemma SameBalances(a: Balances, b: Balances)
    requires a.Keys == b.Keys && forall k :: Get(a, k) == Get(b, k)
    ensures a == b
  {
    forall k | k in a ensures a[k] == b[k] {
      assert Get(a, k) == Get(b, k);
    }
  }

  lemma RowsAreThere(b: Balances, keys: seq<Key>)
    ensures forall k <- keys :: k in WithRows(b, keys)
    ensures forall k :: (k in WithRows(b, keys) <==> k in b || k in keys) && Get(WithRows(b, keys), k) == Get(b, k)
  {
  }

  /** A new transaction is posted exactly when every netted row fits, and then the balances are
      those of its postings applied one by one; otherwise nothing changes at all. */
  lemma CommitExactly(chart: Chart, db: DB, tx: Tx)
    requires Find(db.journal, tx.key).None? && forall t <- db.journal :: t.id != tx.id
    ensures if AllFit(chart, db.balances, tx.postings)
            then Commit(chart, db, tx) ==
                 (DB(FinalOf(chart, db.balances, tx.postings), db.journal + [tx]), Posted(tx.id, false))
            else Commit(chart, db, tx).0 == db && Commit(chart, db, tx).1.Refused?
  {
    hide DeltaSum, FinalOf, Touches, WithRows, Sorted, DistinctKeys, KeyLess, Get, Fits, Find;
    var ps := tx.postings;
    var keys := Sorted(KeyLess, DistinctKeys(ps));
    var b := WithRows(db.balances, keys);
    LockedRows(ps);
    RowsAreThere(db.balances, keys);
    ApplyAllIs(chart, b, keys, ps);
    assert AllFit(chart, db.balances, ps) <==> forall k <- keys :: Fits(Get(b, k), DeltaSum(chart, ps, k)) by {
      TouchedAre(ps);
    }
    if AllFit(chart, db.balances, ps) {
      var c, final := ApplyAll(chart, b, keys, ps).balances, FinalOf(chart, db.balances, ps);
      forall k ensures Get(c, k) == Get(final, k) && (k in c <==> k in final) {
        FinalAt(chart, db.balances, ps, k);
        if k !in keys {
          UntouchedDelta(chart, ps, k);
        }
      }
      SameBalances(c, final);
    }
  }

  lemma TouchedAre(ps: seq<Posting>)
    ensures forall p <- ps :: Touches(ps, KeyOf(p))
    ensures forall k :: Touches(ps, k) ==> exists p <- ps :: KeyOf(p) == k
  {
  }

  lemma {:induction false} UntouchedDelta(chart: Chart, ps: seq<Posting>, k: Key)
    requires !Touches(ps, k)
    ensures DeltaSum(chart, ps, k) == 0
  {
    if ps != [] {
      hide Touches, Delta;
      TouchesLast(ps, k);
      UntouchedDelta(chart, ps[..|ps| - 1], k);
    }
  }

  // ------------------------------------------------------------- soundness

  /** The balances that the recorded postings give. */
  function Replay(chart: Chart, journal: seq<Tx>): Balances
  {
    if journal == [] then map[]
    else FinalOf(chart, Replay(chart, journal[..|journal| - 1]), journal[|journal| - 1].postings)
  }

  predicate ProperTx(chart: Chart, tx: Tx)
  {
    tx.postings != [] && Balanced(tx.postings) && forall p <- tx.postings :: !SideOf(chart, p.account).NoSide?
  }

  predicate InRange(b: Balances) { forall k <- b :: 0 <= b[k] < Pow10(65) }

  predicate OncePerKey(journal: seq<Tx>)
  {
    forall i, j :: 0 <= i < j < |journal| ==> journal[i].key != journal[j].key && journal[i].id != journal[j].id
  }

  /** Key and operation are named, and key, operation and reference are short enough. */
  predicate NamesFit(key: string, op: string, bizRef: string)
  {
    TrimSpace(key) != "" && ByteLength(TrimSpace(key)) <= 128 && TrimSpace(op) != "" &&
    ByteLength(TrimSpace(op)) <= 64 && ByteLength(TrimSpace(bizRef)) <= 128
  }

  /** The account exists, has a normal side and supports the asset. */
  predicate Served(chart: Chart, p: Posting)
  {
    p.account in chart.sides && (p.account, p.asset) in chart.supported && !SideOf(chart, p.account).NoSide?
  }

  /** Balances are the projection of the journal and in range; every transaction is balanced and
      stands once under its key. */
  ghost predicate Sound(chart: Chart, db: DB)
  {
    db.balances == Replay(chart, db.journal) && InRange(db.balances) && OncePerKey(db.journal) &&
    forall t <- db.journal :: ProperTx(chart, t)
  }

  lemma {:induction false} FindFinds(journal: seq<Tx>, key: string)
    ensures var r := Find(journal, key);
            if r.Some? then r.value in journal && r.value.key == key else forall t <- journal :: t.key != key
  {
    if journal != [] {
      FindFinds(journal[..|journal| - 1], key);
      assert journal == journal[..|journal| - 1] + [journal[|journal| - 1]];
    }
  }

  lemma FinalInRange(chart: Chart, b: Balances, ps: seq<Posting>)
    requires InRange(b) && AllFit(chart, b, ps)
    ensures InRange(FinalOf(chart, b, ps))
  {
    hide FinalOf, DeltaSum, Pow10;
    forall k | k in FinalOf(chart, b, ps) ensures 0 <= FinalOf(chart, b, ps)[k] < Pow10(65) {
      FinalAt(chart, b, ps, k);
      if !Touches(ps, k) {
        UntouchedDelta(chart, ps, k);
      }
      PowerIsPositive();
    }
  }

  lemma PowerIsPositive()
    ensures Pow10(65) > 0
  {
    ScaleOrder(0, 1, 65);
  }

  lemma CommitKeeps(chart: Chart, db: DB, tx: Tx)
    requires Sound(chart, db) && ProperTx(chart, tx)
    ensures Sound(chart, Commit(chart, db, tx).0)
  {
    hide Sound, Find, ProperTx, FinalOf, AllFit, ApplyAll, IntentOf, Sorted, WithRows, DistinctKeys;
    if Find(db.journal, tx.key).None? && forall t <- db.journal :: t.id != tx.id {
      CommitExactly(chart, db, tx);
      if AllFit(chart, db.balances, tx.postings) {
        NewTxKeeps(chart, db, tx);
      }
    }
  }

  lemma NewTxKeeps(chart: Chart, db: DB, tx: Tx)
    requires Sound(chart, db) && ProperTx(chart, tx) && AllFit(chart, db.balances, tx.postings)
    requires Find(db.journal, tx.key).None? && forall t <- db.journal :: t.id != tx.id
    ensures Sound(chart, DB(FinalOf(chart, db.balances, tx.postings), db.journal + [tx]))
  {
    hide Find, FinalOf, ProperTx, AllFit, InRange;
    FindFinds(db.journal, tx.key);
    FinalInRange(chart, db.balances, tx.postings);
    assert (db.journal + [tx])[..|db.journal|] == db.journal;
  }

  lemma CheckedIsProper(chart: Chart, req: Request, id: int)
    requires Checked(chart, req).0.Some?
    ensures ProperTx(chart, TxOf(req, id, Checked(chart, req).0.value))
    ensures AdmitAll(req.postings) == Checked(chart, req).0
  {
    AdmitAllLength(req.postings);
  }

  lemma {:induction false} AdmitAllLength(raw: seq<RawPosting>)
    ensures AdmitAll(raw).Some? ==> |AdmitAll(raw).value| == |raw|
  {
    if raw != [] {
      AdmitAllLength(raw[..|raw| - 1]);
    }
  }

  /** A request with the id drawn for it. */
  datatype Call = Call(req: Request, id: int)

  function RunFrom(chart: Chart, db: DB, calls: seq<Call>): DB
  {
    if calls == [] then db
    else Post(chart, RunFrom(chart, db, calls[..|calls| - 1]), calls[|calls| - 1].req, calls[|calls| - 1].id).0
  }

  lemma PostKeeps(chart: Chart, db: DB, req: Request, id: int)
    requires Sound(chart, db)
    ensures Sound(chart, Post(chart, db, req, id).0)
  {
    hide Sound, Commit, Checked;
    if Checked(chart, req).0.Some? {
      CheckedIsProper(chart, req, id);
      CommitKeeps(chart, db, TxOf(req, id, Checked(chart, req).0.value));
    }
  }

  /** Whatever is requested, in whatever order, the ledger stays sound: balances never go below
      zero or beyond 65 digits, and are the projection of the recorded postings. */
  lemma {:induction false} RunsAreSound(chart: Chart, calls: seq<Call>)
    ensures Sound(chart, RunFrom(chart, NEW_DB, calls))
  {
    if calls != [] {
      hide Sound, Post;
      RunsAreSound(chart, calls[..|calls| - 1]);
      var last := calls[|calls| - 1];
      PostKeeps(chart, RunFrom(chart, NEW_DB, calls[..|calls| - 1]), last.req, last.id);
    }
  }

  /** A refused or repeated request leaves no trace. */
  lemma OnlyNewPostingsChange(chart: Chart, db: DB, req: Request, id: int)
    ensures Post(chart, db, req, id).1 != Posted(id, false) ==> Post(chart, db, req, id).0 == db
  {
    hide Post;
    PostRecords(chart, db, req, id);
  }

  // ---------------------------------------------------------- double entry

  ghost function PickFrom<T>(s: set<T>): (x: T)
    requires s != {}
    ensures x in s
  {
    var x :| x in s;
    x
  }

  predicate Counts(chart: Chart, asset: string, side: Side, k: Key)
  {
    k.asset == asset && SideOf(chart, k.account) == side
  }

  /** The balances of one asset on the accounts of one normal side. */
  ghost function SideTotal(chart: Chart, b: Balances, asset: string, side: Side): int
    decreases |b|
  {
    if b == map[] then 0
    else
      assert b.Keys != {};
      var k := PickFrom(b.Keys);
      assert |b - {k}| < |b| by { Shrinks(b, k); }
      (if Counts(chart, asset, side, k) then b[k] else 0) + SideTotal(chart, b - {k}, asset, side)
  }

  lemma Shrinks<K, V>(m: map<K, V>, k: K)
    requires k in m
    ensures |m - {k}| < |m|
  {
    assert (m - {k}).Keys == m.Keys - {k};
    assert |m.Keys - {k}| == |m.Keys| - 1;
  }

  lemma {:induction false} SideTotalWithout(chart: Chart, b: Balances, asset: string, side: Side, k: Key)
    requires k in b
    ensures SideTotal(chart, b, asset, side) ==
            (if Counts(chart, asset, side, k) then b[k] else 0) + SideTotal(chart, b - {k}, asset, side)
    decreases |b|
  {
    hide Counts;
    assert b.Keys != {};
    var first := PickFrom(b.Keys);
    if first != k {
      Shrinks(b, first);
      SideTotalWithout(chart, b - {first}, asset, side, k);
      SideTotalWithout(chart, b - {k}, asset, side, first);
      assert (b - {first}) - {k} == (b - {k}) - {first};
    }
  }

  lemma BumpTotal(chart: Chart, b: Balances, asset: string, side: Side, k: Key, d: int)
    ensures SideTotal(chart, Bump(b, k, d), asset, side) ==
            SideTotal(chart, b, asset, side) + if Counts(chart, asset, side, k) then d else 0
  {
    hide Counts, SideTotal;
    var c := Bump(b, k, d);
    SideTotalWithout(chart, c, asset, side, k);
    if k in b {
      SideTotalWithout(chart, b, asset, side, k);
      assert c - {k} == b - {k};
    } else {
      assert c - {k} == b;
    }
  }

  /** What postings add to the debit side less what they add to the credit side is their debits
      less their credits. */
  lemma {:induction false} PostingsMoveBothSides(chart: Chart, b: Balances, ps: seq<Posting>, asset: string)
    requires forall p <- ps :: !SideOf(chart, p.account).NoSide?
    ensures var c := FinalOf(chart, b, ps);
            SideTotal(chart, c, asset, DebitSide) - SideTotal(chart, c, asset, CreditSide) ==
            SideTotal(chart, b, asset, DebitSide) - SideTotal(chart, b, asset, CreditSide) +
            DebitSum(ps, asset) - CreditSum(ps, asset)
  {
    if ps != [] {
      hide SideTotal, Bump, SideOf;
      var init, p := ps[..|ps| - 1], ps[|ps| - 1];
      assert p in ps && forall q <- init :: q in ps by { assert ps == init + [p]; }
      PostingsMoveBothSides(chart, b, init, asset);
      var c := FinalOf(chart, b, init);
      BumpTotal(chart, c, asset, DebitSide, KeyOf(p), Delta(chart, p));
      BumpTotal(chart, c, asset, CreditSide, KeyOf(p), Delta(chart, p));
    }
  }

  lemma {:induction false} BalancedSums(ps: seq<Posting>, asset: string)
    requires Balanced(ps)
    ensures DebitSum(ps, asset) == CreditSum(ps, asset)
  {
    if forall p <- ps :: p.asset != asset {
      OtherAsset(ps, asset);
    }
  }

  lemma {:induction false} OtherAsset(ps: seq<Posting>, asset: string)
    requires forall p <- ps :: p.asset != asset
    ensures DebitSum(ps, asset) == 0 && CreditSum(ps, asset) == 0
  {
    if ps != [] {
      assert ps == ps[..|ps| - 1] + [ps[|ps| - 1]];
      OtherAsset(ps[..|ps| - 1], asset);
    }
  }

  lemma {:induction false} ReplayBalances(chart: Chart, journal: seq<Tx>, asset: string)
    requires forall t <- journal :: ProperTx(chart, t)
    ensures var b := Replay(chart, journal);
            SideTotal(chart, b, asset, DebitSide) == SideTotal(chart, b, asset, CreditSide)
  {
    if journal != [] {
      hide SideTotal, FinalOf, Balanced;
      var init, t := journal[..|journal| - 1], journal[|journal| - 1];
      assert t in journal && forall u <- init :: u in journal by { assert journal == init + [t]; }
      ReplayBalances(chart, init, asset);
      PostingsMoveBothSides(chart, Replay(chart, init), t.postings, asset);
      BalancedSums(t.postings, asset);
    }
  }

  /** After every run the books balance: for every asset, what debit-normal accounts hold equals
      what credit-normal accounts hold. */
  lemma BooksBalance(chart: Chart, calls: seq<Call>, asset: string)
    ensures var b := RunFrom(chart, NEW_DB, calls).balances;
            SideTotal(chart, b, asset, DebitSide) == SideTotal(chart, b, asset, CreditSide)
  {
    hide SideTotal, Replay, RunFrom;
    RunsAreSound(chart, calls);
    ReplayBalances(chart, RunFrom(chart, NEW_DB, calls).journal, asset);
  }

  // ----------------------------------------------------------- idempotency

  /** A checked request under a known key moves nothing: it is answered with the recorded
      transaction when it is the same request up to the order of its postings, and refused
      otherwise. */
  lemma KnownKeyExactly(chart: Chart, db: DB, req: Request, id: int, known: Tx)
    requires Checked(chart, req).0.Some? && Find(db.journal, TrimSpace(req.key)) == Some(known)
    ensures var tx := TxOf(req, id, Checked(chart, req).0.value);
            var same := tx.op == known.op && tx.bizRef == known.bizRef;
            var same := same && multiset(tx.postings) == multiset(known.postings);
            Post(chart, db, req, id) == (db, if same then Posted(known.id, true) else Refused(IdempotencyConflict))
  {
    hide IntentOf, Checked, Find;
    var ps := Checked(chart, req).0.value;
    SameIntentExactly(known.op, known.bizRef, known.postings, TrimSpace(req.op), TrimSpace(req.bizRef), ps);
  }

  /** A call records one transaction, under a key that was free, or none. */
  lemma PostRecords(chart: Chart, db: DB, req: Request, id: int)
    ensures var (after, outcome) := Post(chart, db, req, id);
            if outcome == Posted(id, false) then
              Checked(chart, req).0.Some? && Find(db.journal, TrimSpace(req.key)).None? &&
              after.journal == db.journal + [TxOf(req, id, Checked(chart, req).0.value)]
            else after == db
  {
    hide Checked, ApplyAll, IntentOf, Sorted, WithRows, Find, DistinctKeys;
    if Checked(chart, req).0.Some? {
      CommitRecords(chart, db, TxOf(req, id, Checked(chart, req).0.value));
    }
  }

  /** A call moves every row by what its checked postings net to, or changes nothing. */
  lemma PostMoves(chart: Chart, db: DB, req: Request, id: int)
    requires Sound(chart, db)
    ensures var (after, outcome) := Post(chart, db, req, id);
            if outcome == Posted(id, false) then
              Checked(chart, req).0.Some? && Sound(chart, after) &&
              forall k :: Get(after.balances, k) ==
                          Get(db.balances, k) + DeltaSum(chart, Checked(chart, req).0.value, k)
            else after == db
  {
    hide Sound, Checked, Find, FinalOf, DeltaSum, Get, AllFit, Commit;
    PostKeeps(chart, db, req, id);
    if Checked(chart, req).0.Some? {
      var ps := Checked(chart, req).0.value;
      CommitMoves(chart, db, TxOf(req, id, ps));
    }
  }

  lemma CommitMoves(chart: Chart, db: DB, tx: Tx)
    ensures var (after, outcome) := Commit(chart, db, tx);
            if outcome == Posted(tx.id, false) then
              forall k :: Get(after.balances, k) == Get(db.balances, k) + DeltaSum(chart, tx.postings, k)
            else after == db
  {
    CommitRecords(chart, db, tx);
    NewIdOnly(chart, db, tx);
    hide Find, FinalOf, DeltaSum, Get, AllFit, Commit;
    if Commit(chart, db, tx).1 == Posted(tx.id, false) {
      CommitExactly(chart, db, tx);
      forall k ensures Get(FinalOf(chart, db.balances, tx.postings), k) ==
                       Get(db.balances, k) + DeltaSum(chart, tx.postings, k) {
        FinalAt(chart, db.balances, tx.postings, k);
      }
    }
  }

  lemma NewIdOnly(chart: Chart, db: DB, tx: Tx)
    ensures Commit(chart, db, tx).1 == Posted(tx.id, false) ==> forall t <- db.journal :: t.id != tx.id
  {
    hide ApplyAll, IntentOf, Sorted, WithRows, Find, DistinctKeys;
  }

  lemma CommitRecords(chart: Chart, db: DB, tx: Tx)
    ensures var (after, outcome) := Commit(chart, db, tx);
            if outcome == Posted(tx.id, false) then Find(db.journal, tx.key).None? && after.journal == db.journal + [tx]
            else after == db
  {
    hide ApplyAll, IntentOf, Sorted, WithRows, Find, DistinctKeys;
  }

  lemma {:induction false} RecordsStay(chart: Chart, db: DB, calls: seq<Call>, known: Tx)
    requires Find(db.journal, known.key) == Some(known)
    ensures Find(RunFrom(chart, db, calls).journal, known.key) == Some(known)
  {
    if calls != [] {
      hide Checked, Post;
      var init, last := calls[..|calls| - 1], calls[|calls| - 1];
      RecordsStay(chart, db, init, known);
      var before, after := RunFrom(chart, db, init), RunFrom(chart, db, calls);
      PostRecords(chart, before, last.req, last.id);
      if after != before {
        FindLater(before.journal, TxOf(last.req, last.id, Checked(chart, last.req).0.value), known);
      }
    }
  }

  lemma FindLater(journal: seq<Tx>, tx: Tx, known: Tx)
    requires Find(journal, known.key) == Some(known) && Find(journal, tx.key).None?
    ensures Find(journal + [tx], known.key) == Some(known)
  {
    assert (journal + [tx])[..|journal|] == journal;
  }

  /** A request that was posted once is posted for good: whatever happens in between, sending it
      again returns its transaction and changes nothing. */
  lemma RetryIsHarmless(chart: Chart, db: DB, req: Request, id: int, between: seq<Call>, again: int)
    requires Post(chart, db, req, id).1 == Posted(id, false)
    ensures var later := RunFrom(chart, Post(chart, db, req, id).0, between);
            Post(chart, later, req, again) == (later, Posted(id, true))
  {
    hide Checked, Post, RunFrom;
    PostRecords(chart, db, req, id);
    var tx := TxOf(req, id, Checked(chart, req).0.value);
    var after := Post(chart, db, req, id).0;
    assert Find(after.journal, tx.key) == Some(tx);
    RecordsStay(chart, after, between, tx);
    KnownKeyExactly(chart, RunFrom(chart, after, between), req, again, tx);
  }

  // --------------------------------------------------- order of postings

  lemma {:induction false} DeltaSumConcat(chart: Chart, ps: seq<Posting>, qs: seq<Posting>, k: Key)
    ensures DeltaSum(chart, ps + qs, k) == DeltaSum(chart, ps, k) + DeltaSum(chart, qs, k)
    decreases |qs|
  {
    hide Delta;
    if qs == [] {
      assert ps + qs == ps;
    } else {
      assert (ps + qs)[..|ps + qs| - 1] == ps + qs[..|qs| - 1];
      DeltaSumConcat(chart, ps, qs[..|qs| - 1], k);
    }
  }

  lemma WithoutOne(ps: seq<Posting>, qs: seq<Posting>) returns (i: nat)
    requires multiset(ps) == multiset(qs) && ps != []
    ensures i < |qs| && qs[i] == ps[|ps| - 1]
    ensures multiset(qs[..i] + qs[i + 1..]) == multiset(ps[..|ps| - 1])
    ensures qs == qs[..i] + ([qs[i]] + qs[i + 1..])
  {
    var init, last := ps[..|ps| - 1], ps[|ps| - 1];
    assert ps == init + ([last] + []);
    MiddleOut(init, last, []);
    assert init + [] == init && last in multiset(qs);
    i :| 0 <= i < |qs| && qs[i] == last;
    assert qs == qs[..i] + ([last] + qs[i + 1..]);
    MiddleOut(qs[..i], last, qs[i + 1..]);
  }

  lemma MiddleOut(a: seq<Posting>, x: Posting, b: seq<Posting>)
    ensures multiset(a + b) == multiset(a + ([x] + b)) - multiset{x}
  {
    assert multiset(a + ([x] + b)) == multiset(a) + (multiset{x} + multiset(b));
  }

  /** A net movement does not depend on the order of the postings. */
  lemma {:induction false} DeltaSumPermutes(chart: Chart, ps: seq<Posting>, qs: seq<Posting>, k: Key)
    requires multiset(ps) == multiset(qs)
    ensures DeltaSum(chart, ps, k) == DeltaSum(chart, qs, k)
  {
    hide Delta;
    assert |multiset(ps)| == |ps| && |multiset(qs)| == |qs|;
    if ps != [] {
      var i := WithoutOne(ps, qs);
      var a, b := qs[..i], qs[i + 1..];
      DeltaSumPermutes(chart, ps[..|ps| - 1], a + b, k);
      DeltaSumConcat(chart, a, b, k);
      DeltaSumConcat(chart, a, [qs[i]] + b, k);
      DeltaSumConcat(chart, [qs[i]], b, k);
      OneDelta(chart, qs[i], k);
    }
  }

  lemma OneDelta(chart: Chart, p: Posting, k: Key)
    ensures DeltaSum(chart, [p], k) == if KeyOf(p) == k then Delta(chart, p) else 0
  {
    assert [p][..|[p]| - 1] == [] && DeltaSum(chart, [], k) == 0;
  }

  /** Whether a transaction is posted, and the balances it leaves, do not depend on the order in
      which its postings were sent. */
  lemma OrderDoesNotMatter(chart: Chart, db: DB, tx: Tx, qs: seq<Posting>)
    requires Find(db.journal, tx.key).None? && forall t <- db.journal :: t.id != tx.id
    requires multiset(tx.postings) == multiset(qs)
    ensures var a, b := Commit(chart, db, tx), Commit(chart, db, tx.(postings := qs));
            a.0.balances == b.0.balances && (a.1 == Posted(tx.id, false) <==> b.1 == Posted(tx.id, false))
  {
    hide DeltaSum, FinalOf, Commit, Find, Fits;
    var ps := tx.postings;
    CommitExactly(chart, db, tx);
    CommitExactly(chart, db, tx.(postings := qs));
    forall k ensures DeltaSum(chart, ps, k) == DeltaSum(chart, qs, k) {
      DeltaSumPermutes(chart, ps, qs, k);
    }
    forall p ensures p in ps <==> p in qs {
      assert p in ps <==> p in multiset(ps);
      assert p in qs <==> p in multiset(qs);
    }
    var a, b := FinalOf(chart, db.balances, ps), FinalOf(chart, db.balances, qs);
    forall k ensures Get(a, k) == Get(b, k) && (k in a <==> k in b) {
      FinalAt(chart, db.balances, ps, k);
      FinalAt(chart, db.balances, qs, k);
    }
    SameBalances(a, b);
  }
}
