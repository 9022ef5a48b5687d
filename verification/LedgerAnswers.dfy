/** What the engine answers to a request, and what it therefore never records. */
module LedgerAnswers {
  import opened Numerals
  import opened Decimals
  import opened Sorting
  import opened Ledger
  import opened LedgerSafety
  import Amounts

  // ------------------------------------------------------------ admission

  /** `a` is what `p` says: the asset in capitals, the account, the bucket, and whole amounts
      below 10^65, of which exactly one is zero. */
  predicate Says(p: RawPosting, a: Posting)
  {
    a.asset == ToUpper(TrimSpace(p.asset)) && a.asset != "" && a.account == p.account && a.account > 0 &&
    ToLower(TrimSpace(p.bucket)) == (if a.bucket.Available? then "available" else "locked") &&
    Value(p.debit) == a.debit as real && Value(p.credit) == a.credit as real &&
    a.debit < Pow10(65) && a.credit < Pow10(65) && (a.debit == 0 <==> a.credit > 0)
  }

  lemma BucketSays(p: RawPosting, b: Bucket)
    ensures BucketOf(p.bucket) == Some(b) <==>
            ToLower(TrimSpace(p.bucket)) == if b.Available? then "available" else "locked"
  {
    hide ToLower, TrimSpace;
    assert |"available"| != |"locked"|;
  }

  lemma AmountSays(v: Dec, n: nat)
    requires n < Pow10(65)
    ensures Value(v) == n as real <==> Amounts.IsWhole(v, n)
    ensures Value(v) == n as real ==> Amounts.ValidateDecimal65Int(v).Ok? && v.coef >= 0 && WholeOf(v) == n
    ensures Value(v) == n as real ==> (v.coef == 0 <==> n == 0)
  {
    hide Value, Amounts.IsWhole, Amounts.ValidateDecimal65Int, WholeOf, Pow10;
    Amounts.IsWholeValue(v, n);
    if Value(v) == n as real {
      Amounts.WholeSign(v, n);
      assert Amounts.InRange65(n);
      Amounts.ValidateAcceptsExactly(v);
      WholeOfIs(v);
      Amounts.IsWholeUnique(v, n, WholeOf(v));
    }
  }

  /** A posting is admitted exactly as what it says. */
  lemma AdmitSays(p: RawPosting, a: Posting)
    ensures Admit(p) == Some(a) <==> Says(p, a)
  {
    hide Value, Amounts.IsWhole, Amounts.ValidateDecimal65Int, WholeOf, Pow10, BucketOf, TrimSpace, ToUpper, ToLower,
      Less, Equal;
    CompareZeroes(p);
    BucketSays(p, a.bucket);
    if Says(p, a) {
      AmountSays(p.debit, a.debit);
      AmountSays(p.credit, a.credit);
    }
    if Admit(p) == Some(a) {
      AdmittedIsOneSided(p);
    }
  }

  predicate SaysAll(raw: seq<RawPosting>, ps: seq<Posting>)
  {
    |raw| == |ps| && forall i :: 0 <= i < |raw| ==> Says(raw[i], ps[i])
  }

  lemma {:induction false} AdmitAllSays(raw: seq<RawPosting>, ps: seq<Posting>)
    ensures AdmitAll(raw) == Some(ps) <==> SaysAll(raw, ps)
  {
    hide Admit, Says;
    AdmitAllLength(raw);
    if raw != [] && |ps| == |raw| {
      var n := |raw| - 1;
      AdmitAllSays(raw[..n], ps[..n]);
      AdmitSays(raw[n], ps[n]);
      assert ps == ps[..n] + [ps[n]];
      if SaysAll(raw, ps) {
        assert SaysAll(raw[..n], ps[..n]);
      }
      if AdmitAll(raw) == Some(ps) {
        assert AdmitAll(raw[..n]).value == ps[..n];
        assert forall i :: 0 <= i < n ==> Says(raw[i], ps[i]) by {
          assert forall i :: 0 <= i < n ==> raw[..n][i] == raw[i] && ps[..n][i] == ps[i];
        }
      }
    }
  }

  // --------------------------------------------------------------- answers

  /** The request is well formed and says these postings, which balance. */
  predicate Reads(req: Request, ps: seq<Posting>)
  {
    NamesFit(req.key, req.op, req.bizRef) && ps != [] && SaysAll(req.postings, ps) && Balanced(ps)
  }

  predicate AllServed(chart: Chart, ps: seq<Posting>) { forall p <- ps :: Served(chart, p) }

  lemma CheckedReads(chart: Chart, req: Request, ps: seq<Posting>)
    ensures Reads(req, ps) ==> AdmitAll(req.postings) == Some(ps) && req.postings != []
    ensures Checked(chart, req).0 == Some(ps) <==> Reads(req, ps) && AllServed(chart, ps)
    ensures Reads(req, ps) && (exists p <- ps :: p.account !in chart.sides) ==>
              Checked(chart, req) == (None, AccountNotFound)
    ensures Reads(req, ps) && (forall p <- ps :: p.account in chart.sides) && !AllServed(chart, ps) ==>
              Checked(chart, req) == (None, InvalidRequest)
  {
    hide TrimSpace, ByteLength, AdmitAll, SaysAll, Balanced, SideOf;
    AdmitAllSays(req.postings, ps);
    SaysNothing(req.postings, ps);
  }

  lemma SaysNothing(raw: seq<RawPosting>, ps: seq<Posting>)
    ensures SaysAll(raw, ps) ==> (raw == [] <==> ps == [])
  {
  }

  lemma UnreadIsInvalid(chart: Chart, req: Request)
    requires forall ps: seq<Posting> :: !Reads(req, ps)
    ensures Checked(chart, req) == (None, InvalidRequest)
  {
    hide TrimSpace, ByteLength, AdmitAll, Balanced, SaysAll;
    if AdmitAll(req.postings).Some? {
      AdmitAllSays(req.postings, AdmitAll(req.postings).value);
      SaysNothing(req.postings, AdmitAll(req.postings).value);
      assert !Reads(req, AdmitAll(req.postings).value);
    }
  }

  /** A request under a fresh key and id is posted exactly when it is well formed, balances, every
      account exists, has a normal side and supports the asset, and every netted row stays in
      range. */
  lemma PostedExactly(chart: Chart, db: DB, req: Request, id: int)
    requires Find(db.journal, TrimSpace(req.key)).None? && forall t <- db.journal :: t.id != id
    ensures Post(chart, db, req, id).1 == Posted(id, false) <==>
            exists ps: seq<Posting> :: Reads(req, ps) && AllServed(chart, ps) && RowsFit(chart, db.balances, ps)
  {
    hide Checked, Commit, Find, Reads, AllServed, AllFit, TrimSpace, RowsFit;
    if Checked(chart, req).0.Some? {
      var ps := Checked(chart, req).0.value;
      CheckedReads(chart, req, ps);
      CommitExactly(chart, db, TxOf(req, id, ps));
      FitRows(chart, db.balances, ps);
    }
    forall ps: seq<Posting> | Reads(req, ps) && AllServed(chart, ps) ensures Checked(chart, req).0 == Some(ps) {
      CheckedReads(chart, req, ps);
    }
  }

  /** Every row the postings touch either nets to nothing, or moves by less than 10^65 to a
      balance from 0 to below 10^65. */
  predicate RowsFit(chart: Chart, b: Balances, ps: seq<Posting>)
  {
    forall p <- ps ::
      var d := DeltaSum(chart, ps, KeyOf(p));
      d != 0 ==> -Limit() < d < Limit() && 0 <= Get(b, KeyOf(p)) + d < Limit()
  }

  function Limit(): int { Pow10(65) }

  lemma FitRows(chart: Chart, b: Balances, ps: seq<Posting>)
    ensures RowsFit(chart, b, ps) <==> AllFit(chart, b, ps)
  {
    hide DeltaSum, Get, Pow10;
  }

  /** Whose fault it is that a row cannot be moved. */
  function RowError(balance: int, delta: int): LedgerError
  {
    if delta >= Pow10(65) || -delta >= Pow10(65) then InvalidRequest
    else if balance + delta < 0 then InsufficientFunds
    else OutOfRange
  }

  lemma {:induction false} FirstFailure(chart: Chart, b: Balances, keys: seq<Key>, ps: seq<Posting>) returns (i: nat)
    requires Distinct(keys) && (forall k <- keys :: k in b) && ApplyAll(chart, b, keys, ps).Failed?
    ensures i < |keys| && !Fits(Get(b, keys[i]), DeltaSum(chart, ps, keys[i]))
    ensures forall j :: 0 <= j < i ==> Fits(Get(b, keys[j]), DeltaSum(chart, ps, keys[j]))
    ensures ApplyAll(chart, b, keys, ps) == Failed(RowError(Get(b, keys[i]), DeltaSum(chart, ps, keys[i])))
  {
    hide DeltaSum, Get, Fits, ApplyDelta, RowError;
    var init, last := keys[..|keys| - 1], keys[|keys| - 1];
    assert keys == init + [last] && last in keys && last !in init;
    if ApplyAll(chart, b, init, ps).Failed? {
      i := FirstFailure(chart, b, init, ps);
    } else {
      i := |keys| - 1;
      ApplyAllIs(chart, b, init, ps);
      var c := ApplyAll(chart, b, init, ps).balances;
      ApplyDeltaError(c, last, DeltaSum(chart, ps, last));
      forall j | 0 <= j < i ensures Fits(Get(b, keys[j]), DeltaSum(chart, ps, keys[j])) {
        assert init[j] in init;
      }
    }
  }

  lemma ApplyDeltaError(b: Balances, k: Key, delta: int)
    ensures ApplyDelta(b, k, delta).Failed? ==>
              !Fits(Get(b, k), delta) && ApplyDelta(b, k, delta) == Failed(RowError(Get(b, k), delta))
  {
    hide Pow10;
  }

  /** The first row, by account, asset and bucket, that cannot be moved. */
  ghost predicate FirstUnfit(chart: Chart, b: Balances, ps: seq<Posting>, k: Key)
  {
    Touches(ps, k) && !Fits(Get(b, k), DeltaSum(chart, ps, k)) &&
    forall j :: Touches(ps, j) && KeyLess(j, k) ==> Fits(Get(b, j), DeltaSum(chart, ps, j))
  }

  lemma CommitError(chart: Chart, db: DB, tx: Tx) returns (k: Key)
    requires Find(db.journal, tx.key).None? && (forall t <- db.journal :: t.id != tx.id)
    requires !AllFit(chart, db.balances, tx.postings)
    ensures FirstUnfit(chart, db.balances, tx.postings, k)
    ensures Commit(chart, db, tx).1 == Refused(RowError(Get(db.balances, k), DeltaSum(chart, tx.postings, k)))
  {
    hide DeltaSum, Touches, WithRows, Sorted, DistinctKeys, KeyLess, Get, Fits, Find, ApplyAll, RowError, AllFit;
    var ps := tx.postings;
    var keys := Sorted(KeyLess, DistinctKeys(ps));
    CommitExactly(chart, db, tx);
    LockedRows(ps);
    RowsAreThere(db.balances, keys);
    var i := FirstFailure(chart, WithRows(db.balances, keys), keys, ps);
    k := keys[i];
    forall j | Touches(ps, j) && KeyLess(j, k) ensures Fits(Get(db.balances, j), DeltaSum(chart, ps, j)) {
      var n :| 0 <= n < |keys| && keys[n] == j;
      KeyIsNotLess(k);
      assert n < i;
    }
  }

  lemma KeyIsNotLess(k: Key)
    ensures !KeyLess(k, k)
  {
    StringOrder(k.asset, k.asset);
  }

  /** What is answered when a request is not posted anew, condition by condition. */
  lemma RefusalsExactly(chart: Chart, db: DB, req: Request, id: int)
    ensures (forall ps: seq<Posting> :: !Reads(req, ps)) ==>
              Post(chart, db, req, id).1 == Refused(InvalidRequest)
    ensures forall ps: seq<Posting> :: Reads(req, ps) && (exists p <- ps :: p.account !in chart.sides) ==>
              Post(chart, db, req, id).1 == Refused(AccountNotFound)
    ensures forall ps: seq<Posting> ::
              Reads(req, ps) && (forall p <- ps :: p.account in chart.sides) && !AllServed(chart, ps) ==>
              Post(chart, db, req, id).1 == Refused(InvalidRequest)
  {
    hide Checked, Commit, Reads, AllServed;
    if forall ps: seq<Posting> :: !Reads(req, ps) {
      UnreadIsInvalid(chart, req);
    }
    forall ps: seq<Posting> | Reads(req, ps)
      ensures (exists p <- ps :: p.account !in chart.sides) ==> Checked(chart, req) == (None, AccountNotFound)
      ensures (forall p <- ps :: p.account in chart.sides) && !AllServed(chart, ps) ==>
                Checked(chart, req) == (None, InvalidRequest)
    {
      CheckedReads(chart, req, ps);
    }
  }

  /** And when it is well formed and served: a known key decides first, then a known id, then the
      first row that cannot be moved. */
  lemma ConflictsExactly(chart: Chart, db: DB, req: Request, id: int, ps: seq<Posting>) returns (k: Key)
    requires Reads(req, ps) && AllServed(chart, ps)
    ensures var o, found := Post(chart, db, req, id).1, Find(db.journal, TrimSpace(req.key));
            if found.Some? then
              o == if SameRequest(found.value, req, ps) then Posted(found.value.id, true)
                   else Refused(IdempotencyConflict)
            else if exists t <- db.journal :: t.id == id then o == Refused(DuplicateID)
            else if RowsFit(chart, db.balances, ps) then o == Posted(id, false)
            else FirstUnfit(chart, db.balances, ps, k) &&
                 o == Refused(RowError(Get(db.balances, k), DeltaSum(chart, ps, k)))
  {
    hide Checked, Commit, Find, Reads, AllServed, AllFit, TrimSpace, RowsFit, FirstUnfit, RowError;
    CheckedReads(chart, req, ps);
    FitRows(chart, db.balances, ps);
    var tx := TxOf(req, id, ps);
    k := Key(0, "", Available);
    if Find(db.journal, tx.key).Some? {
      KnownKeyExactly(chart, db, req, id, Find(db.journal, tx.key).value);
    } else if exists t <- db.journal :: t.id == id {
      KnownId(chart, db, tx);
    } else if !AllFit(chart, db.balances, ps) {
      k := CommitError(chart, db, tx);
    } else {
      CommitExactly(chart, db, tx);
    }
  }

  predicate SameRequest(known: Tx, req: Request, ps: seq<Posting>)
  {
    known.op == TrimSpace(req.op) && known.bizRef == TrimSpace(req.bizRef) && multiset(known.postings) == multiset(ps)
  }

  lemma KnownId(chart: Chart, db: DB, tx: Tx)
    requires Find(db.journal, tx.key).None? && exists t <- db.journal :: t.id == tx.id
    ensures Commit(chart, db, tx).1 == Refused(DuplicateID)
  {
    hide Find, ApplyAll, IntentOf;
  }

  // ------------------------------------------------------------------ runs

  /** Everything recorded was well formed and served. */
  predicate Recorded(chart: Chart, tx: Tx)
  {
    tx.key != "" && ByteLength(tx.key) <= 128 && tx.op != "" && ByteLength(tx.op) <= 64 &&
    ByteLength(tx.bizRef) <= 128 && tx.postings != [] && Balanced(tx.postings) && AllServed(chart, tx.postings)
  }

  ghost predicate OnlyServed(chart: Chart, db: DB)
  {
    (forall t <- db.journal :: Recorded(chart, t)) &&
    (forall k <- db.balances :: k.account in chart.sides && (k.account, k.asset) in chart.supported)
  }

  lemma AddingKeepsServed(chart: Chart, db: DB, tx: Tx)
    requires OnlyServed(chart, db) && Recorded(chart, tx)
    ensures OnlyServed(chart, DB(FinalOf(chart, db.balances, tx.postings), db.journal + [tx]))
  {
    hide Recorded, AllServed, FinalOf, Touches;
    assert AllServed(chart, tx.postings) by { RecordedIsServed(chart, tx); }
    forall k | k in FinalOf(chart, db.balances, tx.postings)
      ensures k.account in chart.sides && (k.account, k.asset) in chart.supported
    {
      FinalAt(chart, db.balances, tx.postings, k);
      ServedRows(chart, tx.postings, k);
    }
  }

  lemma RecordedIsServed(chart: Chart, tx: Tx)
    requires Recorded(chart, tx)
    ensures AllServed(chart, tx.postings)
  {
    hide AllServed, ByteLength, Balanced;
  }

  lemma PostRecordsServed(chart: Chart, db: DB, req: Request, id: int)
    requires OnlyServed(chart, db)
    ensures OnlyServed(chart, Post(chart, db, req, id).0)
  {
    hide Checked, Commit, Recorded, AllServed, Find, FinalOf, TrimSpace, OnlyServed, Reads, AllFit;
    PostRecords(chart, db, req, id);
    if Post(chart, db, req, id).1 == Posted(id, false) {
      var ps := Checked(chart, req).0.value;
      var tx := TxOf(req, id, ps);
      CheckedReads(chart, req, ps);
      ReadIsRecorded(chart, req, id, ps);
      NewIdOnly(chart, db, tx);
      CommitExactly(chart, db, tx);
      AddingKeepsServed(chart, db, tx);
    }
  }

  lemma ReadIsRecorded(chart: Chart, req: Request, id: int, ps: seq<Posting>)
    requires Reads(req, ps) && AllServed(chart, ps)
    ensures Recorded(chart, TxOf(req, id, ps))
  {
    hide TrimSpace, ByteLength, SaysAll, Balanced, AllServed;
  }

  lemma ServedRows(chart: Chart, ps: seq<Posting>, k: Key)
    requires AllServed(chart, ps)
    ensures Touches(ps, k) ==> k.account in chart.sides && (k.account, k.asset) in chart.supported
  {
  }

  /** Whatever is requested: only accounts that support the asset are ever posted to or have a
      balance row, and every recorded name is within its length. */
  lemma {:induction false} RunsAreServed(chart: Chart, calls: seq<Call>)
    ensures OnlyServed(chart, RunFrom(chart, NEW_DB, calls))
  {
    if calls != [] {
      hide OnlyServed, Post;
      var init, last := calls[..|calls| - 1], calls[|calls| - 1];
      RunsAreServed(chart, init);
      PostRecordsServed(chart, RunFrom(chart, NEW_DB, init), last.req, last.id);
    }
  }
}
