/** The double-entry engine (services/accounting/rpc/internal/engine/engine.go): validated
    postings, netted per balance row, applied in one transaction under an idempotency key. */
module Ledger {
  import opened Numerals
  import opened Decimals
  import opened Sorting
  import Amounts

  // -------------------------------------------------------------- requests

  datatype Bucket = Available | Locked

  /** A posting as callers send it. */
  datatype RawPosting = RawPosting(asset: string, account: int, bucket: string, debit: Dec, credit: Dec)

  datatype Request = Request(key: string, op: string, bizRef: string, postings: seq<RawPosting>)

  /** A posting that passed the checks; amounts are smallest units. */
  datatype Posting = Posting(asset: string, account: int, bucket: Bucket, debit: nat, credit: nat)

  datatype LedgerError =
    InvalidRequest | AccountNotFound | IdempotencyConflict | InsufficientFunds | OutOfRange | DuplicateID

  datatype Outcome = Posted(txID: int, duplicate: bool) | Refused(error: LedgerError)

  function WholeOf(v: Dec): nat
    requires v.coef >= 0
  {
    if v.exp >= 0 then CoefAt(v, 0) else HighPart(v.coef, 0 - v.exp)
  }

  function BucketOf(name: string): Option<Bucket>
  {
    var n := ToLower(TrimSpace(name));
    if n == "available" then Some(Available) else if n == "locked" then Some(Locked) else None
  }

  function Admit(p: RawPosting): Option<Posting>
  {
    var asset, bucket := ToUpper(TrimSpace(p.asset)), BucketOf(p.bucket);
    if asset == "" || p.account <= 0 || bucket.None? then None
    else if Less(p.debit, ZERO) || Less(p.credit, ZERO) then None
    else if Equal(p.debit, ZERO) == Equal(p.credit, ZERO) then None
    else if Amounts.ValidateDecimal65Int(p.debit).Err? || Amounts.ValidateDecimal65Int(p.credit).Err? then None
    else
      CompareZeroes(p);
      Some(Posting(asset, p.account, bucket.value, WholeOf(p.debit), WholeOf(p.credit)))
  }

  lemma CompareZeroes(p: RawPosting)
    ensures Less(p.debit, ZERO) <==> p.debit.coef < 0
    ensures Less(p.credit, ZERO) <==> p.credit.coef < 0
    ensures Equal(p.debit, ZERO) <==> p.debit.coef == 0
    ensures Equal(p.credit, ZERO) <==> p.credit.coef == 0
  {
    Amounts.CompareZero(p.debit);
    Amounts.CompareZero(p.credit);
  }

  lemma WholeOfIs(v: Dec)
    requires v.coef >= 0 && Amounts.ValidateDecimal65Int(v).Ok?
    ensures Amounts.IsWhole(v, WholeOf(v)) && WholeOf(v) < Pow10(65)
  {
    hide Amounts.ValidateDecimal65Int, Pow10;
    Amounts.ValidateAcceptsExactly(v);
    var n :| Amounts.IsWhole(v, n) && Amounts.InRange65(n);
    if v.exp < 0 {
      Amounts.WholeIsHighPart(v.coef, 0 - v.exp, n);
    }
  }

  /** An admitted posting is one-sided, and its side is the exact whole amount that was sent. */
  lemma AdmittedIsOneSided(p: RawPosting)
    requires Admit(p).Some?
    ensures var a := Admit(p).value;
            a.debit as real == Value(p.debit) && a.credit as real == Value(p.credit) &&
            a.debit < Pow10(65) && a.credit < Pow10(65) && (a.debit == 0 <==> a.credit > 0) && a.account > 0
  {
    hide Amounts.ValidateDecimal65Int, Less, Equal;
    CompareZeroes(p);
    WholeOfIs(p.debit);
    WholeOfIs(p.credit);
    Amounts.IsWholeValue(p.debit, WholeOf(p.debit));
    Amounts.IsWholeValue(p.credit, WholeOf(p.credit));
    Amounts.WholeSign(p.debit, WholeOf(p.debit));
    Amounts.WholeSign(p.credit, WholeOf(p.credit));
  }

  /** Amounts that stand for whole units below 10^65, one of them zero and the other not. */
  ghost predicate OneSided(p: RawPosting)
  {
    exists debit, credit ::
      Amounts.IsWhole(p.debit, debit) && Amounts.IsWhole(p.credit, credit) &&
      Amounts.InRange65(debit) && Amounts.InRange65(credit) && (debit == 0 <==> credit != 0)
  }

  /** A posting is admitted exactly when it names an asset, an account and a known bucket, and
      its amounts are one-sided. */
  lemma AdmitsExactly(p: RawPosting)
    ensures Admit(p).Some? <==>
            ToUpper(TrimSpace(p.asset)) != "" && p.account > 0 && BucketOf(p.bucket).Some? && OneSided(p)
  {
    hide Amounts.ValidateDecimal65Int, Less, Equal, Amounts.IsWhole, Pow10, WholeOf, BucketOf, TrimSpace, ToUpper;
    CompareZeroes(p);
    Amounts.ValidateAcceptsExactly(p.debit);
    Amounts.ValidateAcceptsExactly(p.credit);
    if OneSided(p) {
      var debit, credit :| Amounts.IsWhole(p.debit, debit) && Amounts.IsWhole(p.credit, credit) &&
        Amounts.InRange65(debit) && Amounts.InRange65(credit) && (debit == 0 <==> credit != 0);
      Amounts.WholeSign(p.debit, debit);
      Amounts.WholeSign(p.credit, credit);
    }
    if Admit(p).Some? {
      var debit :| Amounts.IsWhole(p.debit, debit) && Amounts.InRange65(debit);
      var credit :| Amounts.IsWhole(p.credit, credit) && Amounts.InRange65(credit);
      Amounts.WholeSign(p.debit, debit);
      Amounts.WholeSign(p.credit, credit);
    }
  }

  function AdmitAll(raw: seq<RawPosting>): Option<seq<Posting>>
  {
    if raw == [] then Some([])
    else
      match (AdmitAll(raw[..|raw| - 1]), Admit(raw[|raw| - 1]))
      case (Some(init), Some(p)) => Some(init + [p])
      case _ => None
  }

  function DebitSum(ps: seq<Posting>, asset: string): nat
  {
    if ps == [] then 0
    else
      var p := ps[|ps| - 1];
      DebitSum(ps[..|ps| - 1], asset) + if p.asset == asset then p.debit else 0
  }

  function CreditSum(ps: seq<Posting>, asset: string): nat
  {
    if ps == [] then 0
    else
      var p := ps[|ps| - 1];
      CreditSum(ps[..|ps| - 1], asset) + if p.asset == asset then p.credit else 0
  }

  predicate Balanced(ps: seq<Posting>)
  {
    forall p <- ps :: DebitSum(ps, p.asset) == CreditSum(ps, p.asset)
  }

  // --------------------------------------------------------------- hashing

  /** One row of the request hash, amounts as printed. */
  datatype Row = Row(asset: string, account: int, bucket: string, debit: string, credit: string)

  function RowOf(p: Posting): Row
  {
    Row(p.asset, p.account, if p.bucket.Available? then "available" else "locked",
        NatToString(p.debit), NatToString(p.credit))
  }

  predicate RowLess(a: Row, b: Row)
  {
    if a.asset != b.asset then StringLess(a.asset, b.asset)
    else if a.account != b.account then a.account < b.account
    else if a.bucket != b.bucket then StringLess(a.bucket, b.bucket)
    else if a.debit != b.debit then StringLess(a.debit, b.debit)
    else StringLess(a.credit, b.credit)
  }

  /** What the hash is taken of. The hash itself is not modelled: two requests are the same
      when these agree. */
  datatype Intent = Intent(op: string, bizRef: string, rows: seq<Row>)

  function RowsOf(ps: seq<Posting>): (rows: seq<Row>)
    ensures |rows| == |ps|
  {
    seq(|ps|, i requires 0 <= i < |ps| => RowOf(ps[i]))
  }

  function IntentOf(op: string, bizRef: string, ps: seq<Posting>): Intent
  {
    Intent(op, bizRef, Sorted(RowLess, RowsOf(ps)))
  }

  lemma RowsAreOrdered()
    ensures StrictOrder(RowLess)
  {
    forall x: Row ensures !RowLess(x, x) { StringOrder(x.credit, x.credit); }
    forall x: Row, y: Row ensures RowLess(x, y) || RowLess(y, x) || x == y {
      StringOrder(x.asset, y.asset);
      StringOrder(x.bucket, y.bucket);
      StringOrder(x.debit, y.debit);
      StringOrder(x.credit, y.credit);
    }
    forall x: Row, y: Row, z: Row | RowLess(x, y) && RowLess(y, z) ensures RowLess(x, z) {
      RowsTransitive(x, y, z);
    }
  }

  lemma Chained(a: string, b: string, c: string)
    ensures StringLess(a, b) && StringLess(b, c) ==> StringLess(a, c)
    ensures StringLess(a, b) ==> a != b && !StringLess(b, a)
  {
    StringOrder(a, b);
    if StringLess(a, b) && StringLess(b, c) {
      StringTransitive(a, b, c);
    }
  }

  lemma RowsTransitive(x: Row, y: Row, z: Row)
    requires RowLess(x, y) && RowLess(y, z)
    ensures RowLess(x, z)
  {
    hide StringLess;
    Chained(x.asset, y.asset, z.asset);
    Chained(y.asset, z.asset, x.asset);
    Chained(x.bucket, y.bucket, z.bucket);
    Chained(y.bucket, z.bucket, x.bucket);
    Chained(x.debit, y.debit, z.debit);
    Chained(y.debit, z.debit, x.debit);
    Chained(x.credit, y.credit, z.credit);
  }

  lemma RowIsPosting(p: Posting, q: Posting)
    ensures RowOf(p) == RowOf(q) <==> p == q
  {
    NatToStringValue(p.debit);
    NatToStringValue(q.debit);
    NatToStringValue(p.credit);
    NatToStringValue(q.credit);
    assert "available" != "locked" by { assert |"available"| != |"locked"|; }
  }

  lemma {:induction false} RowsCount(ps: seq<Posting>, p: Posting)
    ensures multiset(RowsOf(ps))[RowOf(p)] == multiset(ps)[p]
  {
    if ps != [] {
      var init, last := ps[..|ps| - 1], ps[|ps| - 1];
      RowsCount(init, p);
      assert ps == init + [last];
      assert RowsOf(ps) == RowsOf(init) + [RowOf(last)];
      RowIsPosting(p, last);
    }
  }

  lemma RowComesFrom(ps: seq<Posting>, r: Row) returns (p: Posting)
    requires r in multiset(RowsOf(ps))
    ensures RowOf(p) == r
  {
    hide RowOf;
    assert r in RowsOf(ps);
    var i :| 0 <= i < |ps| && RowOf(ps[i]) == r;
    p := ps[i];
  }

  lemma RowsOfSame(ps: seq<Posting>, qs: seq<Posting>)
    ensures multiset(RowsOf(ps)) == multiset(RowsOf(qs)) <==> multiset(ps) == multiset(qs)
  {
    hide RowOf, RowsOf;
    if multiset(RowsOf(ps)) == multiset(RowsOf(qs)) {
      forall p ensures multiset(ps)[p] == multiset(qs)[p] {
        RowsCount(ps, p);
        RowsCount(qs, p);
      }
    }
    if multiset(ps) == multiset(qs) {
      forall r: Row ensures multiset(RowsOf(ps))[r] == multiset(RowsOf(qs))[r] {
        if r in multiset(RowsOf(ps)) || r in multiset(RowsOf(qs)) {
          var p := RowComesFrom(if r in multiset(RowsOf(ps)) then ps else qs, r);
          RowsCount(ps, p);
          RowsCount(qs, p);
        }
      }
    }
  }

  /** Two requests count as the same exactly when operation and reference agree and the postings
      are the same up to their order. */
  lemma SameIntentExactly(op: string, bizRef: string, ps: seq<Posting>, op': string, bizRef': string, qs: seq<Posting>)
    ensures IntentOf(op, bizRef, ps) == IntentOf(op', bizRef', qs) <==>
            op == op' && bizRef == bizRef' && multiset(ps) == multiset(qs)
  {
    hide RowLess, Sorted, StrictOrder, RowsOf;
    RowsAreOrdered();
    SortedSorts(RowLess, RowsOf(ps));
    SortedSorts(RowLess, RowsOf(qs));
    RowsOfSame(ps, qs);
    if multiset(ps) == multiset(qs) {
      OrderIsUnique(RowLess, Sorted(RowLess, RowsOf(ps)), Sorted(RowLess, RowsOf(qs)));
    }
  }

  // -------------------------------------------------------------- accounts

  datatype Side = DebitSide | CreditSide | NoSide

  /** Accounts with the normal side of their type, and the assets each supports. */
  datatype Chart = Chart(sides: map<int, Side>, supported: set<(int, string)>)

  /** One balance row. */
  datatype Key = Key(account: int, asset: string, bucket: Bucket)

  function KeyOf(p: Posting): Key { Key(p.account, p.asset, p.bucket) }

  predicate KeyLess(a: Key, b: Key)
  {
    if a.account != b.account then a.account < b.account
    else if a.asset != b.asset then StringLess(a.asset, b.asset)
    else a.bucket.Available? && b.bucket.Locked?
  }

  function SideOf(chart: Chart, account: int): Side
  {
    if account in chart.sides then chart.sides[account] else NoSide
  }

  /** What a posting does to its row, by the account's normal side. */
  function Delta(chart: Chart, p: Posting): int
  {
    if SideOf(chart, p.account).DebitSide? then p.debit - p.credit else p.credit - p.debit
  }

  function DeltaSum(chart: Chart, ps: seq<Posting>, k: Key): int
  {
    if ps == [] then 0
    else
      var p := ps[|ps| - 1];
      DeltaSum(chart, ps[..|ps| - 1], k) + if KeyOf(p) == k then Delta(chart, p) else 0
  }

  function DistinctKeys(ps: seq<Posting>): seq<Key>
  {
    if ps == [] then []
    else
      var init := DistinctKeys(ps[..|ps| - 1]);
      if KeyOf(ps[|ps| - 1]) in init then init else init + [KeyOf(ps[|ps| - 1])]
  }

  // ------------------------------------------------------------- the tables

  datatype Tx = Tx(id: int, key: string, op: string, bizRef: string, postings: seq<Posting>)

  function IntentOfTx(tx: Tx): Intent { IntentOf(tx.op, tx.bizRef, tx.postings) }

  type Balances = map<Key, int>

  /** Balance rows, and the transactions with their postings in order of commit. */
  datatype DB = DB(balances: Balances, journal: seq<Tx>)

  const NEW_DB := DB(map[], [])

  function Find(journal: seq<Tx>, key: string): Option<Tx>
  {
    if journal == [] then None
    else if journal[|journal| - 1].key == key then Some(journal[|journal| - 1])
    else Find(journal[..|journal| - 1], key)
  }

  function Get(b: Balances, k: Key): int { if k in b then b[k] else 0 }

  /** INSERT IGNORE of the missing rows. */
  function WithRows(b: Balances, keys: seq<Key>): Balances
  {
    map k | k in b.Keys + (set k | k in keys) :: Get(b, k)
  }

  datatype Applied = Done(balances: Balances) | Failed(error: LedgerError)

  /** The guarded update of one row. */
  function ApplyDelta(b: Balances, k: Key, delta: int): Applied
  {
    if delta == 0 then Done(b)
    else if delta >= Pow10(65) || -delta >= Pow10(65) then Failed(InvalidRequest)
    else if Get(b, k) + delta < 0 then Failed(InsufficientFunds)
    else if Get(b, k) + delta >= Pow10(65) then Failed(OutOfRange)
    else Done(b[k := Get(b, k) + delta])
  }

  function ApplyAll(chart: Chart, b: Balances, keys: seq<Key>, ps: seq<Posting>): Applied
  {
    if keys == [] then Done(b)
    else
      match ApplyAll(chart, b, keys[..|keys| - 1], ps)
      case Done(c) => ApplyDelta(c, keys[|keys| - 1], DeltaSum(chart, ps, keys[|keys| - 1]))
      case Failed(e) => Failed(e)
  }

  /** Everything PostTx checks before the transaction begins. */
  function Checked(chart: Chart, req: Request): (Option<seq<Posting>>, LedgerError)
  {
    var ps := AdmitAll(req.postings);
    if TrimSpace(req.key) == "" || ByteLength(TrimSpace(req.key)) > 128 then (None, InvalidRequest)
    else if TrimSpace(req.op) == "" || ByteLength(TrimSpace(req.op)) > 64 then (None, InvalidRequest)
    else if ByteLength(TrimSpace(req.bizRef)) > 128 then (None, InvalidRequest)
    else if req.postings == [] || ps.None? then (None, InvalidRequest)
    else if !Balanced(ps.value) then (None, InvalidRequest)
    else if exists p <- ps.value :: p.account !in chart.sides then (None, AccountNotFound)
    else if exists p <- ps.value :: (p.account, p.asset) !in chart.supported then (None, InvalidRequest)
    else if exists p <- ps.value :: SideOf(chart, p.account).NoSide? then (None, InvalidRequest)
    else (ps, InvalidRequest)
  }

  /** The transaction: the header under its unique key, the rows, the postings. A refusal rolls
      everything back. */
  function Commit(chart: Chart, db: DB, tx: Tx): (DB, Outcome)
  {
    var found := Find(db.journal, tx.key);
    if found.Some? then
      if IntentOfTx(found.value) == IntentOfTx(tx) then (db, Posted(found.value.id, true))
      else (db, Refused(IdempotencyConflict))
    else if exists t <- db.journal :: t.id == tx.id then (db, Refused(DuplicateID))
    else
      var keys := Sorted(KeyLess, DistinctKeys(tx.postings));
      match ApplyAll(chart, WithRows(db.balances, keys), keys, tx.postings)
      case Done(b) => (DB(b, db.journal + [tx]), Posted(tx.id, false))
      case Failed(e) => (db, Refused(e))
  }

  function TxOf(req: Request, id: int, ps: seq<Posting>): Tx
  {
    Tx(id, TrimSpace(req.key), TrimSpace(req.op), TrimSpace(req.bizRef), ps)
  }

  function Post(chart: Chart, db: DB, req: Request, id: int): (DB, Outcome)
  {
    var (ps, error) := Checked(chart, req);
    if ps.None? then (db, Refused(error)) else Commit(chart, db, TxOf(req, id, ps.value))
  }

  // ------------------------------------------------------------ the engine

  lemma {:induction false} OneBadPosting(raw: seq<RawPosting>, i: nat)
    requires i < |raw| && Admit(raw[i]).None?
    ensures AdmitAll(raw).None?
  {
    if i < |raw| - 1 {
      OneBadPosting(raw[..|raw| - 1], i);
    }
  }

  lemma {:induction false} FailureStays(chart: Chart, b: Balances, keys: seq<Key>, ps: seq<Posting>, i: nat)
    requires i <= |keys| && ApplyAll(chart, b, keys[..i], ps).Failed?
    ensures ApplyAll(chart, b, keys, ps) == ApplyAll(chart, b, keys[..i], ps)
  {
    if i < |keys| {
      assert keys[..|keys| - 1][..i] == keys[..i];
      FailureStays(chart, b, keys[..|keys| - 1], ps, i);
    } else {
      assert keys[..i] == keys;
    }
  }

  function Sum(sums: map<string, int>, asset: string): int { if asset in sums then sums[asset] else 0 }

  class Engine {
    const chart: Chart
    var balances: Balances
    var journal: seq<Tx>

    ghost function State(): DB
      reads this
    {
      DB(balances, journal)
    }

    constructor (chart: Chart)
      ensures this.chart == chart && State() == NEW_DB
    {
      this.chart := chart;
      balances, journal := map[], [];
    }

    method Normalize(raw: seq<RawPosting>) returns (ps: Option<seq<Posting>>)
      ensures ps == AdmitAll(raw)
    {
      hide Admit;
      var normalized := [];
      for i := 0 to |raw|
        invariant AdmitAll(raw[..i]) == Some(normalized)
      {
        assert raw[..i + 1][..i] == raw[..i];
        var p := Admit(raw[i]);
        if p.None? {
          OneBadPosting(raw, i);
          return None;
        }
        normalized := normalized + [p.value];
      }
      assert raw[..|raw|] == raw;
      ps := Some(normalized);
    }

    /** Debits and credits summed per asset, then compared. */
    method CheckBalance(ps: seq<Posting>) returns (ok: bool)
      ensures ok == Balanced(ps)
    {
      var debits: map<string, int>, credits: map<string, int> := map[], map[];
      for i := 0 to |ps|
        invariant debits.Keys == credits.Keys == set p | p in ps[..i] :: p.asset
        invariant forall a :: Sum(debits, a) == DebitSum(ps[..i], a) && Sum(credits, a) == CreditSum(ps[..i], a)
      {
        assert ps[..i + 1][..i] == ps[..i] && ps[..i + 1] == ps[..i] + [ps[i]];
        var p := ps[i];
        debits := debits[p.asset := Sum(debits, p.asset) + p.debit];
        credits := credits[p.asset := Sum(credits, p.asset) + p.credit];
      }
      assert ps[..|ps|] == ps;
      ok := forall a <- debits.Keys :: debits[a] == credits[a];
      assert forall a <- debits.Keys :: debits[a] == DebitSum(ps, a) && credits[a] == CreditSum(ps, a) by {
        assert forall a <- debits.Keys :: debits[a] == Sum(debits, a) && credits[a] == Sum(credits, a);
      }
    }

    method Check(req: Request) returns (ps: Option<seq<Posting>>, error: LedgerError)
      ensures (ps, error) == Checked(chart, req)
    {
      hide AdmitAll, Balanced, ByteLength, TrimSpace;
      error := InvalidRequest;
      if TrimSpace(req.key) == "" || ByteLength(TrimSpace(req.key)) > 128 {
        return None, error;
      }
      if TrimSpace(req.op) == "" || ByteLength(TrimSpace(req.op)) > 64 {
        return None, error;
      }
      if ByteLength(TrimSpace(req.bizRef)) > 128 || req.postings == [] {
        return None, error;
      }
      ps := Normalize(req.postings);
      if ps.None? {
        return;
      }
      var balanced := CheckBalance(ps.value);
      if !balanced {
        return None, error;
      }
      if exists p <- ps.value :: p.account !in chart.sides {
        return None, AccountNotFound;
      }
      if exists p <- ps.value :: (p.account, p.asset) !in chart.supported {
        return None, error;
      }
      if exists p <- ps.value :: SideOf(chart, p.account).NoSide? {
        return None, error;
      }
    }

    /** Net movement per row, rows in ascending order. */
    method Net(ps: seq<Posting>) returns (keys: seq<Key>, deltas: map<Key, int>)
      ensures keys == Sorted(KeyLess, DistinctKeys(ps))
      ensures forall k <- DistinctKeys(ps) :: k in deltas && deltas[k] == DeltaSum(chart, ps, k)
    {
      hide Delta, KeyLess;
      keys, deltas := [], map[];
      for i := 0 to |ps|
        invariant keys == DistinctKeys(ps[..i])
        invariant forall k :: k in deltas <==> k in keys
        invariant forall k :: (if k in deltas then deltas[k] else 0) == DeltaSum(chart, ps[..i], k)
      {
        assert ps[..i + 1][..i] == ps[..i];
        var k := KeyOf(ps[i]);
        if k in deltas {
          deltas := deltas[k := deltas[k] + Delta(chart, ps[i])];
        } else {
          deltas := deltas[k := Delta(chart, ps[i])];
          keys := keys + [k];
        }
      }
      assert ps[..|ps|] == ps;
      keys := Sorted(KeyLess, keys);
    }

    /** One database transaction; a failing row puts the balances back. */
    method Transact(tx: Tx) returns (outcome: Outcome)
      modifies this
      ensures (State(), outcome) == Commit(chart, old(State()), tx)
    {
      hide IntentOf, Find, ApplyDelta, WithRows, KeyLess, DeltaSum;
      var keys, deltas := Net(tx.postings);
      var found := Find(journal, tx.key);
      if found.Some? {
        if IntentOfTx(found.value) != IntentOfTx(tx) {
          return Refused(IdempotencyConflict);
        }
        return Posted(found.value.id, true);
      }
      if exists t <- journal :: t.id == tx.id {
        return Refused(DuplicateID);
      }
      var saved := balances;
      balances := WithRows(balances, keys);
      for i := 0 to |keys|
        invariant ApplyAll(chart, WithRows(saved, keys), keys[..i], tx.postings) == Done(balances)
        invariant journal == old(journal)
      {
        assert keys[..i + 1][..i] == keys[..i];
        assert keys[i] in DistinctKeys(tx.postings) by { SortedMembers(DistinctKeys(tx.postings), keys[i]); }
        var r := ApplyDelta(balances, keys[i], deltas[keys[i]]);
        if r.Failed? {
          FailureStays(chart, WithRows(saved, keys), keys, tx.postings, i + 1);
          balances := saved;
          return Refused(r.error);
        }
        balances := r.balances;
      }
      assert keys[..|keys|] == keys;
      journal := journal + [tx];
      outcome := Posted(tx.id, false);
    }

    method PostTx(req: Request, id: int) returns (outcome: Outcome)
      modifies this
      ensures (State(), outcome) == Post(chart, old(State()), req, id)
    {
      hide Checked, Commit;
      var ps, error := Check(req);
      if ps.None? {
        return Refused(error);
      }
      outcome := Transact(TxOf(req, id, ps.value));
    }
  }

  lemma {:induction false} InsertedMembers(x: Key, s: seq<Key>, k: Key)
    ensures k in Insert(KeyLess, x, s) <==> k == x || k in s
  {
    hide KeyLess;
    if s != [] {
      assert s == [s[0]] + s[1..];
      InsertedMembers(x, s[1..], k);
    }
  }

  lemma {:induction false} SortedMembers(s: seq<Key>, k: Key)
    ensures k in Sorted(KeyLess, s) <==> k in s
  {
    hide KeyLess;
    if s != [] {
      assert s == [s[0]] + s[1..];
      SortedMembers(s[1..], k);
      InsertedMembers(s[0], Sorted(KeyLess, s[1..]), k);
    }
  }
}
