/** The store under any interleaving of the core operations: a well-formedness
    invariant every operation keeps, and the stock accounting over a run. */
module Shop {
  import opened Records
  import Directory
  import Sessions
  import Sales
  import Reporting

  /** Which pick check the sale engine applies: the program's per-pick check,
      or the cumulative one that cannot oversell. */
  datatype Engine = AsWritten | Cumulative

  /** One call into the core, with the caller's `caixa_id` and clock reading as
      explicit arguments. Any ids are allowed, not only the ones the menu passes. */
  datatype Op =
    | Register(name: string, cpf: string, password: string)
    | Open(employeeId: int, now: Timestamp)
    | Close(sessionId: Option<int>, now: Timestamp)
    | Sell(sessionId: Option<int>, employeeId: int, picks: seq<Sales.PickRequest>, now: Timestamp)

  function Apply(s: Store, op: Op, engine: Engine): Store
  {
    match op
    case Register(name, cpf, password) => Directory.Register(s, name, cpf, password).store
    case Open(eid, now) => Sessions.OpenSession(s, eid, now).store
    case Close(sid, now) => Sessions.CloseSession(s, sid, now).store
    case Sell(sid, eid, picks, now) =>
      if engine == AsWritten then Sales.Sell(s, sid, eid, picks, now).store
      else Sales.SellCumulative(s, sid, eid, picks, now).store
  }

  function Run(s: Store, ops: seq<Op>, engine: Engine): Store
    decreases |ops|
  {
    if |ops| == 0 then s else Run(Apply(s, ops[0], engine), ops[1..], engine)
  }

  /** Every line item belongs to an existing sale and an existing product. */
  ghost predicate ItemsReferToRows(s: Store)
  {
    forall k :: 0 <= k < |s.items| ==> HasId(s.sales, s.items[k].saleId) && HasId(s.products, s.items[k].productId)
  }

  /** Every sale's gross is the sum over its own line items, and splits into net and tax. */
  ghost predicate SalesMatchItems(s: Store)
  {
    && (forall v :: 1 <= v <= |s.sales| ==> Sales.ItemGross(s.items, v) == s.sales[v - 1].gross)
    && (forall k :: 0 <= k < |s.sales| ==> TotalsConsistent(s.sales[k].gross, s.sales[k].net, s.sales[k].tax))
  }

  /** The store invariant. */
  ghost predicate Valid(s: Store)
  {
    && Directory.CpfUnique(s.employees)
    && Sessions.AtMostOneOpen(s.sessions)
    && ItemsReferToRows(s)
    && SalesMatchItems(s)
  }

  ghost predicate NonNegativeStock(products: seq<Product>)
  {
    forall i :: 0 <= i < |products| ==> products[i].stock >= 0
  }

  lemma EmptyStoreValid()
    ensures Valid(Store([], [], [], [], []))
  {
  }

  lemma SplitAt<T>(a: seq<T>, n: nat)
    requires n <= |a|
    ensures a == a[..n] + a[n..]
  {
  }

  /** A committed sale keeps the invariant: the new line items point at the new
      sale and at catalog products, old sales keep their line-item sums, and the
      new sale's gross is the sum over its own line items. */
  lemma CommitPreservesValid(s: Store, sessionId: int, employeeId: int, items: seq<Sales.Item>, now: Timestamp)
    requires Valid(s)
    requires Sales.InCatalog(s.products, items)
    ensures Valid(Sales.Commit(s, sessionId, employeeId, items, now).store)
  {
    var r := Sales.Commit(s, sessionId, employeeId, items, now).store;
    if |items| > 0 {
      var saleId := |s.sales| + 1;
      var added := r.items[|s.items|..];
      SplitAt(r.items, |s.items|);
      forall k | 0 <= k < |r.items|
        ensures HasId(r.sales, r.items[k].saleId) && HasId(r.products, r.items[k].productId)
      {
        if k >= |s.items| {
          assert r.items[k] == added[k - |s.items|];
        } else {
          assert r.items[k] == s.items[k];
        }
      }
      assert forall k :: 0 <= k < |added| ==> added[k].saleId == saleId;
      forall v | 1 <= v <= |r.sales|
        ensures Sales.ItemGross(r.items, v) == r.sales[v - 1].gross
      {
        Sales.ItemGrossAppend(s.items, added, v);
        if v == saleId {
          assert forall k :: 0 <= k < |s.items| ==> s.items[k].saleId != v;
          Sales.ItemGrossOther(s.items, v);
        } else {
          Sales.ItemGrossOther(added, v);
          assert r.sales[v - 1] == s.sales[v - 1];
        }
      }
      forall k | 0 <= k < |r.sales|
        ensures TotalsConsistent(r.sales[k].gross, r.sales[k].net, r.sales[k].tax)
      {
        if k < |s.sales| {
          assert r.sales[k] == r.sales[..|s.sales|][k];
        }
      }
    }
  }

  lemma ApplyPreservesValid(s: Store, op: Op, engine: Engine)
    requires Valid(s)
    ensures Valid(Apply(s, op, engine))
  {
    match op
    case Register(name, cpf, password) =>
    case Open(eid, now) =>
    case Close(sid, now) =>
    case Sell(sid, eid, picks, now) =>
      SellPreservesValid(s, sid, eid, picks, now, engine);
  }

  lemma ApplySell(s: Store, sid: Option<int>, eid: int, picks: seq<Sales.PickRequest>, now: Timestamp, engine: Engine)
    ensures Apply(s, Sell(sid, eid, picks, now), engine)
         == if engine == AsWritten then Sales.Sell(s, sid, eid, picks, now).store else Sales.SellCumulative(s, sid, eid, picks, now).store
  {
  }

  /** A sale, with either pick check, keeps the invariant. */
  lemma SellPreservesValid(s: Store, sid: Option<int>, eid: int, picks: seq<Sales.PickRequest>, now: Timestamp, engine: Engine)
    requires Valid(s)
    ensures Valid(Apply(s, Sell(sid, eid, picks, now), engine))
  {
    var a := Apply(s, Sell(sid, eid, picks, now), engine);
    ApplySell(s, sid, eid, picks, now, engine);
    if sid.None? {
      assert a == s;
    } else if engine == AsWritten {
      assert sid == Some(sid.value);
      Sales.SellCommits(s, sid.value, eid, picks, now);
      CommitPreservesValid(s, sid.value, eid, Sales.AcceptPicks(s.products, picks), now);
    } else {
      assert sid == Some(sid.value);
      Sales.SellCumulativeCommits(s, sid.value, eid, picks, now);
      CommitPreservesValid(s, sid.value, eid, Sales.AcceptPicksCumulative(s.products, picks), now);
    }
  }

  /** For every sequence of operations, and so in particular of opens and
      closes, the invariant holds at every observation point; at most one
      session is ever open. */
  lemma {:induction false} RunPreservesValid(s: Store, ops: seq<Op>, engine: Engine)
    requires Valid(s)
    ensures Valid(Run(s, ops, engine))
    ensures Sessions.AtMostOneOpen(Run(s, ops, engine).sessions)
    decreases |ops|
  {
    if |ops| > 0 {
      ApplyPreservesValid(s, ops[0], engine);
      RunPreservesValid(Apply(s, ops[0], engine), ops[1..], engine);
    }
  }

  /** Stock plus quantity sold is the same, product by product, in `a` and `b`. */
  ghost predicate SameBalance(a: Store, b: Store)
  {
    && |a.products| == |b.products|
    && forall i :: 0 <= i < |a.products| ==>
         a.products[i].stock + Sales.SoldQty(a.items, i + 1) == b.products[i].stock + Sales.SoldQty(b.items, i + 1)
  }

  /** A commit lowers each stock by what its new line items sell. */
  lemma CommitStockAccounting(s: Store, sessionId: int, employeeId: int, items: seq<Sales.Item>, now: Timestamp)
    requires Sales.InCatalog(s.products, items)
    ensures SameBalance(Sales.Commit(s, sessionId, employeeId, items, now).store, s)
  {
    var r := Sales.Commit(s, sessionId, employeeId, items, now).store;
    if |items| > 0 {
      SplitAt(r.items, |s.items|);
      BalanceAfterAppend(s, r, r.items[|s.items|..]);
    }
  }

  /** Appending line items and lowering each stock by what they sell keeps the balance. */
  lemma BalanceAfterAppend(before: Store, after: Store, added: seq<SaleItem>)
    requires |after.products| == |before.products|
    requires after.items == before.items + added
    requires forall i :: 0 <= i < |before.products| ==>
      after.products[i].stock == before.products[i].stock - Sales.SoldQty(added, i + 1)
    ensures SameBalance(after, before)
  {
    forall i | 0 <= i < |before.products|
      ensures after.products[i].stock + Sales.SoldQty(after.items, i + 1) == before.products[i].stock + Sales.SoldQty(before.items, i + 1)
    {
      Sales.SoldQtyAppend(before.items, added, i + 1);
    }
  }

  /** One operation keeps, for every product, stock plus quantity sold constant. */
  lemma ApplyStockAccounting(s: Store, op: Op, engine: Engine)
    ensures SameBalance(Apply(s, op, engine), s)
  {
    match op
    case Register(name, cpf, password) =>
    case Open(eid, now) =>
    case Close(sid, now) =>
    case Sell(sid, eid, picks, now) =>
      SellStockAccounting(s, sid, eid, picks, now, engine);
  }

  /** A sale, with either pick check, keeps stock plus quantity sold constant. */
  lemma SellStockAccounting(s: Store, sid: Option<int>, eid: int, picks: seq<Sales.PickRequest>, now: Timestamp, engine: Engine)
    ensures SameBalance(Apply(s, Sell(sid, eid, picks, now), engine), s)
  {
    var a := Apply(s, Sell(sid, eid, picks, now), engine);
    ApplySell(s, sid, eid, picks, now, engine);
    if sid.None? {
      assert a == s;
    } else if engine == AsWritten {
      assert sid == Some(sid.value);
      Sales.SellCommits(s, sid.value, eid, picks, now);
      CommitStockAccounting(s, sid.value, eid, Sales.AcceptPicks(s.products, picks), now);
    } else {
      assert sid == Some(sid.value);
      Sales.SellCumulativeCommits(s, sid.value, eid, picks, now);
      CommitStockAccounting(s, sid.value, eid, Sales.AcceptPicksCumulative(s.products, picks), now);
    }
  }

  /** Stock accounting over a run: after any sequence of operations, each
      product's stock is its initial stock minus the quantity that the line
      items added during the run sold of it. */
  lemma {:induction false} RunStockAccounting(s: Store, ops: seq<Op>, engine: Engine)
    ensures SameBalance(Run(s, ops, engine), s)
    decreases |ops|
  {
    if |ops| > 0 {
      var s' := Apply(s, ops[0], engine);
      ApplyStockAccounting(s, ops[0], engine);
      RunStockAccounting(s', ops[1..], engine);
      assert Run(s, ops, engine) == Run(s', ops[1..], engine);
    }
  }

  /** With the cumulative check, no run drives a stock below zero. */
  lemma {:induction false} RunCumulativeKeepsStockNonNegative(s: Store, ops: seq<Op>)
    requires NonNegativeStock(s.products)
    ensures NonNegativeStock(Run(s, ops, Cumulative).products)
    decreases |ops|
  {
    if |ops| > 0 {
      var s' := Apply(s, ops[0], Cumulative);
      assert NonNegativeStock(s'.products);
      RunCumulativeKeepsStockNonNegative(s', ops[1..]);
    }
  }

  /** In a valid store every report's totals split as gross = net + tax with
      net = gross / (1 + TaxRate), including the empty report. */
  lemma ReportTotalsConsistent(s: Store, sid: int)
    requires Valid(s)
    requires HasId(s.sessions, sid)
    ensures var r := Reporting.SessionReport(s, sid).value; TotalsConsistent(r.gross, r.net, r.tax)
  {
    Reporting.SumInConsistent(s.sales, sid);
  }
}
