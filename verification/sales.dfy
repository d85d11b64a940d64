/** Sale transaction engine: `realizar_vendas` from the pick list onward —
    pick validation, the three totals, and the single commit that inserts
    the sale, its line items and the stock decrements. */
module Sales {
  import opened Records

  /** A (product id, quantity) pair the operator asked for. */
  datatype PickRequest = PickRequest(productId: int, quantity: int)

  /** An accepted pick: `(pid, qtd, preco_unit)` with the catalog price read at pick time. */
  datatype Item = Item(productId: int, quantity: int, unitPrice: real)

  datatype SaleOutcome =
    | NoOpenSession          // `caixa_id` was None
    | Cancelled              // no pick was accepted: "nenhum item"
    | Recorded(saleId: int)  // the id of the new `vendas` row

  /** The pick-time check: the product exists and 0 < quantity <= the stock read
      for it now. Each pick is checked on its own, against the unchanged store. */
  predicate Acceptable(products: seq<Product>, p: PickRequest)
  {
    HasId(products, p.productId) && 0 < p.quantity <= products[p.productId - 1].stock
  }

  /** The accepted item for `p`, carrying the unit price as it is in the catalog. */
  function Snapshot(products: seq<Product>, p: PickRequest): Item
    requires HasId(products, p.productId)
  {
    Item(p.productId, p.quantity, products[p.productId - 1].price)
  }

  predicate InCatalog(products: seq<Product>, items: seq<Item>)
  {
    forall k :: 0 <= k < |items| ==> HasId(products, items[k].productId)
  }

  /** An item as the pick loop keeps it: a catalog product, a quantity in
      `1..stock`, and the catalog price. */
  predicate Picked(products: seq<Product>, x: Item)
  {
    && HasId(products, x.productId)
    && 0 < x.quantity <= products[x.productId - 1].stock
    && x.unitPrice == products[x.productId - 1].price
  }

  /** What one request adds to the kept items: its snapshot if it passes the
      check, nothing otherwise. */
  function Kept(products: seq<Product>, p: PickRequest): seq<Item>
  {
    if Acceptable(products, p) then [Snapshot(products, p)] else []
  }

  /** The pick loop: requests naming no product or failing the quantity check
      are dropped (the loop's `continue`); the others are kept, once each and
      in order (`itens.append`). The count and the per-product quantities of
      the kept items are those of the requests that pass the check. */
  function AcceptPicks(products: seq<Product>, requests: seq<PickRequest>): (r: seq<Item>)
    ensures |r| == AcceptedCount(products, requests) <= |requests|
    ensures forall k :: 0 <= k < |r| ==> Picked(products, r[k])
    ensures |r| == 0 <==> forall k :: 0 <= k < |requests| ==> !Acceptable(products, requests[k])
    ensures forall pid :: QtyOf(r, pid) == AcceptedQty(products, requests, pid)
  {
    if |requests| == 0 then []
    else
      var p := requests[|requests| - 1];
      var prefix := requests[..|requests| - 1];
      assert requests == prefix + [p];
      var prev := AcceptPicks(products, prefix);
      KeptStep(products, prefix, p, prev);
      KeptQtyStep(products, prefix, p, prev);
      prev + Kept(products, p)
  }

  /** One more request: the kept items stay valid, and their count and
      emptiness follow the requests that pass the check. */
  lemma KeptStep(products: seq<Product>, prefix: seq<PickRequest>, p: PickRequest, prev: seq<Item>)
    requires |prev| == AcceptedCount(products, prefix) <= |prefix|
    requires forall k :: 0 <= k < |prev| ==> Picked(products, prev[k])
    requires |prev| == 0 <==> forall k :: 0 <= k < |prefix| ==> !Acceptable(products, prefix[k])
    ensures var r := prev + Kept(products, p); var requests := prefix + [p];
      && |r| == AcceptedCount(products, requests) <= |requests|
      && (forall k :: 0 <= k < |r| ==> Picked(products, r[k]))
      && (|r| == 0 <==> forall k :: 0 <= k < |requests| ==> !Acceptable(products, requests[k]))
  {
    var requests := prefix + [p];
    assert requests[..|prefix|] == prefix;
    var r := prev + Kept(products, p);
    forall k | 0 <= k < |r|
      ensures Picked(products, r[k])
    {
      if k < |prev| {
        assert r[k] == prev[k];
      }
    }
    if |r| == 0 {
      forall k | 0 <= k < |requests|
        ensures !Acceptable(products, requests[k])
      {
        if k < |prefix| {
          assert requests[k] == prefix[k];
        }
      }
    } else if |prev| == 0 {
      assert Acceptable(products, requests[|prefix|]);
    } else {
      var k :| 0 <= k < |prefix| && Acceptable(products, prefix[k]);
      assert requests[k] == prefix[k];
    }
  }

  /** One more request: the kept quantities follow the requests that pass the check. */
  lemma KeptQtyStep(products: seq<Product>, prefix: seq<PickRequest>, p: PickRequest, prev: seq<Item>)
    requires forall pid :: QtyOf(prev, pid) == AcceptedQty(products, prefix, pid)
    ensures forall pid :: QtyOf(prev + Kept(products, p), pid) == AcceptedQty(products, prefix + [p], pid)
  {
    var requests := prefix + [p];
    assert requests[..|prefix|] == prefix;
    if Acceptable(products, p) {
      QtyOfSnoc(prev, Snapshot(products, p));
    } else {
      assert prev + Kept(products, p) == prev;
    }
  }

  /** The gross of the kept items is quantity times catalog price summed over
      the requests that pass the check. */
  lemma {:induction false} AcceptPicksGross(products: seq<Product>, requests: seq<PickRequest>)
    ensures Gross(AcceptPicks(products, requests)) == AcceptedGross(products, requests)
  {
    if |requests| > 0 {
      var p := requests[|requests| - 1];
      var prefix := requests[..|requests| - 1];
      assert requests == prefix + [p];
      AcceptPicksGross(products, prefix);
      KeptGrossStep(products, prefix, p, AcceptPicks(products, prefix));
    }
  }

  /** One more request: the kept gross follows the requests that pass the check. */
  lemma KeptGrossStep(products: seq<Product>, prefix: seq<PickRequest>, p: PickRequest, prev: seq<Item>)
    requires Gross(prev) == AcceptedGross(products, prefix)
    ensures Gross(prev + Kept(products, p)) == AcceptedGross(products, prefix + [p])
  {
    var requests := prefix + [p];
    assert requests[..|prefix|] == prefix;
    if Acceptable(products, p) {
      GrossSnoc(prev, products, p);
    } else {
      assert prev + Kept(products, p) == prev;
    }
  }

  /** Independent reference: the number of requests that pass the pick-time check. */
  function AcceptedCount(products: seq<Product>, requests: seq<PickRequest>): nat
  {
    if |requests| == 0 then 0
    else AcceptedCount(products, requests[..|requests| - 1]) + (if Acceptable(products, requests[|requests| - 1]) then 1 else 0)
  }

  /** Independent reference: quantity times catalog price, summed over the
      requests that pass the pick-time check. */
  function AcceptedGross(products: seq<Product>, requests: seq<PickRequest>): real
  {
    if |requests| == 0 then 0.0
    else
      var p := requests[|requests| - 1];
      AcceptedGross(products, requests[..|requests| - 1])
        + (if Acceptable(products, p) then Amount(p.quantity, products[p.productId - 1].price) else 0.0)
  }

  /** Independent reference: the total quantity of product `pid` over the
      requests that pass the pick-time check. */
  function AcceptedQty(products: seq<Product>, requests: seq<PickRequest>, pid: int): (q: int)
    ensures (forall k :: 0 <= k < |requests| ==> requests[k].productId != pid || !Acceptable(products, requests[k])) ==> q == 0
  {
    if |requests| == 0 then 0
    else
      var p := requests[|requests| - 1];
      var prefix := requests[..|requests| - 1];
      assert forall k :: 0 <= k < |prefix| ==> prefix[k] == requests[k];
      AcceptedQty(products, prefix, pid) + (if p.productId == pid && Acceptable(products, p) then p.quantity else 0)
  }

  /** Total quantity of product `pid` among `items`. */
  function QtyOf(items: seq<Item>, pid: int): int
  {
    if |items| == 0 then 0
    else QtyOf(items[..|items| - 1], pid) + (if items[|items| - 1].productId == pid then items[|items| - 1].quantity else 0)
  }

  /** `qtd * preco`: what one line of a sale amounts to. */
  function Amount(quantity: int, unitPrice: real): real
  {
    quantity as real * unitPrice
  }

  /** `total_bruto`: the sum of quantity times unit price over the items. */
  function Gross(items: seq<Item>): real
  {
    if |items| == 0 then 0.0
    else Gross(items[..|items| - 1]) + Amount(items[|items| - 1].quantity, items[|items| - 1].unitPrice)
  }

  /** Appending the snapshot of `p` adds its quantity times the catalog price. */
  lemma GrossSnoc(items: seq<Item>, products: seq<Product>, p: PickRequest)
    requires HasId(products, p.productId)
    ensures Gross(items + [Snapshot(products, p)]) == Gross(items) + Amount(p.quantity, products[p.productId - 1].price)
  {
    var x := Snapshot(products, p);
    assert (items + [x])[..|items|] == items;
    assert Amount(x.quantity, x.unitPrice) == Amount(p.quantity, products[p.productId - 1].price);
  }

  /** `total_sem_imposto` and `total_imposto` for a tax-inclusive gross. */
  function SaleTotals(gross: real): (t: Totals)
    ensures t.gross == gross
    ensures TotalsConsistent(t.gross, t.net, t.tax)
  {
    var net := gross / (1.0 + TaxRate);
    Totals(gross, net, gross - net)
  }

  /** The tax backed out of a tax-inclusive gross is the rate's share of it. */
  lemma TaxShare(gross: real)
    ensures SaleTotals(gross).tax == gross * TaxRate / (1.0 + TaxRate)
  {
  }

  /** The `vendas_itens` rows for the items of sale `saleId`, one per item, in order. */
  function LineItems(saleId: int, items: seq<Item>): (r: seq<SaleItem>)
    ensures |r| == |items|
    ensures forall k :: 0 <= k < |items| ==>
      r[k] == SaleItem(saleId, items[k].productId, items[k].quantity, items[k].unitPrice)
  {
    if |items| == 0 then []
    else
      var it := items[|items| - 1];
      LineItems(saleId, items[..|items| - 1]) + [SaleItem(saleId, it.productId, it.quantity, it.unitPrice)]
  }

  /** `UPDATE produtos SET estoque = estoque - ?` for each item in turn: every
      product loses exactly the quantity picked of it; names and prices stay. */
  function Decrement(products: seq<Product>, items: seq<Item>): (r: seq<Product>)
    requires InCatalog(products, items)
    ensures |r| == |products|
    ensures forall i :: 0 <= i < |products| ==>
      r[i] == products[i].(stock := products[i].stock - QtyOf(items, i + 1))
  {
    if |items| == 0 then products
    else
      var it := items[|items| - 1];
      var p := Decrement(products, items[..|items| - 1]);
      p[it.productId - 1 := p[it.productId - 1].(stock := p[it.productId - 1].stock - it.quantity)]
  }

  /** Sum of quantity times unit price over the line items of sale `saleId`. */
  function ItemGross(lines: seq<SaleItem>, saleId: int): real
  {
    if |lines| == 0 then 0.0
    else
      var l := lines[|lines| - 1];
      ItemGross(lines[..|lines| - 1], saleId) + (if l.saleId == saleId then Amount(l.quantity, l.unitPrice) else 0.0)
  }

  /** Total quantity of product `pid` over all line items. */
  function SoldQty(lines: seq<SaleItem>, pid: int): int
  {
    if |lines| == 0 then 0
    else
      var l := lines[|lines| - 1];
      SoldQty(lines[..|lines| - 1], pid) + (if l.productId == pid then l.quantity else 0)
  }

  /** The part of `realizar_vendas` after the pick loop, up to and including
      the one `commit`: with no item nothing is written; otherwise the sale row,
      one line item per item and all stock decrements land together. */
  function Commit(s: Store, sessionId: int, employeeId: int, items: seq<Item>, now: Timestamp): (r: Step<SaleOutcome>)
    requires InCatalog(s.products, items)
    ensures |items| == 0 ==> r == Step(s, Cancelled)
    ensures |items| > 0 ==> Committed(s, sessionId, employeeId, items, now, r)
  {
    if |items| == 0 then Step(s, Cancelled)
    else
      var saleId := |s.sales| + 1;
      var t := SaleTotals(Gross(items));
      var lines := LineItems(saleId, items);
      var s' := s.(sales := s.sales + [Sale(sessionId, employeeId, t.gross, t.net, t.tax, now)],
                   items := s.items + lines,
                   products := Decrement(s.products, items));
      assert s'.items[|s.items|..] == lines;
      LineItemsGross(saleId, items);
      LineItemsSold(saleId, items);
      Step(s', Recorded(saleId))
  }

  /** What a successful commit of `items` did to `s`. */
  ghost predicate Committed(s: Store, sessionId: int, employeeId: int, items: seq<Item>, now: Timestamp, r: Step<SaleOutcome>)
    requires InCatalog(s.products, items)
  {
    var saleId := |s.sales| + 1;
    && r.out == Recorded(saleId)
    && r.store.employees == s.employees
    && r.store.sessions == s.sessions
    && |r.store.sales| == |s.sales| + 1
    && r.store.sales[..|s.sales|] == s.sales
    && |r.store.items| == |s.items| + |items|
    && r.store.items[..|s.items|] == s.items
    && |r.store.products| == |s.products|
    && (var added := r.store.items[|s.items|..];
        var v := r.store.sales[|s.sales|];
        // one new sale, for this session and employee, whose gross is the sum over its own line items
        && v.sessionId == sessionId
        && v.employeeId == employeeId
        && v.soldAt == now
        && v.gross == ItemGross(added, saleId) == Gross(items)
        && TotalsConsistent(v.gross, v.net, v.tax)
        // one line item per item, in order, with the price snapshot
        && added == LineItems(saleId, items)
        // stock falls by exactly what the new line items sold
        && (forall i :: 0 <= i < |s.products| ==>
              r.store.products[i] == s.products[i].(stock := s.products[i].stock - SoldQty(added, i + 1))))
  }

  /** `realizar_vendas` as written. `sessionId` is the caller's `caixa_id`; it is
      only compared with None, not looked up. Stock is lowered for each product by
      exactly the quantity accepted for it, and no other product changes. */
  function Sell(s: Store, sessionId: Option<int>, employeeId: int, requests: seq<PickRequest>, now: Timestamp): (r: Step<SaleOutcome>)
    ensures sessionId.None? ==> r == Step(s, NoOpenSession)
    ensures sessionId.Some? && (forall k :: 0 <= k < |requests| ==> !Acceptable(s.products, requests[k])) ==>
      r == Step(s, Cancelled)
    ensures r.out.Recorded? <==> sessionId.Some? && exists k :: 0 <= k < |requests| && Acceptable(s.products, requests[k])
    ensures r.store.employees == s.employees && r.store.sessions == s.sessions
    ensures |r.store.products| == |s.products|
    ensures |s.items| <= |r.store.items| && r.store.items[..|s.items|] == s.items
    ensures sessionId.Some? ==> forall i :: 0 <= i < |s.products| ==>
      r.store.products[i] == s.products[i].(stock := s.products[i].stock - AcceptedQty(s.products, requests, i + 1))
    ensures r.out.Recorded? ==>
      && r.out.saleId == |s.sales| + 1
      && |r.store.sales| == |s.sales| + 1
      && r.store.sales[..|s.sales|] == s.sales
      && r.store.sales[|s.sales|].sessionId == sessionId.value
      && r.store.sales[|s.sales|].employeeId == employeeId
      && r.store.sales[|s.sales|].soldAt == now
      && r.store.sales[|s.sales|].gross == AcceptedGross(s.products, requests)
      && r.store.sales[|s.sales|].gross == ItemGross(r.store.items[|s.items|..], r.out.saleId)
      && TotalsConsistent(r.store.sales[|s.sales|].gross, r.store.sales[|s.sales|].net, r.store.sales[|s.sales|].tax)
      && r.store.items[|s.items|..] == LineItems(r.out.saleId, AcceptPicks(s.products, requests))
  {
    match sessionId
    case None => Step(s, NoOpenSession)
    case Some(id) =>
      AcceptedCommitStock(s, id, employeeId, requests, now);
      AcceptedCommitSale(s, id, employeeId, requests, now);
      Commit(s, id, employeeId, AcceptPicks(s.products, requests), now)
  }

  /** Committing the accepted picks leaves everything but stock and the two sale
      tables alone, and lowers each stock by its accepted quantity. */
  lemma AcceptedCommitStock(s: Store, sessionId: int, employeeId: int, requests: seq<PickRequest>, now: Timestamp)
    ensures var r := Commit(s, sessionId, employeeId, AcceptPicks(s.products, requests), now);
      && r.store.employees == s.employees && r.store.sessions == s.sessions
      && |r.store.products| == |s.products|
      && |s.items| <= |r.store.items| && r.store.items[..|s.items|] == s.items
      && forall i :: 0 <= i < |s.products| ==>
           r.store.products[i] == s.products[i].(stock := s.products[i].stock - AcceptedQty(s.products, requests, i + 1))
  {
    var items := AcceptPicks(s.products, requests);
    CommitDecrements(s, sessionId, employeeId, items, now);
    var r := Commit(s, sessionId, employeeId, items, now);
    forall i | 0 <= i < |s.products|
      ensures r.store.products[i] == s.products[i].(stock := s.products[i].stock - AcceptedQty(s.products, requests, i + 1))
    {
      assert QtyOf(items, i + 1) == AcceptedQty(s.products, requests, i + 1);
    }
  }

  /** A commit touches only stock and the two sale tables, and lowers each
      product's stock by that product's quantity among the items. */
  lemma CommitDecrements(s: Store, sessionId: int, employeeId: int, items: seq<Item>, now: Timestamp)
    requires InCatalog(s.products, items)
    ensures var r := Commit(s, sessionId, employeeId, items, now);
      && r.store.employees == s.employees && r.store.sessions == s.sessions
      && |r.store.products| == |s.products|
      && |s.items| <= |r.store.items| && r.store.items[..|s.items|] == s.items
      && forall i :: 0 <= i < |s.products| ==>
           r.store.products[i] == s.products[i].(stock := s.products[i].stock - QtyOf(items, i + 1))
  {
    if |items| > 0 {
      LineItemsSold(|s.sales| + 1, items);
    }
  }

  /** Committing the accepted picks records a sale exactly when some request
      passes, and that sale is priced from the catalog. */
  lemma AcceptedCommitSale(s: Store, sessionId: int, employeeId: int, requests: seq<PickRequest>, now: Timestamp)
    ensures var r := Commit(s, sessionId, employeeId, AcceptPicks(s.products, requests), now);
      && ((forall k :: 0 <= k < |requests| ==> !Acceptable(s.products, requests[k])) ==> r == Step(s, Cancelled))
      && (r.out.Recorded? <==> exists k :: 0 <= k < |requests| && Acceptable(s.products, requests[k]))
      && (r.out.Recorded? ==>
            && r.out.saleId == |s.sales| + 1
            && |r.store.sales| == |s.sales| + 1
            && r.store.sales[..|s.sales|] == s.sales
            && r.store.sales[|s.sales|].sessionId == sessionId
            && r.store.sales[|s.sales|].employeeId == employeeId
            && r.store.sales[|s.sales|].soldAt == now
            && r.store.sales[|s.sales|].gross == AcceptedGross(s.products, requests)
            && r.store.sales[|s.sales|].gross == ItemGross(r.store.items[|s.items|..], r.out.saleId)
            && TotalsConsistent(r.store.sales[|s.sales|].gross, r.store.sales[|s.sales|].net, r.store.sales[|s.sales|].tax)
            && r.store.items[|s.items|..] == LineItems(r.out.saleId, AcceptPicks(s.products, requests)))
  {
    AcceptPicksGross(s.products, requests);
  }

  /** With a session, the program's sale is the commit of the picks it keeps. */
  lemma SellCommits(s: Store, sessionId: int, employeeId: int, requests: seq<PickRequest>, now: Timestamp)
    ensures Sell(s, Some(sessionId), employeeId, requests, now) == Commit(s, sessionId, employeeId, AcceptPicks(s.products, requests), now)
  {
  }

  /** The pick loop treats each request on its own: the items kept from two
      request lists in a row are those kept from the first followed by those
      kept from the second. */
  lemma {:induction false} AcceptPicksAppend(products: seq<Product>, a: seq<PickRequest>, b: seq<PickRequest>)
    ensures AcceptPicks(products, a + b) == AcceptPicks(products, a) + AcceptPicks(products, b)
  {
    if |b| == 0 {
      assert a + b == a;
    } else {
      var b' := b[..|b| - 1];
      assert (a + b)[..|a + b| - 1] == a + b';
      assert (a + b)[|a + b| - 1] == b[|b| - 1];
      AcceptPicksAppend(products, a, b');
    }
  }

  /** A single request is kept, with its snapshot price, exactly when it passes the check. */
  lemma AcceptPicksSingle(products: seq<Product>, p: PickRequest)
    ensures AcceptPicks(products, [p]) == if Acceptable(products, p) then [Snapshot(products, p)] else []
  {
    assert [p][..0] == [];
  }

  lemma QtyOfSnoc(items: seq<Item>, x: Item)
    ensures forall pid :: QtyOf(items + [x], pid) == QtyOf(items, pid) + (if x.productId == pid then x.quantity else 0)
  {
    assert (items + [x])[..|items|] == items;
  }

  lemma {:induction false} QtyOfAppend(a: seq<Item>, b: seq<Item>, pid: int)
    ensures QtyOf(a + b, pid) == QtyOf(a, pid) + QtyOf(b, pid)
  {
    if |b| == 0 {
      assert a + b == a;
    } else {
      QtyOfAppend(a, b[..|b| - 1], pid);
      assert (a + b)[..|a + b| - 1] == a + b[..|b| - 1];
    }
  }

  lemma {:induction false} ItemGrossAppend(a: seq<SaleItem>, b: seq<SaleItem>, saleId: int)
    ensures ItemGross(a + b, saleId) == ItemGross(a, saleId) + ItemGross(b, saleId)
  {
    if |b| == 0 {
      assert a + b == a;
    } else {
      ItemGrossAppend(a, b[..|b| - 1], saleId);
      assert (a + b)[..|a + b| - 1] == a + b[..|b| - 1];
    }
  }

  lemma {:induction false} SoldQtyAppend(a: seq<SaleItem>, b: seq<SaleItem>, pid: int)
    ensures SoldQty(a + b, pid) == SoldQty(a, pid) + SoldQty(b, pid)
  {
    if |b| == 0 {
      assert a + b == a;
    } else {
      SoldQtyAppend(a, b[..|b| - 1], pid);
      assert (a + b)[..|a + b| - 1] == a + b[..|b| - 1];
    }
  }

  /** Line items of other sales contribute nothing to a sale's gross. */
  lemma {:induction false} ItemGrossOther(lines: seq<SaleItem>, saleId: int)
    requires forall k :: 0 <= k < |lines| ==> lines[k].saleId != saleId
    ensures ItemGross(lines, saleId) == 0.0
  {
    if |lines| > 0 {
      var prefix := lines[..|lines| - 1];
      assert forall k :: 0 <= k < |prefix| ==> prefix[k] == lines[k];
      ItemGrossOther(prefix, saleId);
    }
  }

  lemma ItemGrossSnoc(front: seq<SaleItem>, l: SaleItem, saleId: int)
    ensures ItemGross(front + [l], saleId) == ItemGross(front, saleId) + (if l.saleId == saleId then Amount(l.quantity, l.unitPrice) else 0.0)
  {
    assert (front + [l])[..|front|] == front;
  }

  lemma SoldQtySnoc(front: seq<SaleItem>, l: SaleItem, pid: int)
    ensures SoldQty(front + [l], pid) == SoldQty(front, pid) + (if l.productId == pid then l.quantity else 0)
  {
    assert (front + [l])[..|front|] == front;
  }

  /** The persisted line items of a sale add up to the gross computed from its items. */
  lemma {:induction false} LineItemsGross(saleId: int, items: seq<Item>)
    ensures ItemGross(LineItems(saleId, items), saleId) == Gross(items)
  {
    if |items| > 0 {
      var prefix := items[..|items| - 1];
      var it := items[|items| - 1];
      var l := SaleItem(saleId, it.productId, it.quantity, it.unitPrice);
      assert LineItems(saleId, items) == LineItems(saleId, prefix) + [l];
      ItemGrossSnoc(LineItems(saleId, prefix), l, saleId);
      LineItemsGross(saleId, prefix);
    }
  }

  /** The persisted line items sell exactly the picked quantities. */
  lemma {:induction false} LineItemsSold(saleId: int, items: seq<Item>)
    ensures forall pid :: SoldQty(LineItems(saleId, items), pid) == QtyOf(items, pid)
  {
    if |items| > 0 {
      var prefix := items[..|items| - 1];
      var it := items[|items| - 1];
      var l := SaleItem(saleId, it.productId, it.quantity, it.unitPrice);
      assert LineItems(saleId, items) == LineItems(saleId, prefix) + [l];
      LineItemsSold(saleId, prefix);
      forall pid ensures SoldQty(LineItems(saleId, items), pid) == QtyOf(items, pid) {
        SoldQtySnoc(LineItems(saleId, prefix), l, pid);
      }
    }
  }

  /** As written, stock stays non-negative when, for every product, the total
      quantity accepted across the picks is within its stock. */
  lemma SellStockNonNegativeWhenCumulativeFits(s: Store, sessionId: Option<int>, employeeId: int, requests: seq<PickRequest>, now: Timestamp)
    requires forall i :: 0 <= i < |s.products| ==>
      0 <= s.products[i].stock && AcceptedQty(s.products, requests, i + 1) <= s.products[i].stock
    ensures forall i :: 0 <= i < |s.products| ==> Sell(s, sessionId, employeeId, requests, now).store.products[i].stock >= 0
  {
  }

  /** A sale of one acceptable pick writes one sale whose gross is quantity
      times the catalog price, one line item with that price, and lowers that
      product's stock by the quantity. */
  lemma SinglePickSale(s: Store, sessionId: int, employeeId: int, pid: int, q: int, now: Timestamp)
    requires HasId(s.products, pid)
    requires 0 < q <= s.products[pid - 1].stock
    ensures Sell(s, Some(sessionId), employeeId, [PickRequest(pid, q)], now) == SingleItemSale(s, sessionId, employeeId, pid, q, s.products[pid - 1].price, now)
  {
    SellSinglePick(s, sessionId, employeeId, pid, q, now);
    CommitSingleItem(s, sessionId, employeeId, pid, q, s.products[pid - 1].price, now);
  }

  /** One acceptable pick commits exactly its snapshot item. */
  lemma SellSinglePick(s: Store, sessionId: int, employeeId: int, pid: int, q: int, now: Timestamp)
    requires HasId(s.products, pid)
    requires 0 < q <= s.products[pid - 1].stock
    ensures Sell(s, Some(sessionId), employeeId, [PickRequest(pid, q)], now)
         == Commit(s, sessionId, employeeId, [Item(pid, q, s.products[pid - 1].price)], now)
  {
    AcceptPicksSingle(s.products, PickRequest(pid, q));
  }

  /** The store and outcome after committing a single item: one sale row with
      the totals of quantity times price, one line item, one stock lowered. */
  function SingleItemSale(s: Store, sessionId: int, employeeId: int, pid: int, q: int, price: real, now: Timestamp): Step<SaleOutcome>
    requires HasId(s.products, pid)
  {
    var t := SaleTotals(Amount(q, price));
    Step(s.(sales := s.sales + [Sale(sessionId, employeeId, t.gross, t.net, t.tax, now)],
            items := s.items + [SaleItem(|s.sales| + 1, pid, q, price)],
            products := s.products[pid - 1 := s.products[pid - 1].(stock := s.products[pid - 1].stock - q)]),
         Recorded(|s.sales| + 1))
  }

  lemma CommitSingleItem(s: Store, sessionId: int, employeeId: int, pid: int, q: int, price: real, now: Timestamp)
    requires HasId(s.products, pid)
    ensures Commit(s, sessionId, employeeId, [Item(pid, q, price)], now) == SingleItemSale(s, sessionId, employeeId, pid, q, price, now)
  {
    var items := [Item(pid, q, price)];
    assert items[..0] == [];
    assert Gross(items) == Gross(items[..0]) + Amount(q, price);
    assert LineItems(|s.sales| + 1, items) == [SaleItem(|s.sales| + 1, pid, q, price)];
    assert Decrement(s.products, items) == s.products[pid - 1 := s.products[pid - 1].(stock := s.products[pid - 1].stock - q)];
  }

  /** The per-pick check lets the same product be picked twice, each time
      within stock, overselling it: with q <= stock < 2q, two picks of q are
      both accepted, the sale is recorded and the stock ends below zero (for
      instance stock 5 and two picks of 3 leave -1). */
  lemma OversellCounterexample(s: Store, sessionId: int, employeeId: int, pid: int, q: int, now: Timestamp)
    requires HasId(s.products, pid)
    requires 0 < q <= s.products[pid - 1].stock < 2 * q
    ensures var r := Sell(s, Some(sessionId), employeeId, [PickRequest(pid, q), PickRequest(pid, q)], now);
      && r.out.Recorded?
      && r.store.products[pid - 1].stock == s.products[pid - 1].stock - 2 * q < 0
  {
    var requests := [PickRequest(pid, q), PickRequest(pid, q)];
    var first := requests[..1];
    assert first == [PickRequest(pid, q)] && first[..0] == [];
    assert Acceptable(s.products, PickRequest(pid, q));
    assert AcceptedQty(s.products, first, pid) == q;
    assert AcceptedQty(s.products, requests, pid) == 2 * q;
    assert Acceptable(s.products, requests[0]);
  }

  /** Corrected pick check: a pick must fit in the stock left after the picks
      already accepted for the same product. */
  predicate AcceptableAfter(products: seq<Product>, taken: seq<Item>, p: PickRequest)
  {
    HasId(products, p.productId) && 0 < p.quantity <= products[p.productId - 1].stock - QtyOf(taken, p.productId)
  }

  /** What one request adds under the cumulative check, after the items `taken` so far. */
  function KeptAfter(products: seq<Product>, taken: seq<Item>, p: PickRequest): seq<Item>
  {
    if AcceptableAfter(products, taken, p) then [Snapshot(products, p)] else []
  }

  /** The pick loop with the cumulative check: the accepted quantity of each
      product never exceeds its stock, and something is kept exactly when some
      request would pass the program's own check. */
  function AcceptPicksCumulative(products: seq<Product>, requests: seq<PickRequest>): (r: seq<Item>)
    ensures PricedFromCatalog(products, r)
    ensures WithinStock(products, r)
    ensures |r| == 0 <==> forall k :: 0 <= k < |requests| ==> !Acceptable(products, requests[k])
  {
    if |requests| == 0 then []
    else
      var p := requests[|requests| - 1];
      var prefix := requests[..|requests| - 1];
      assert requests == prefix + [p];
      var prev := AcceptPicksCumulative(products, prefix);
      WithinStockStep(products, prev, p);
      KeptAfterEmptyStep(products, prefix, p, prev);
      prev + KeptAfter(products, prev, p)
  }

  /** One more request under the cumulative check: something is kept exactly
      when some request so far passes the program's own check. */
  lemma KeptAfterEmptyStep(products: seq<Product>, prefix: seq<PickRequest>, p: PickRequest, prev: seq<Item>)
    requires PricedFromCatalog(products, prev)
    requires |prev| == 0 <==> forall k :: 0 <= k < |prefix| ==> !Acceptable(products, prefix[k])
    ensures var r := prev + KeptAfter(products, prev, p); var requests := prefix + [p];
      |r| == 0 <==> forall k :: 0 <= k < |requests| ==> !Acceptable(products, requests[k])
  {
    var requests := prefix + [p];
    var r := prev + KeptAfter(products, prev, p);
    QtyOfNonNegative(prev);
    if |r| == 0 {
      assert QtyOf(prev, p.productId) == 0;
      forall k | 0 <= k < |requests|
        ensures !Acceptable(products, requests[k])
      {
        if k < |prefix| {
          assert requests[k] == prefix[k];
        }
      }
    } else if |prev| == 0 {
      assert Acceptable(products, requests[|prefix|]);
    } else {
      var k :| 0 <= k < |prefix| && Acceptable(products, prefix[k]);
      assert requests[k] == prefix[k];
    }
  }

  /** Every item names a catalog product, has a positive quantity and carries its price. */
  predicate PricedFromCatalog(products: seq<Product>, items: seq<Item>)
  {
    forall k :: 0 <= k < |items| ==>
      && HasId(products, items[k].productId)
      && 0 < items[k].quantity
      && items[k].unitPrice == products[items[k].productId - 1].price
  }

  /** For every product the total quantity among `items` is 0 or within its stock. */
  ghost predicate WithinStock(products: seq<Product>, items: seq<Item>)
  {
    forall pid :: QtyOf(items, pid) == 0 || (HasId(products, pid) && 0 < QtyOf(items, pid) <= products[pid - 1].stock)
  }

  /** One more request under the cumulative check keeps both properties. */
  lemma WithinStockStep(products: seq<Product>, prev: seq<Item>, p: PickRequest)
    requires PricedFromCatalog(products, prev) && WithinStock(products, prev)
    ensures PricedFromCatalog(products, prev + KeptAfter(products, prev, p))
    ensures WithinStock(products, prev + KeptAfter(products, prev, p))
  {
    if AcceptableAfter(products, prev, p) {
      var x := Snapshot(products, p);
      var r := prev + [x];
      forall k | 0 <= k < |r|
        ensures HasId(products, r[k].productId) && 0 < r[k].quantity && r[k].unitPrice == products[r[k].productId - 1].price
      {
        if k < |prev| {
          assert r[k] == prev[k];
        }
      }
      forall pid ensures QtyOf(r, pid) == 0 || (HasId(products, pid) && 0 < QtyOf(r, pid) <= products[pid - 1].stock) {
        assert QtyOf(r, pid) == QtyOf(prev, pid) + (if x.productId == pid then x.quantity else 0) by {
          QtyOfSnoc(prev, x);
        }
        assert QtyOf(prev, pid) == 0 || (HasId(products, pid) && 0 < QtyOf(prev, pid) <= products[pid - 1].stock);
      }
    } else {
      assert prev + KeptAfter(products, prev, p) == prev;
    }
  }

  /** `realizar_vendas` with the cumulative check: a sale never drives a
      non-negative stock below zero, and otherwise behaves as `Sell`. */
  function SellCumulative(s: Store, sessionId: Option<int>, employeeId: int, requests: seq<PickRequest>, now: Timestamp): (r: Step<SaleOutcome>)
    ensures sessionId.None? ==> r == Step(s, NoOpenSession)
    ensures sessionId.Some? && (forall k :: 0 <= k < |requests| ==> !Acceptable(s.products, requests[k])) ==>
      r == Step(s, Cancelled)
    ensures r.out.Recorded? <==> sessionId.Some? && exists k :: 0 <= k < |requests| && Acceptable(s.products, requests[k])
    ensures r.store.employees == s.employees && r.store.sessions == s.sessions
    ensures |r.store.products| == |s.products|
    ensures |s.items| <= |r.store.items| && r.store.items[..|s.items|] == s.items
    ensures sessionId.Some? ==> forall i :: 0 <= i < |s.products| ==>
      r.store.products[i] == s.products[i].(stock := s.products[i].stock - QtyOf(AcceptPicksCumulative(s.products, requests), i + 1))
    ensures sessionId.Some? ==> forall i :: 0 <= i < |s.products| ==>
      && r.store.products[i].stock <= s.products[i].stock
      && (s.products[i].stock >= 0 ==> r.store.products[i].stock >= 0)
    ensures r.out.Recorded? ==>
      && r.out.saleId == |s.sales| + 1
      && |r.store.sales| == |s.sales| + 1
      && r.store.sales[|s.sales|].sessionId == sessionId.value
      && r.store.sales[|s.sales|].employeeId == employeeId
      && r.store.sales[..|s.sales|] == s.sales
      && r.store.sales[|s.sales|].soldAt == now
      && r.store.sales[|s.sales|].gross == ItemGross(r.store.items[|s.items|..], r.out.saleId)
      && TotalsConsistent(r.store.sales[|s.sales|].gross, r.store.sales[|s.sales|].net, r.store.sales[|s.sales|].tax)
      && r.store.items[|s.items|..] == LineItems(r.out.saleId, AcceptPicksCumulative(s.products, requests))
  {
    match sessionId
    case None => Step(s, NoOpenSession)
    case Some(id) =>
      CumulativeCommitStock(s, id, employeeId, requests, now);
      CumulativeCommitSale(s, id, employeeId, requests, now);
      Commit(s, id, employeeId, AcceptPicksCumulative(s.products, requests), now)
  }

  /** Committing the cumulatively accepted picks lowers each stock by its kept
      quantity, which never raises a stock nor takes a non-negative one below zero. */
  lemma CumulativeCommitStock(s: Store, sessionId: int, employeeId: int, requests: seq<PickRequest>, now: Timestamp)
    ensures var r := Commit(s, sessionId, employeeId, AcceptPicksCumulative(s.products, requests), now);
      && r.store.employees == s.employees && r.store.sessions == s.sessions
      && |r.store.products| == |s.products|
      && |s.items| <= |r.store.items| && r.store.items[..|s.items|] == s.items
      && (forall i :: 0 <= i < |s.products| ==>
            r.store.products[i] == s.products[i].(stock := s.products[i].stock - QtyOf(AcceptPicksCumulative(s.products, requests), i + 1)))
      && (forall i :: 0 <= i < |s.products| ==>
            && r.store.products[i].stock <= s.products[i].stock
            && (s.products[i].stock >= 0 ==> r.store.products[i].stock >= 0))
  {
    var items := AcceptPicksCumulative(s.products, requests);
    CommitDecrements(s, sessionId, employeeId, items, now);
    QtyOfNonNegative(items);
    var r := Commit(s, sessionId, employeeId, items, now);
    forall i | 0 <= i < |s.products|
      ensures r.store.products[i].stock <= s.products[i].stock
      ensures s.products[i].stock >= 0 ==> r.store.products[i].stock >= 0
    {
      assert QtyOf(items, i + 1) >= 0;
      assert QtyOf(items, i + 1) == 0 || QtyOf(items, i + 1) <= s.products[i].stock;
    }
  }

  /** Committing the cumulatively accepted picks records a sale exactly when some
      request passes the program's own check. */
  lemma CumulativeCommitSale(s: Store, sessionId: int, employeeId: int, requests: seq<PickRequest>, now: Timestamp)
    ensures var r := Commit(s, sessionId, employeeId, AcceptPicksCumulative(s.products, requests), now);
      && ((forall k :: 0 <= k < |requests| ==> !Acceptable(s.products, requests[k])) ==> r == Step(s, Cancelled))
      && (r.out.Recorded? <==> exists k :: 0 <= k < |requests| && Acceptable(s.products, requests[k]))
      && (r.out.Recorded? ==>
            && r.out.saleId == |s.sales| + 1
            && |r.store.sales| == |s.sales| + 1
            && r.store.sales[..|s.sales|] == s.sales
            && r.store.sales[|s.sales|].sessionId == sessionId
            && r.store.sales[|s.sales|].employeeId == employeeId
            && r.store.sales[|s.sales|].soldAt == now
            && r.store.sales[|s.sales|].gross == ItemGross(r.store.items[|s.items|..], r.out.saleId)
            && TotalsConsistent(r.store.sales[|s.sales|].gross, r.store.sales[|s.sales|].net, r.store.sales[|s.sales|].tax)
            && r.store.items[|s.items|..] == LineItems(r.out.saleId, AcceptPicksCumulative(s.products, requests)))
  {
  }

  /** With a session, the corrected sale is the commit of the picks it keeps. */
  lemma SellCumulativeCommits(s: Store, sessionId: int, employeeId: int, requests: seq<PickRequest>, now: Timestamp)
    ensures InCatalog(s.products, AcceptPicksCumulative(s.products, requests))
    ensures SellCumulative(s, Some(sessionId), employeeId, requests, now) == Commit(s, sessionId, employeeId, AcceptPicksCumulative(s.products, requests), now)
  {
  }

  /** When, for every product, the total quantity the program accepts is
      within its stock, the cumulative check keeps exactly the same items. */
  lemma {:induction false} CumulativeAgreesWhenFits(products: seq<Product>, requests: seq<PickRequest>)
    requires forall i :: 0 <= i < |products| ==> AcceptedQty(products, requests, i + 1) <= products[i].stock
    ensures AcceptPicksCumulative(products, requests) == AcceptPicks(products, requests)
  {
    if |requests| > 0 {
      var p := requests[|requests| - 1];
      var prefix := requests[..|requests| - 1];
      forall i | 0 <= i < |products|
        ensures AcceptedQty(products, prefix, i + 1) <= products[i].stock
      {
        assert AcceptedQty(products, requests, i + 1) == AcceptedQty(products, prefix, i + 1)
          + (if p.productId == i + 1 && Acceptable(products, p) then p.quantity else 0);
      }
      CumulativeAgreesWhenFits(products, prefix);
      var prev := AcceptPicks(products, prefix);
      QtyOfNonNegative(prev);
      if Acceptable(products, p) {
        assert AcceptedQty(products, requests, p.productId) == QtyOf(prev, p.productId) + p.quantity;
      }
    }
  }

  /** Under the same condition the corrected sale and the program's sale coincide. */
  lemma SellCumulativeAgreesWhenFits(s: Store, sessionId: Option<int>, employeeId: int, requests: seq<PickRequest>, now: Timestamp)
    requires forall i :: 0 <= i < |s.products| ==> AcceptedQty(s.products, requests, i + 1) <= s.products[i].stock
    ensures SellCumulative(s, sessionId, employeeId, requests, now) == Sell(s, sessionId, employeeId, requests, now)
  {
    CumulativeAgreesWhenFits(s.products, requests);
  }

  lemma {:induction false} QtyOfNonNegative(items: seq<Item>)
    requires forall k :: 0 <= k < |items| ==> 0 < items[k].quantity
    ensures forall pid :: QtyOf(items, pid) >= 0
  {
    if |items| > 0 {
      var prefix := items[..|items| - 1];
      assert forall k :: 0 <= k < |prefix| ==> prefix[k] == items[k];
      QtyOfNonNegative(prefix);
    }
  }
}
