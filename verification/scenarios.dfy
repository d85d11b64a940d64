/** Concrete runs of the core on small stores. */
module Scenarios {
  import opened Records
  import Sessions
  import Sales

  /** Selling 3 of a 2.00 product with 10 in stock: gross 6, net 6 / 1.12,
      tax the rest, 7 left in stock, one line item with the snapshot price. */
  lemma WaterSale()
    ensures var s := Store([], [Product("Agua", 2.0, 10)], [Session(1, "t0", None)], [], []);
      var r := Sales.Sell(s, Some(1), 1, [Sales.PickRequest(1, 3)], "t1");
      && r.out == Sales.Recorded(1)
      && r.store.sales == [Sale(1, 1, 6.0, 75.0 / 14.0, 9.0 / 14.0, "t1")]
      && r.store.items == [SaleItem(1, 1, 3, 2.0)]
      && r.store.products == [Product("Agua", 2.0, 7)]
  {
    var s := Store([], [Product("Agua", 2.0, 10)], [Session(1, "t0", None)], [], []);
    Sales.SinglePickSale(s, 1, 1, 1, 3, "t1");
  }

  /** A second open while session 1 is open reports session 1 and changes nothing. */
  lemma SecondOpenReportsExisting()
    ensures var s := Store([], [], [Session(1, "t0", None)], [], []);
      var r := Sessions.OpenSession(s, 2, "t1");
      r.out == 1 && r.store == s
  {
  }

  /** A pick above the stock is refused; with nothing else picked the sale is
      cancelled and the store is left exactly as it was. */
  lemma InsufficientStockCancels()
    ensures var s := Store([], [Product("Agua", 2.0, 10)], [Session(1, "t0", None)], [], []);
      var r := Sales.Sell(s, Some(1), 1, [Sales.PickRequest(1, 11)], "t1");
      r == Step(s, Sales.Cancelled)
  {
  }
}
