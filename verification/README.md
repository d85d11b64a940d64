# Loja caixa — a Dafny model of the point-of-sale core

`loja_caixa.py` is a one-file command-line cash register for a small store, kept
in SQLite. It has employees (`funcionarios`), products with stock (`produtos`),
cash-drawer sessions (`caixa`), sales (`vendas`) and their line items
(`vendas_itens`). This project models the database as one immutable `Store`
value and each core operation as a pure transition on it:

- **Directory**: `cadastrar_funcionario` (registration under a unique CPF) and
  `login` (exact match on CPF and password).
- **Sessions**: `abrir_caixa` (refuses a second open session and returns the
  open one's id) and `fechar_caixa` (stamps `fechado_em`, then prints the report).
- **Sales**: `realizar_vendas` after the prompts: the pick check, the three
  totals, and the single commit that writes the sale, its line items with a
  price snapshot, and the stock decrements.
- **Reporting**: `gerar_relatorio_caixa`, the session's summed totals (0.0
  when it has no sales) and the per-employee breakdown from an inner JOIN.
- **Shop**: any sequence of these operations. The store invariant holds
  throughout: unique CPFs, at most one open session, line items that refer to
  existing rows, and each sale's gross equal to the sum over its line items,
  split into net and tax. Stock is accounted for over any run.

Modelling conventions:

- Each table is a sequence in insertion order. AUTOINCREMENT with no deletes
  gives the row at index `i` the id `i + 1`. An id that names no row is legal
  input, and the operations handle it as SQLite would: the row is not found,
  or nothing is updated.
- The FOREIGN KEY clauses of `caixa`, `vendas` and `vendas_itens`
  (loja_caixa.py:55, 69-70, 82-83) are not enforced, because the program never
  turns on `PRAGMA foreign_keys`, which is off by default in SQLite. So a sale can be
  recorded against a `caixa_id` or `funcionario_id` that names no row, and
  the model allows the same.
- Money is an exact `real` and `TaxRate` is `0.12`. Timestamps are opaque strings
  passed in as `now`.
- `fetchone()` without `ORDER BY` is taken to return the lowest-id match. The
  `GROUP BY f.id` rows are taken to come in ascending employee id, and each row
  also carries the employee id it groups.
- The pick loop is modelled as a list of `PickRequest`s. A request that names
  no product, or whose quantity is not in `1..stock`, is dropped, as the
  loop's `continue` does. The others become items that carry the price read at
  pick time. Product ids are taken to fit SQLite's signed 64-bit INTEGER (see
  "Left out").

Where the program is weaker than a careful design, the model follows the code.
`fechar_caixa` does not check that the session is open, or even that it exists.
It re-stamps `fechado_em` on whatever id it is given, and an unknown id updates
nothing. `realizar_vendas` only tests `caixa_id` for None and never looks the
session up. A pick over stock is dropped, not reported as a failure of the whole
sale. Prices and stock levels are never checked for sign.

## Model

| member | source | states |
|---|---|---|
| Directory.CpfTaken | loja_caixa.py:98-103 | true exactly when some registered employee already has that CPF |
| Directory.Register | loja_caixa.py:92-103 | a taken CPF leaves the store unchanged and reports the duplicate; otherwise exactly one employee is appended with the next id; CPF uniqueness is preserved |
| Directory.FirstMatch | loja_caixa.py:109-110 | finds the lowest-id row matching both CPF and password, and no row before it matches; none found means no row matches |
| Directory.Login | loja_caixa.py:105-117 | returns a user iff some row matches CPF and password exactly; the returned id names a matching row and carries its name; otherwise None |
| Directory.LoginIdentifiesTheEmployee | loja_caixa.py:109-113 | with unique CPFs, login for an employee's CPF returns that employee when the password matches and None otherwise |
| Sessions.FirstOpen | loja_caixa.py:144-145 | returns the lowest-id session with null `fechado_em`, or none when every session is closed |
| Sessions.OpenSession | loja_caixa.py:143-155 | if a session is open, returns its id and inserts nothing; otherwise appends one open session owned by the employee and returns the fresh id; the returned id is always open; at most one open session is preserved, and it is the returned one |
| Sessions.CloseSession | loja_caixa.py:157-171 | no id: nothing changes; an id: only that row's `fechado_em` is set, whether or not it was open, every other row and table is unchanged, and the report is produced from the updated store; the one-open invariant is kept |
| Sessions.CloseReturnsToClosedState | loja_caixa.py:157-171 | closing the open session leaves no open session |
| Sessions.OpenFromClosedState | loja_caixa.py:143-155 | opening when none is open yields exactly one open session, the new row |
| Sales.AcceptPicks | loja_caixa.py:179-210 | each kept pick names an existing product, has 0 < quantity <= the stock read at pick time, and carries that product's price; as many items are kept as requests pass the check, the result is empty iff none passes, and each product's kept quantity equals its total over the passing requests |
| Sales.AcceptPicksAppend | loja_caixa.py:179-210 | requests are judged one at a time and appended in order: the items kept from `a + b` are those kept from `a` followed by those kept from `b` |
| Sales.AcceptPicksSingle | loja_caixa.py:206-210 | a single request is kept, with its snapshot price, exactly when it passes the check |
| Sales.AcceptPicksGross | loja_caixa.py:210-217 | the gross of the kept items is quantity × catalog price summed over the requests that pass the check |
| Sales.AcceptedQty | loja_caixa.py:197-210 | a product with no accepted request has accepted quantity 0 |
| Sales.SaleTotals | loja_caixa.py:217-219 | the gross is kept, net * (1 + rate) = gross and net + tax = gross |
| Sales.TaxShare | loja_caixa.py:218-219 | the tax backed out of a tax-inclusive gross is gross * rate / (1 + rate) |
| Sales.LineItems | loja_caixa.py:230-231 | one line item per item, in order, for the given sale, with the item's product, quantity and snapshot price |
| Sales.Decrement | loja_caixa.py:230-234 | every product's stock falls by exactly the total quantity of it among the items; names, prices and other products are unchanged |
| Sales.Commit | loja_caixa.py:212-236 | no items: nothing is written; otherwise, in one step, one sale for the session and employee whose gross is the sum over its own line items and which splits into net and tax, one line item per item, and each stock lowered by what those line items sell; nothing else changes |
| Sales.Sell | loja_caixa.py:173-236 | no `caixa_id`, or no request passing the check: nothing changes; a sale is recorded iff there is a session and some request passes; each product's stock falls by exactly its accepted quantity (unpicked products unchanged); employees, sessions and earlier sales and line items untouched; the new sale references the given session, employee and time, its gross is quantity × catalog price summed over the passing requests and splits into net and tax, and the new line items are one per kept pick, in order, with its product, quantity and snapshot price |
| Sales.LineItemsGross | loja_caixa.py:217-231 | the persisted line items of the sale sum (quantity × unit price) to `total_bruto` |
| Sales.LineItemsSold | loja_caixa.py:230-234 | the persisted line items sell of each product exactly the picked quantity |
| Sales.SellStockNonNegativeWhenCumulativeFits | loja_caixa.py:201-210 | as written, stock stays non-negative when every product's total accepted quantity is within its stock |
| Sales.SinglePickSale | loja_caixa.py:206-236 | one acceptable pick writes one sale with the totals of quantity × catalog price, one line item with that price, and lowers only that product's stock, by the quantity |
| Sales.OversellCounterexample | loja_caixa.py:201-234 | with q <= stock < 2q, two picks of q of the same product are both accepted, the sale is recorded and the stock ends at stock - 2q < 0 (stock 5, two picks of 3: -1) |
| Sales.AcceptPicksCumulative | loja_caixa.py:206-210 | with the cumulative check, each product's total kept quantity is 0 or within its stock, each kept pick names a catalog product, has a positive quantity and carries its price, and something is kept iff some request passes the program's own check |
| Sales.WithinStockStep | loja_caixa.py:206-210 | judging one more pick against the stock left after earlier picks of the same product keeps every product's total within its stock |
| Sales.SellCumulative | loja_caixa.py:173-236 | with the cumulative check: no `caixa_id` or no passing request leaves the store unchanged; a sale is recorded iff there is a session and some request passes the program's check; each stock falls by exactly the kept quantity, so none rises and none that was non-negative goes below zero; earlier sales and line items are kept, the new line items are the kept picks, and the new sale's totals match them |
| Sales.CumulativeAgreesWhenFits | loja_caixa.py:201-210 | when every product's total accepted quantity is within its stock, the cumulative check keeps exactly the items the program keeps |
| Sales.SellCumulativeAgreesWhenFits | loja_caixa.py:173-236 | under the same condition the corrected sale and the program's sale give the same store and outcome |
| Reporting.CountBy | loja_caixa.py:263-266 | an employee's sale count in a session is at most the session's sale count |
| Reporting.Lines | loja_caixa.py:263-268 | each row is a registered employee with that employee's name, a positive sale count and gross subtotal within the session, in strictly ascending employee id |
| Reporting.SessionReport | loja_caixa.py:241-268 | not found iff the id names no session; otherwise the session's opener and timestamps, totals equal to the sums over its sales, all 0.0 and no rows when it has none, and per-employee rows with that employee's count and gross |
| Reporting.NoSalesNoTotals | loja_caixa.py:254-260 | with no sales in the session the sums are (0, 0, 0), so the explicit 0.0 default agrees with them |
| Reporting.NoSalesNoLines | loja_caixa.py:263-268 | with no sales in the session the breakdown is empty |
| Reporting.LinesComplete | loja_caixa.py:263-268 | every registered employee with a sale in the session has a row |
| Reporting.LinesCountJoined | loja_caixa.py:263-268 | the rows' counts add up to the session's sales whose employee is registered; the inner JOIN drops the others |
| Reporting.CountJoinedAll | loja_caixa.py:263-266 | when every sale of the session names a registered employee, no sale is dropped by the JOIN |
| Reporting.SumInConsistent | loja_caixa.py:254-260 | if every sale splits as gross = net + tax with net = gross / (1 + rate), so do the session sums |
| Reporting.ReportBreakdown | loja_caixa.py:263-268 | the report's rows count every session sale whose employee exists, and contain a row for each such employee |
| Shop.EmptyStoreValid | loja_caixa.py:23-88 | the freshly created empty database satisfies the store invariant |
| Shop.CommitPreservesValid | loja_caixa.py:223-236 | a committed sale keeps the invariant: new line items refer to the new sale and to catalog products, and every sale's gross is the sum over its line items |
| Shop.ApplyPreservesValid | loja_caixa.py:92-236 | registration, open, close and sale each keep the store invariant, for any ids given |
| Shop.RunPreservesValid | loja_caixa.py:143-236 | after any sequence of operations the invariant holds, in particular at most one session is open |
| Shop.CommitStockAccounting | loja_caixa.py:229-236 | a commit lowers each product's stock by exactly the quantity its new line items sell |
| Shop.ApplyStockAccounting | loja_caixa.py:229-234 | every operation keeps stock plus quantity sold constant, product by product |
| Shop.RunStockAccounting | loja_caixa.py:229-236 | after any run, each product's stock is its initial stock minus the quantity sold by line items added during the run |
| Shop.RunCumulativeKeepsStockNonNegative | loja_caixa.py:206-234 | with the cumulative check, no run drives any stock below zero |
| Shop.ReportTotalsConsistent | loja_caixa.py:217-260 | in a valid store every report's totals satisfy net + tax = gross and net = gross / (1 + rate) |
| Scenarios.WaterSale | loja_caixa.py:212-236 | 3 units at 2.00 with 10 in stock: gross 6, net 75/14, tax 9/14, one line item at 2.00, 7 left |
| Scenarios.SecondOpenReportsExisting | loja_caixa.py:143-148 | opening while session 1 is open returns 1 and changes nothing |
| Scenarios.InsufficientStockCancels | loja_caixa.py:206-214 | a single pick above the stock is refused, the sale is cancelled and the store is unchanged |

## Findings

| source | as written | input that shows it | evidently intended | confidence | as-written member | corrected member |
|---|---|---|---|---|---|---|
| loja_caixa.py:201-210 | each pick is checked against the stock read for that product at pick time; stock is only lowered after the loop, so earlier picks of the same product are not counted | product 1 with stock 5, picks (1, 3) then (1, 3): both pass, the sale commits and the stock becomes -1 (in general q <= stock < 2q with two picks of q) | a pick is accepted only if it fits in the stock left after the quantities already picked of that product, so stock never goes negative | high; not executed | Sales.OversellCounterexample | Sales.SellCumulative |

`Shop.Run` takes the engine as a parameter: `AsWritten` is the program and
`Cumulative` is the corrected check. The invariant and stock accounting are
proved for both, and non-negative stock is proved for the corrected one
(`Shop.RunCumulativeKeepsStockNonNegative`).

## Left out

- SQLite connection, cursors, `init_db` table creation and commit mechanics. The store is a value, and the single `conn.commit()` of a sale is one atomic transition (`Sales.Commit`).
- `main_menu`, every `input`/`getpass`/`print`, the `.strip()` of inputs and the `int()`/`float()` parsing in the pick loop. Picks are given as a list of (product id, quantity).
- `cadastrar_produtos` and `lista_produtos`: product registration and listing are outside the core. Products are part of the store value.
- Report formatting: the report is returned as a value, not printed.
- `datetime.now()`: timestamps are opaque arguments, so "opened before closed" is not modelled.
- IEEE floats: money and `TAXA_RATE` are exact reals.
- Password hashing and hardening: only the exact-match lookup is modelled.
- Row order of `fetchone()` and of `GROUP BY`: taken to be ascending id, since the program gives no `ORDER BY`.
- Integer width of ids: a product id typed in the pick loop that does not fit SQLite's signed 64-bit INTEGER makes the `SELECT` at loja_caixa.py:191 raise `OverflowError`. That call is outside the `try` at 185-189, and nothing catches it, so the program stops and writes nothing. The model takes every id to fit, so it drops such a request as naming no product.
