/** Record shapes of the store kept by the point-of-sale program (the five
    tables created by `init_db`) and the store value every operation
    transforms.

    Each table is a sequence of rows in insertion order. Ids are assigned by
    AUTOINCREMENT and no row is ever deleted, so the row at index `i` has id
    `i + 1`; an id is only a position, and `HasId` says which ints name a row.
 */
module Records {

  datatype Option<+T> = None | Some(value: T)

  /** The text `datetime.now().isoformat(...)` produces; opaque to the model. */
  type Timestamp = string

  /** TAXA_RATE: the flat tax rate included in every gross total. */
  const TaxRate: real := 0.12

  /** A row of `funcionarios`. */
  datatype Employee = Employee(name: string, cpf: string, password: string)

  /** A row of `produtos`. The program never checks price or stock signs. */
  datatype Product = Product(name: string, price: real, stock: int)

  /** A row of `caixa`: a drawer session; `closedAt` is `fechado_em`, null while open. */
  datatype Session = Session(openedBy: int, openedAt: Timestamp, closedAt: Option<Timestamp>)

  /**
   * A row of `vendas`. Neither id is checked against its table: the program
   * does not check them, and SQLite leaves FOREIGN KEY clauses unenforced
   * unless `PRAGMA foreign_keys` is turned on, which the program never does.
   */
  datatype Sale = Sale(sessionId: int, employeeId: int, gross: real, net: real, tax: real, soldAt: Timestamp)

  /** A row of `vendas_itens`; `unitPrice` is the catalog price when the item was picked. */
  datatype SaleItem = SaleItem(saleId: int, productId: int, quantity: int, unitPrice: real)

  /** The whole database. */
  datatype Store = Store(
    employees: seq<Employee>,
    products: seq<Product>,
    sessions: seq<Session>,
    sales: seq<Sale>,
    items: seq<SaleItem>)

  /** The store after an operation, and what the operation reports back. */
  datatype Step<+T> = Step(store: Store, out: T)

  /** Gross, net-of-tax and tax amounts, as stored in a sale or summed in a report. */
  datatype Totals = Totals(gross: real, net: real, tax: real)

  /** `id` names a row of `table`. */
  predicate HasId<T>(table: seq<T>, id: int)
  {
    1 <= id <= |table|
  }

  /** Gross is tax-inclusive: net is gross with the tax rate backed out, and the tax is the rest. */
  predicate TotalsConsistent(gross: real, net: real, tax: real)
  {
    net * (1.0 + TaxRate) == gross && net + tax == gross
  }
}
