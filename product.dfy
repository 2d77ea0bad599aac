/**
 * The `Product` record: its columns, the constraints the database enforces on
 * them, the application-level validity rules, and the orderings a listing may
 * sort by.
 */
module ProductEntity {
  import opened Text

  /**
   * One stored product. The price is held in integer cents (the column is
   * numeric(12,2)); timestamps are abstract clock readings.
   */
  datatype Product = Product(
    id: string,
    name: string,
    priceCents: int,
    stock: int,
    createdAt: nat,
    updatedAt: nat)

  const MinNameLength := 2
  const MaxNameLength := 100
  /** numeric(12,2): at most ten digits before the point, so |cents| < 10^12. */
  const PriceCentsLimit := 1_000_000_000_000
  /** The PostgreSQL `integer` range of the stock column. */
  const MinInt4 := -2147483648
  const MaxInt4 := 2147483647

  /** Required name, 2 to 100 characters. */
  predicate ValidName(name: string) {
    MinNameLength <= |name| <= MaxNameLength
  }

  /** Non-negative and representable in numeric(12,2). */
  predicate ValidPrice(cents: int) {
    0 <= cents < PriceCentsLimit
  }

  /** Non-negative integer that fits the integer column. */
  predicate ValidStock(stock: int) {
    0 <= stock <= MaxInt4
  }

  /** The record's field constraints (name length, price and stock floors). */
  predicate ValidProduct(p: Product) {
    ValidName(p.name) && ValidPrice(p.priceCents) && ValidStock(p.stock)
  }

  /**
   * What the columns themselves accept: varchar(100), numeric(12,2) and integer.
   * The lower bounds of the record's rules are not database constraints.
   */
  predicate FitsColumns(p: Product) {
    && |p.name| <= MaxNameLength
    && -PriceCentsLimit < p.priceCents < PriceCentsLimit
    && MinInt4 <= p.stock <= MaxInt4
  }

  lemma ValidProductFitsColumns(p: Product)
    requires ValidProduct(p)
    ensures FitsColumns(p)
  {
  }

  // ---------------------------------------------------------------------------
  // The table as a map from id to row

  type Rows = map<string, Product>

  predicate NameTaken(rows: Rows, name: string) {
    exists id | id in rows :: rows[id].name == name
  }

  /** Some row other than `self` already carries `name`. */
  predicate NameTakenByOther(rows: Rows, name: string, self: string) {
    exists id | id in rows :: id != self && rows[id].name == name
  }

  /** The unique index on `name`. */
  predicate UniqueNames(rows: Rows) {
    forall a, b | a in rows && b in rows :: rows[a].name == rows[b].name ==> a == b
  }

  /** Every row is stored under its own generated id. */
  predicate KeyedById(rows: Rows) {
    forall id | id in rows :: rows[id].id == id
  }

  /** Everything the database guarantees about the table. */
  predicate TableInvariant(rows: Rows) {
    UniqueNames(rows) && KeyedById(rows) && forall id | id in rows :: FitsColumns(rows[id])
  }

  /** Every row also satisfies the record's own field constraints. */
  predicate AllValid(rows: Rows) {
    forall id | id in rows :: ValidProduct(rows[id])
  }

  lemma UniqueNamesSingleOwner(rows: Rows, id: string)
    requires UniqueNames(rows) && id in rows
    ensures !NameTakenByOther(rows, rows[id].name, id)
  {
  }

  // ---------------------------------------------------------------------------
  // Ordering by a column

  /** The columns a listing may be ordered by. */
  datatype SortField = UpdatedAt | CreatedAt | Price | Name | Stock

  /** The property name of each sortable column, as it appears in cache keys. */
  function FieldName(f: SortField): string {
    match f
    case UpdatedAt => "updatedAt"
    case CreatedAt => "createdAt"
    case Price => "price"
    case Name => "name"
    case Stock => "stock"
  }

  lemma FieldNameInjective(f: SortField, g: SortField)
    requires FieldName(f) == FieldName(g)
    ensures f == g
  {
  }

  /** Code-point lexicographic order on strings (the C collation). */
  predicate LexLe(a: string, b: string) {
    a == [] || (b != [] && (a[0] < b[0] || (a[0] == b[0] && LexLe(a[1..], b[1..]))))
  }

  lemma {:induction false} LexLeTotal(a: string, b: string)
    ensures LexLe(a, b) || LexLe(b, a)
  {
    if a != [] && b != [] && a[0] == b[0] {
      LexLeTotal(a[1..], b[1..]);
    }
  }

  lemma {:induction false} LexLeTransitive(a: string, b: string, c: string)
    requires LexLe(a, b) && LexLe(b, c)
    ensures LexLe(a, c)
  {
    if a != [] && b != [] && c != [] && a[0] == b[0] == c[0] {
      LexLeTransitive(a[1..], b[1..], c[1..]);
    }
  }

  /** `a` may come before `b` when ascending by column `f` (ties either way). */
  predicate ColumnLe(f: SortField, a: Product, b: Product) {
    match f
    case UpdatedAt => a.updatedAt <= b.updatedAt
    case CreatedAt => a.createdAt <= b.createdAt
    case Price => a.priceCents <= b.priceCents
    case Name => LexLe(a.name, b.name)
    case Stock => a.stock <= b.stock
  }

  /** `a` may come before `b` in an ORDER BY `f` ASC or DESC. */
  predicate Before(f: SortField, ascending: bool, a: Product, b: Product) {
    if ascending then ColumnLe(f, a, b) else ColumnLe(f, b, a)
  }

  lemma BeforeTotal(f: SortField, ascending: bool, a: Product, b: Product)
    ensures Before(f, ascending, a, b) || Before(f, ascending, b, a)
  {
    if f.Name? {
      LexLeTotal(a.name, b.name);
    }
  }

  lemma BeforeTransitive(f: SortField, ascending: bool, a: Product, b: Product, c: Product)
    requires Before(f, ascending, a, b) && Before(f, ascending, b, c)
    ensures Before(f, ascending, a, c)
  {
    if f.Name? {
      if ascending {
        LexLeTransitive(a.name, b.name, c.name);
      } else {
        LexLeTransitive(c.name, b.name, a.name);
      }
    }
  }
}
