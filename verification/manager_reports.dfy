/**
 The read-only queries of the current ledger: the product listing in one of
 five orders, the low-stock report and the dashboard statistics. The best
 seller and the sales listing are shared with the older ledger and live in
 `Ledger`.
 */
module ManagerReports {
  import opened Optional
  import opened Query
  import opened Ledger
  import opened Manager

  /** The orderings `obtener_productos` accepts. */
  datatype ProductOrder = ByDisplayOrder | ByName | ByPrice | ByQuantity | ByCategory

  /** The `orden_valido` lookup: five known keys; anything else falls back
      to the display order. */
  function ParseOrder(key: string): (o: ProductOrder)
    ensures o == ByName <==> key == "nombre"
    ensures o == ByPrice <==> key == "precio"
    ensures o == ByQuantity <==> key == "cantidad"
    ensures o == ByCategory <==> key == "categoria"
    ensures o == ByDisplayOrder <==> key != "nombre" && key != "precio" && key != "cantidad" && key != "categoria"
  {
    if key == "nombre" then ByName
    else if key == "precio" then ByPrice
    else if key == "cantidad" then ByQuantity
    else if key == "categoria" then ByCategory
    else ByDisplayOrder
  }

  /** `LEFT JOIN categorias`: the product's category, or NULL when it has
      none or the id it refers to no longer exists. */
  function JoinedCategory(s: Store, p: Product): Option<Category> {
    if p.categoryId.Some? && p.categoryId.value in s.categories then Some(s.categories[p.categoryId.value])
    else None
  }

  /** What each ordering promises about two products listed in a row. */
  predicate ListedBefore(s: Store, o: ProductOrder, p: Product, q: Product) {
    match o
    case ByDisplayOrder => p.displayOrder <= q.displayOrder
    case ByName => TextLe(p.name, q.name)
    case ByPrice => p.price >= q.price
    case ByQuantity => p.quantity <= q.quantity
    case ByCategory =>
      var cp, cq := JoinedCategory(s, p), JoinedCategory(s, q);
      cp.None? || (cq.Some? && TextLe(cp.value.name, cq.value.name))
  }

  /** The `ORDER BY` column of each ordering. */
  function SortKey(s: Store, o: ProductOrder, p: Product): Key {
    match o
    case ByDisplayOrder => Num(p.displayOrder as real)
    case ByName => Str(p.name)
    case ByPrice => Num(p.price)
    case ByQuantity => Num(p.quantity as real)
    case ByCategory =>
      var c := JoinedCategory(s, p);
      if c.None? then Null else Str(c.value.name)
  }

  function SortDirection(o: ProductOrder): Direction {
    if o == ByPrice then Desc else Asc
  }

  /** The SQL `ORDER BY` clause of each ordering means what `ListedBefore`
      says. */
  lemma SortKeyMeaning(s: Store, o: ProductOrder, p: Product, q: Product)
    ensures Before(SortDirection(o), SortKey(s, o, p), SortKey(s, o, q)) <==> ListedBefore(s, o, p, q)
  {
  }

  /** `obtener_productos(ordenar_por)`: every product exactly once, in the
      requested order. */
  method ListProducts(s: Store, orderBy: string) returns (rows: seq<(int, Product)>)
    ensures forall e :: e in rows ==> e.0 in s.products && s.products[e.0] == e.1
    ensures forall id :: id in s.products ==> multiset(rows)[(id, s.products[id])] == 1
    ensures |rows| == |s.products|
    ensures forall i, j :: 0 <= i < j < |rows| ==> ListedBefore(s, ParseOrder(orderBy), rows[i].1, rows[j].1)
  {
    var o := ParseOrder(orderBy);
    var key := (p: Product) => SortKey(s, o, p);
    rows := ScanSorted(s.products, key, SortDirection(o));
    forall i, j | 0 <= i < j < |rows| ensures ListedBefore(s, o, rows[i].1, rows[j].1) {
      SortKeyMeaning(s, o, rows[i].1, rows[j].1);
    }
  }

  predicate IsLow(p: Product) {
    p.quantity < LowStockThreshold
  }

  /** `obtener_productos_bajo_stock(limite)`: the products with fewer than
      10 units, fewest first, at most `limite` of them (all when negative).
      The list is cut only once it is full, and only products with at least
      as many units as every listed one are cut. */
  method LowStockProducts(s: Store, limit: int) returns (rows: seq<(int, Product)>)
    ensures forall e :: e in rows ==> e.0 in s.products && s.products[e.0] == e.1 && IsLow(e.1)
    ensures forall id :: id in s.products ==> multiset(rows)[(id, s.products[id])] <= 1
    ensures forall i, j :: 0 <= i < j < |rows| ==> rows[i].1.quantity <= rows[j].1.quantity
    ensures limit >= 0 ==> |rows| <= limit
    ensures limit < 0 || |rows| < limit ==>
      forall id :: id in s.products && IsLow(s.products[id]) ==> (id, s.products[id]) in rows
    ensures forall i, id :: 0 <= i < |rows| && id in s.products && IsLow(s.products[id]) && (id, s.products[id]) !in rows ==>
      rows[i].1.quantity <= s.products[id].quantity
  {
    rows := LowStock(s.products, (p: Product) => p.quantity, limit);
  }

  /** The figures `obtener_estadisticas` reports. `today` is the current
      day, which the source reads from the clock. */
  datatype Stats = Stats(
    products: nat,
    categories: nat,
    sales: nat,
    salesToday: real,
    revenue: real,
    lowStock: nat)

  function LowStockIds(s: Store): set<int> {
    set id | id in s.products && IsLow(s.products[id])
  }

  function Statistics(s: Store, today: nat): (r: Stats)
    ensures r.lowStock <= r.products
    ensures s.sales == [] ==> r.sales == 0 && r.revenue == 0.0 && r.salesToday == 0.0
  {
    var low := LowStockIds(s);
    assert s.products.Keys == low + (s.products.Keys - low);
    Stats(|s.products|, |s.categories|, |s.sales|, DayTotal(s.sales, today), SalesTotal(s.sales),
          |LowStockIds(s)|)
  }

  /** A sale shows up in the statistics: one more sale, its total added to
      the revenue (and to today's takings when made today); the product and
      category counts stay. */
  lemma StatisticsAfterSale(s: Store, productId: int, quantity: int, now: Timestamp, today: nat)
    requires RegisterSale(s, productId, quantity, now).result.Ok?
    ensures var before, after := Statistics(s, today), Statistics(RegisterSale(s, productId, quantity, now).store, today);
      var total := s.products[productId].price * quantity as real;
      && after.sales == before.sales + 1
      && after.revenue == before.revenue + total
      && after.salesToday == before.salesToday + (if Day(now) == today then total else 0.0)
      && after.products == before.products
      && after.categories == before.categories
  {
    var t := RegisterSale(s, productId, quantity, now).store;
    var x := t.sales[|s.sales|];
    assert t.sales == s.sales + [x];
    SalesTotalAppend(s.sales, x);
    assert t.sales[..|t.sales| - 1] == s.sales;
  }
}
