/**
 What both versions of the inventory ledger share: timestamps, the failure
 kinds an operation reports, the sales ledger (the `ventas` table, identical
 in both schemas) and the reports computed from it.
 */
module Ledger {
  import opened Optional
  import opened Query

  /** A `'%Y-%m-%d %H:%M:%S'` timestamp, as seconds. The text form sorts in
      the same order, and `DATE(fecha)` is the day it falls on. */
  type Timestamp = nat

  const SecondsPerDay: nat := 86400

  function Day(t: Timestamp): nat {
    t / SecondsPerDay
  }

  /** Products with fewer units than this are "low stock". */
  const LowStockThreshold: int := 10

  /** Failures an operation reports. Each carries the figures its message
      shows; the last two stand for exceptions the source does not catch. */
  datatype Failure =
    | ProductNotFound
    | InsufficientStock(inStock: int)
    | InsufficientBudget(capital: real, required: real)
    | DuplicateCategoryName
    | CategoryInUse(products: nat)
    | IntegrityError
    | MissingBudgetRow

  datatype Result<T> = Ok(value: T) | Err(failure: Failure)

  /** One row of `ventas`. The product name and unit price are copies taken
      when the sale was made, so the row survives the product's deletion. */
  datatype Sale = Sale(
    id: int,
    productId: int,
    productName: string,
    quantity: int,
    unitPrice: real,
    total: real,
    date: Timestamp)

  /** `SUM(total)` over `sales`, 0 when there are none. */
  function SalesTotal(sales: seq<Sale>): real {
    if |sales| == 0 then 0.0
    else SalesTotal(sales[..|sales| - 1]) + sales[|sales| - 1].total
  }

  /** `SUM(total)` over the sales made on day `today`. */
  function DayTotal(sales: seq<Sale>, today: nat): real {
    if |sales| == 0 then 0.0
    else
      var last := sales[|sales| - 1];
      DayTotal(sales[..|sales| - 1], today) + (if Day(last.date) == today then last.total else 0.0)
  }

  /** `SUM(cantidad)` over the sales of the product called `name`. */
  function SoldQuantity(sales: seq<Sale>, name: string): int {
    if |sales| == 0 then 0
    else
      var last := sales[|sales| - 1];
      SoldQuantity(sales[..|sales| - 1], name) + (if last.productName == name then last.quantity else 0)
  }

  lemma SalesTotalAppend(sales: seq<Sale>, x: Sale)
    ensures SalesTotal(sales + [x]) == SalesTotal(sales) + x.total
  {
    assert (sales + [x])[..|sales|] == sales;
  }

  /** When every sale falls on `today`, the day's takings are the all-time
      takings. */
  lemma {:induction false} DayTotalOfOneDay(sales: seq<Sale>, today: nat)
    requires forall i :: 0 <= i < |sales| ==> Day(sales[i].date) == today
    ensures DayTotal(sales, today) == SalesTotal(sales)
  {
    if |sales| > 0 {
      DayTotalOfOneDay(sales[..|sales| - 1], today);
    }
  }

  /** With no negative sale quantities, every name's sold quantity is
      non-negative, and a name that was never sold has sold 0. */
  lemma {:induction false} SoldQuantityBounded(sales: seq<Sale>, name: string)
    requires forall i :: 0 <= i < |sales| ==> sales[i].quantity >= 0
    ensures 0 <= SoldQuantity(sales, name)
    ensures (forall i :: 0 <= i < |sales| ==> sales[i].productName != name) ==> SoldQuantity(sales, name) == 0
  {
    if |sales| > 0 {
      SoldQuantityBounded(sales[..|sales| - 1], name);
    }
  }

  /** `ORDER BY fecha DESC` (most recent first) and the limit as
      `obtener_ventas` applies it: `if limite:` treats a missing limit and 0
      alike as "all rows"; a negative limit also means all rows in SQLite. */
  function ListSales(sales: seq<Sale>, limit: Option<int>): (r: seq<Sale>)
    ensures forall i, j :: 0 <= i < j < |r| ==> r[j].date <= r[i].date
    ensures forall x :: multiset(r)[x] <= multiset(sales)[x]
    ensures limit.None? || limit.value == 0 || limit.value < 0 || |sales| <= limit.value ==> multiset(r) == multiset(sales)
    ensures limit.Some? && 0 < limit.value <= |sales| ==> |r| == limit.value
    ensures forall x, y :: x in r && y in sales && y !in r ==> y.date <= x.date
  {
    var n := if limit.None? || limit.value == 0 then -1 else limit.value;
    NewestSales(sales, n);
    Limit(Sort(sales, SaleDate, Desc), n)
  }

  /** The first `n` sales by date, newest first, are drawn from the ledger,
      and every sale the limit cuts is no newer than every sale kept. */
  lemma NewestSales(sales: seq<Sale>, n: int)
    ensures var r := Limit(Sort(sales, SaleDate, Desc), n);
      && (forall i, j :: 0 <= i < j < |r| ==> r[j].date <= r[i].date)
      && (forall x :: multiset(r)[x] <= multiset(sales)[x])
      && (forall x, y :: x in r && y in sales && y !in r ==> y.date <= x.date)
  {
    var ordered := Sort(sales, SaleDate, Desc);
    var r := Limit(ordered, n);
    LimitKeepsFirst(ordered, n, SaleDate, Desc);
    LimitPart(ordered, n);
    DatesDescend(r);
    DrawnFrom(r, ordered, sales);
    CutIsOlder(r, ordered, sales);
  }

  /** Sales ordered by `SaleDate` descending have non-increasing dates. */
  lemma DatesDescend(r: seq<Sale>)
    requires SortedBy(r, SaleDate, Desc)
    ensures forall i, j :: 0 <= i < j < |r| ==> r[j].date <= r[i].date
  {
    forall i, j | 0 <= i < j < |r| ensures r[j].date <= r[i].date {
      assert Before(Desc, SaleDate(r[i]), SaleDate(r[j]));
    }
  }

  /** Part of a permutation of `sales` holds no sale more often than
      `sales` does. */
  lemma DrawnFrom(r: seq<Sale>, ordered: seq<Sale>, sales: seq<Sale>)
    requires multiset(ordered) == multiset(sales)
    requires forall x :: x in ordered ==> multiset(r)[x] <= multiset(ordered)[x]
    requires forall x :: x in r ==> x in ordered
    ensures forall x :: multiset(r)[x] <= multiset(sales)[x]
  {
    forall x ensures multiset(r)[x] <= multiset(sales)[x] {
      if x !in ordered {
        assert x !in r;
      }
    }
  }

  /** When every cut row of `ordered` comes after every kept one, every sale
      left out is no newer than every sale kept. */
  lemma CutIsOlder(r: seq<Sale>, ordered: seq<Sale>, sales: seq<Sale>)
    requires multiset(ordered) == multiset(sales)
    requires forall x, y :: x in r && y in ordered && y !in r ==> Before(Desc, SaleDate(x), SaleDate(y))
    ensures forall x, y :: x in r && y in sales && y !in r ==> y.date <= x.date
  {
    forall x, y | x in r && y in sales && y !in r ensures y.date <= x.date {
      assert y in multiset(ordered);
      assert Before(Desc, SaleDate(x), SaleDate(y));
    }
  }

  function SaleDate(x: Sale): Key {
    Num(x.date as real)
  }

  /** The best seller as `GROUP BY producto_nombre ORDER BY SUM(cantidad)
      DESC LIMIT 1` reports it, or `("Ninguno", 0)` with no sales. Which of
      several tied names comes first is unspecified; this returns the first
      in ledger order. */
  method TopSeller(sales: seq<Sale>) returns (name: string, sold: int)
    ensures |sales| == 0 ==> name == "Ninguno" && sold == 0
    ensures |sales| > 0 ==> exists i :: 0 <= i < |sales| && sales[i].productName == name
    ensures |sales| > 0 ==> sold == SoldQuantity(sales, name)
    ensures forall i :: 0 <= i < |sales| ==> SoldQuantity(sales, sales[i].productName) <= sold
  {
    if |sales| == 0 {
      return "Ninguno", 0;
    }
    name := sales[0].productName;
    sold := SoldQuantity(sales, name);
    var k := 1;
    while k < |sales|
      invariant 1 <= k <= |sales|
      invariant exists i :: 0 <= i < |sales| && sales[i].productName == name
      invariant sold == SoldQuantity(sales, name)
      invariant forall i :: 0 <= i < k ==> SoldQuantity(sales, sales[i].productName) <= sold
    {
      var candidate := SoldQuantity(sales, sales[k].productName);
      if candidate > sold {
        name, sold := sales[k].productName, candidate;
      }
      k := k + 1;
    }
  }

  // ===== Low stock =====

  /** `WHERE cantidad < 10` on a row of a product table whose stock is
      read by `qty`. */
  function LowRow<P>(qty: P -> int): ((int, P)) -> bool {
    (e: (int, P)) => qty(e.1) < LowStockThreshold
  }

  /** `ORDER BY cantidad`. */
  function QuantityKey<P>(qty: P -> int): ((int, P)) -> Key {
    (e: (int, P)) => Num(qty(e.1) as real)
  }

  /** `all` lists every row of `table` exactly once, as `Scan` returns it. */
  ghost predicate IsScanOf<P>(table: map<int, P>, all: seq<(int, P)>) {
    && (forall e :: e in all ==> e.0 in table && table[e.0] == e.1)
    && (forall id :: id in table ==> multiset(all)[(id, table[id])] == 1)
  }

  /** `SELECT ... WHERE cantidad < 10 ORDER BY cantidad ASC LIMIT limite`:
      the rows with fewer than 10 units, fewest first, at most `limit` of
      them (all when negative). The list is cut only once it is full, and
      only rows with at least as many units as every listed one are cut. */
  method LowStock<P>(table: map<int, P>, qty: P -> int, limit: int) returns (rows: seq<(int, P)>)
    ensures forall e :: e in rows ==> e.0 in table && table[e.0] == e.1 && qty(e.1) < LowStockThreshold
    ensures forall id :: id in table ==> multiset(rows)[(id, table[id])] <= 1
    ensures forall i, j :: 0 <= i < j < |rows| ==> qty(rows[i].1) <= qty(rows[j].1)
    ensures limit >= 0 ==> |rows| <= limit
    ensures limit < 0 || |rows| < limit ==>
      forall id :: id in table && qty(table[id]) < LowStockThreshold ==> (id, table[id]) in rows
    ensures forall i, id :: 0 <= i < |rows| && id in table && qty(table[id]) < LowStockThreshold && (id, table[id]) !in rows ==>
      qty(rows[i].1) <= qty(table[id])
  {
    var all := Scan(table);
    rows := Limit(Sort(Filter(all, LowRow(qty)), QuantityKey(qty), Asc), limit);
    LowStockGenuine(table, qty, all, limit);
    LowStockOrdered(qty, Sort(Filter(all, LowRow(qty)), QuantityKey(qty), Asc), limit);
    LowStockComplete(table, qty, all, limit);
  }

  /** The listed rows are genuine low-stock rows, each at most once. */
  lemma LowStockGenuine<P>(table: map<int, P>, qty: P -> int, all: seq<(int, P)>, limit: int)
    requires IsScanOf(table, all)
    ensures var rows := Limit(Sort(Filter(all, LowRow(qty)), QuantityKey(qty), Asc), limit);
      && (forall e :: e in rows ==> e.0 in table && table[e.0] == e.1 && qty(e.1) < LowStockThreshold)
      && (forall id :: id in table ==> multiset(rows)[(id, table[id])] <= 1)
  {
    var low := Filter(all, LowRow(qty));
    var ordered := Sort(low, QuantityKey(qty), Asc);
    LimitPart(ordered, limit);
    LowRowsGenuine(table, qty, all, ordered);
    LimitOnce(table, ordered, limit);
  }

  /** Sorting the low rows of a scan keeps only genuine low rows, each at
      most once. */
  lemma LowRowsGenuine<P>(table: map<int, P>, qty: P -> int, all: seq<(int, P)>, ordered: seq<(int, P)>)
    requires IsScanOf(table, all)
    requires ordered == Sort(Filter(all, LowRow(qty)), QuantityKey(qty), Asc)
    ensures forall e :: e in ordered ==> e.0 in table && table[e.0] == e.1 && qty(e.1) < LowStockThreshold
    ensures forall id :: id in table ==> multiset(ordered)[(id, table[id])] <= 1
  {
    var low := Filter(all, LowRow(qty));
    LowRowsAreRows(table, qty, all, low, ordered);
    LowRowsOnce(table, qty, all, low, ordered);
  }

  lemma LowRowsAreRows<P>(table: map<int, P>, qty: P -> int, all: seq<(int, P)>, low: seq<(int, P)>,
                          ordered: seq<(int, P)>)
    requires forall e :: e in all ==> e.0 in table && table[e.0] == e.1
    requires forall x :: x in low ==> x in all && LowRow(qty)(x)
    requires multiset(ordered) == multiset(low)
    ensures forall e :: e in ordered ==> e.0 in table && table[e.0] == e.1 && qty(e.1) < LowStockThreshold
  {
    forall e | e in ordered ensures e.0 in table && table[e.0] == e.1 && qty(e.1) < LowStockThreshold {
      assert e in multiset(low);
      assert e in all && LowRow(qty)(e);
    }
  }

  lemma LowRowsOnce<P>(table: map<int, P>, qty: P -> int, all: seq<(int, P)>, low: seq<(int, P)>,
                       ordered: seq<(int, P)>)
    requires forall id :: id in table ==> multiset(all)[(id, table[id])] == 1
    requires forall x :: x in all ==> multiset(low)[x] == if LowRow(qty)(x) then multiset(all)[x] else 0
    requires multiset(ordered) == multiset(low)
    ensures forall id :: id in table ==> multiset(ordered)[(id, table[id])] <= 1
  {
    forall id | id in table ensures multiset(ordered)[(id, table[id])] <= 1 {
      assert (id, table[id]) in multiset(all);
    }
  }

  /** `LIMIT` keeps a prefix, so it repeats no row more often than the
      sorted rows do. */
  lemma LimitOnce<P>(table: map<int, P>, ordered: seq<(int, P)>, limit: int)
    requires forall id :: id in table ==> multiset(ordered)[(id, table[id])] <= 1
    ensures forall id :: id in table ==> multiset(Limit(ordered, limit))[(id, table[id])] <= 1
  {
    var rows := Limit(ordered, limit);
    LimitPart(ordered, limit);
    forall id | id in table ensures multiset(rows)[(id, table[id])] <= 1 {
      var e := (id, table[id]);
      if e !in ordered {
        assert e !in rows;
      }
    }
  }

  /** Rows sorted by quantity and cut by `LIMIT` list the fewest units
      first, and every cut row has at least as many units as any kept one. */
  lemma LowStockOrdered<P>(qty: P -> int, ordered: seq<(int, P)>, limit: int)
    requires SortedBy(ordered, QuantityKey(qty), Asc)
    ensures var rows := Limit(ordered, limit);
      && (forall i, j :: 0 <= i < j < |rows| ==> qty(rows[i].1) <= qty(rows[j].1))
      && (forall x, y :: x in rows && y in ordered && y !in rows ==> qty(x.1) <= qty(y.1))
  {
    LimitKeepsFirst(ordered, limit, QuantityKey(qty), Asc);
    var rows := Limit(ordered, limit);
    forall i, j | 0 <= i < j < |rows| ensures qty(rows[i].1) <= qty(rows[j].1) {
      assert Before(Asc, QuantityKey(qty)(rows[i]), QuantityKey(qty)(rows[j]));
    }
    forall x, y | x in rows && y in ordered && y !in rows ensures qty(x.1) <= qty(y.1) {
      assert Before(Asc, QuantityKey(qty)(x), QuantityKey(qty)(y));
    }
  }

  /** Every low-stock row of the table is listed unless the limit cut it,
      and a cut one has at least as many units as every listed one. */
  lemma LowStockComplete<P>(table: map<int, P>, qty: P -> int, all: seq<(int, P)>, limit: int)
    requires IsScanOf(table, all)
    ensures var rows := Limit(Sort(Filter(all, LowRow(qty)), QuantityKey(qty), Asc), limit);
      && (limit < 0 || |rows| < limit ==>
            forall id :: id in table && qty(table[id]) < LowStockThreshold ==> (id, table[id]) in rows)
      && (forall i, id :: 0 <= i < |rows| && id in table && qty(table[id]) < LowStockThreshold && (id, table[id]) !in rows ==>
            qty(rows[i].1) <= qty(table[id]))
  {
    var low := Filter(all, LowRow(qty));
    var ordered := Sort(low, QuantityKey(qty), Asc);
    LowStockOrdered(qty, ordered, limit);
    LimitPart(ordered, limit);
    forall id | id in table && qty(table[id]) < LowStockThreshold ensures (id, table[id]) in ordered {
      assert LowRow(qty)((id, table[id]));
      assert (id, table[id]) in multiset(low);
      assert (id, table[id]) in multiset(ordered);
    }
  }
}
