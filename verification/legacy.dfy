/**
 The older ledger (`Database`) the web app uses: products with a free-text
 category, the sales ledger and the budget row. It has no categories
 table and no purchase ledger, so the capital it debits for stock bought
 is recorded nowhere else. Opening the database always runs `init_db`,
 which creates the budget row, and nothing deletes it; the operations
 still guard against a missing row, and the model keeps that case for
 generality, behaving as the SQL does on an empty `presupuesto` table.
 */
module Legacy {
  import opened Optional
  import opened Query
  import opened Ledger

  /** Capital of a new database. */
  const InitialCapital: real := 10000.0

  datatype Item = Item(
    name: string,
    description: string,
    price: real,
    quantity: int,
    category: Option<string>,
    added: Timestamp)

  /** The singleton `presupuesto` row. */
  datatype Budget = Budget(capital: real, updated: Timestamp)

  datatype Db = Db(
    products: map<int, Item>,
    sales: seq<Sale>,
    budget: Option<Budget>,
    lastProduct: int,
    lastSale: int)

  datatype Reply<T> = Reply(result: Result<T>, db: Db)

  /** AUTOINCREMENT never reuses a product or sale id. */
  ghost predicate Valid(db: Db) {
    && (forall id :: id in db.products ==> id <= db.lastProduct)
    && (forall i :: 0 <= i < |db.sales| ==> db.sales[i].id <= db.lastSale)
  }

  /** `init_db`: inserts the budget row with capital 10000 when it is
      missing and leaves an existing one alone. */
  function Init(db: Db, now: Timestamp): (t: Db)
    ensures t.budget.Some?
    ensures db.budget.None? ==> t.budget == Some(Budget(InitialCapital, now))
    ensures db.budget.Some? ==> t == db
    ensures t.products == db.products && t.sales == db.sales
  {
    if db.budget.None? then db.(budget := Some(Budget(InitialCapital, now))) else db
  }

  /** An empty database after `init_db`. */
  function Empty(now: Timestamp): (db: Db)
    ensures Valid(db)
    ensures db.products == map[] && db.sales == []
    ensures GetBudget(db) == Some(Budget(InitialCapital, now))
  {
    Init(Db(map[], [], None, 0, 0), now)
  }

  /** `agregar_producto`: buys `quantity` units at `cost` each, or at the
      sale price when no cost is given. With less capital than the total it
      fails and changes nothing; otherwise the product is inserted and the
      capital debited. Without a budget row the capital lookup raises
      before anything is written. */
  function AddProduct(db: Db, name: string, description: string, price: real, quantity: int,
                      category: Option<string>, cost: Option<real>, now: Timestamp): (r: Reply<int>)
    ensures db.budget.None? ==> r == Reply(Err(MissingBudgetRow), db)
    ensures db.budget.Some? ==>
      var total := UnitCost(price, cost) * quantity as real;
      && (r.result.Err? <==> db.budget.value.capital < total)
      && (r.result.Err? ==> r == Reply(Err(InsufficientBudget(db.budget.value.capital, total)), db))
      && (r.result.Ok? ==>
            && r.result.value == db.lastProduct + 1
            && r.db.products == db.products[r.result.value := Item(name, description, price, quantity, category, now)]
            && r.db.budget == Some(Budget(db.budget.value.capital - total, now))
            && r.db.budget.value.capital >= 0.0
            && r.db == db.(products := r.db.products, budget := r.db.budget, lastProduct := r.result.value))
  {
    var total := UnitCost(price, cost) * quantity as real;
    if db.budget.None? then Reply(Err(MissingBudgetRow), db)
    else
      var capital := db.budget.value.capital;
      if capital < total then Reply(Err(InsufficientBudget(capital, total)), db)
      else
        var id := db.lastProduct + 1;
        Reply(Ok(id), db.(products := db.products[id := Item(name, description, price, quantity, category, now)],
                          budget := Some(Budget(capital - total, now)),
                          lastProduct := id))
  }

  /** The unit cost of stock bought: the given cost, or the sale price when
      none is given. */
  function UnitCost(price: real, cost: Option<real>): (u: real)
    ensures cost.Some? ==> u == cost.value
    ensures cost.None? ==> u == price
  {
    if cost.Some? then cost.value else price
  }

  /** A missing cost means the product was bought at its sale price. */
  lemma AddProductDefaultCost(db: Db, name: string, description: string, price: real, quantity: int,
                              category: Option<string>, now: Timestamp)
    ensures AddProduct(db, name, description, price, quantity, category, None, now)
         == AddProduct(db, name, description, price, quantity, category, Some(price), now)
  {
    var r1 := AddProduct(db, name, description, price, quantity, category, None, now);
    var r2 := AddProduct(db, name, description, price, quantity, category, Some(price), now);
    var total := price * quantity as real;
    if db.budget.Some? {
      var capital := db.budget.value.capital;
      if r1.result.Ok? {
        assert r1.db.budget.value.capital == capital - total;
        assert r2.db.budget.value.capital == capital - total;
        assert r1.db == r2.db;
      } else {
        assert r1.result.failure == InsufficientBudget(capital, total);
        assert r2.result.failure == InsufficientBudget(capital, total);
      }
    }
  }

  /** `actualizar_producto`: overwrites every editable field; an unknown id
      updates nothing. */
  function UpdateProduct(db: Db, id: int, name: string, description: string, price: real,
                         quantity: int, category: Option<string>): (t: Db)
    ensures id !in db.products ==> t == db
    ensures id in db.products ==>
      t == db.(products := db.products[id := Item(name, description, price, quantity, category, db.products[id].added)])
  {
    if id !in db.products then db
    else
      var p := db.products[id];
      db.(products := db.products[id := p.(name := name, description := description, price := price,
                                           quantity := quantity, category := category)])
  }

  /** `eliminar_producto`: removes the product; its sales stay. */
  function DeleteProduct(db: Db, id: int): (t: Db)
    ensures t.products.Keys == db.products.Keys - {id}
    ensures forall k :: k in t.products ==> t.products[k] == db.products[k]
    ensures t == db.(products := t.products)
  {
    db.(products := db.products - {id})
  }

  /** Writing a product's old fields back undoes an edit. */
  lemma UpdateProductUndo(db: Db, id: int, name: string, description: string, price: real,
                          quantity: int, category: Option<string>)
    requires id in db.products
    ensures var p := db.products[id];
      UpdateProduct(UpdateProduct(db, id, name, description, price, quantity, category),
                    id, p.name, p.description, p.price, p.quantity, p.category) == db
  {
    var p := db.products[id];
    var t := UpdateProduct(UpdateProduct(db, id, name, description, price, quantity, category),
                           id, p.name, p.description, p.price, p.quantity, p.category);
    assert t.products[id] == p;
    assert t.products == db.products;
  }

  /** Deleting the product just added gives back the products there were
      before; the capital spent on it stays spent. */
  lemma DeleteUndoesAdd(db: Db, name: string, description: string, price: real, quantity: int,
                        category: Option<string>, cost: Option<real>, now: Timestamp)
    requires Valid(db)
    requires AddProduct(db, name, description, price, quantity, category, cost, now).result.Ok?
    ensures var r := AddProduct(db, name, description, price, quantity, category, cost, now);
      && DeleteProduct(r.db, r.result.value).products == db.products
      && DeleteProduct(r.db, r.result.value).budget == r.db.budget
  {
    var r := AddProduct(db, name, description, price, quantity, category, cost, now);
    var id := r.result.value;
    assert id !in db.products;
    assert DeleteProduct(r.db, id).products == db.products;
  }

  /** `actualizar_stock`: adds a signed delta to the stock, with no check. */
  function AdjustStock(db: Db, id: int, delta: int): (t: Db)
    ensures id !in db.products ==> t == db
    ensures id in db.products ==>
      && t.products.Keys == db.products.Keys
      && t.products[id].quantity == db.products[id].quantity + delta
      && t.products[id] == db.products[id].(quantity := t.products[id].quantity)
      && (forall k :: k in db.products && k != id ==> t.products[k] == db.products[k])
      && t == db.(products := t.products)
  {
    if id !in db.products then db
    else db.(products := db.products[id := db.products[id].(quantity := db.products[id].quantity + delta)])
  }

  /** Adjusting by a delta and then by its negation restores the database. */
  lemma AdjustStockUndo(db: Db, id: int, delta: int)
    ensures AdjustStock(AdjustStock(db, id, delta), id, -delta) == db
  {
    if id in db.products {
      var t := AdjustStock(AdjustStock(db, id, delta), id, -delta);
      assert t.products[id] == db.products[id];
      assert t.products == db.products;
    }
  }

  /** Nothing stops the stock from going below zero. */
  lemma AdjustStockCanGoNegative()
    ensures var db := Db(map[1 := Item("x", "", 1.0, 2, None, 0)], [], None, 1, 0);
      db.products[1].quantity >= 0 && AdjustStock(db, 1, -3).products[1].quantity < 0
  {
  }

  /** `registrar_venta`: as in the current ledger, an unknown product or too
      little stock fails and changes nothing; otherwise the sale row, the
      stock decrement and the credit are committed together. Without a
      budget row the credit updates no row, but the sale and the stock
      change are still committed. */
  function RegisterSale(db: Db, productId: int, quantity: int, now: Timestamp): (r: Reply<int>)
    ensures productId !in db.products ==> r == Reply(Err(ProductNotFound), db)
    ensures productId in db.products && db.products[productId].quantity < quantity ==>
      r == Reply(Err(InsufficientStock(db.products[productId].quantity)), db)
    ensures r.result.Ok? <==> productId in db.products && quantity <= db.products[productId].quantity
    ensures r.result.Ok? ==> r.result.value == db.lastSale + 1
    ensures r.result.Ok? ==>
      var p := db.products[productId];
      && r.db.products == db.products[productId := p.(quantity := p.quantity - quantity)]
      && r.db.products[productId].quantity >= 0
    ensures r.result.Ok? ==> |r.db.sales| == |db.sales| + 1 && r.db.sales[..|db.sales|] == db.sales
    ensures r.result.Ok? ==>
      var p, x := db.products[productId], r.db.sales[|db.sales|];
      && x.id == r.result.value && x.productId == productId && x.date == now
      && x.productName == p.name && x.quantity == quantity
      && x.unitPrice == p.price && x.total == p.price * quantity as real
    ensures r.result.Ok? && db.budget.Some? ==>
      && r.db.budget.Some? && r.db.budget.value.updated == now
      && r.db.budget.value.capital == db.budget.value.capital + db.products[productId].price * quantity as real
    ensures r.result.Ok? && db.budget.None? ==> r.db.budget.None?
  {
    if productId !in db.products then Reply(Err(ProductNotFound), db)
    else
      var p := db.products[productId];
      if p.quantity < quantity then Reply(Err(InsufficientStock(p.quantity)), db)
      else
        var total := p.price * quantity as real;
        var saleId := db.lastSale + 1;
        var row := Sale(saleId, productId, p.name, quantity, p.price, total, now);
        var budget := if db.budget.Some? then Some(Budget(db.budget.value.capital + total, now)) else None;
        Reply(Ok(saleId), db.(products := db.products[productId := p.(quantity := p.quantity - quantity)],
                              sales := db.sales + [row],
                              budget := budget,
                              lastSale := saleId))
  }

  /** Every operation keeps ids fresh. */
  lemma AddProductKeepsValid(db: Db, name: string, description: string, price: real, quantity: int,
                             category: Option<string>, cost: Option<real>, now: Timestamp)
    requires Valid(db)
    ensures var r := AddProduct(db, name, description, price, quantity, category, cost, now);
      Valid(r.db) && (r.result.Ok? ==> r.result.value !in db.products)
  {
  }

  lemma RegisterSaleKeepsValid(db: Db, productId: int, quantity: int, now: Timestamp)
    requires Valid(db)
    ensures var r := RegisterSale(db, productId, quantity, now);
      Valid(r.db) && (r.result.Ok? ==> forall i :: 0 <= i < |db.sales| ==> db.sales[i].id != r.result.value)
  {
    var r := RegisterSale(db, productId, quantity, now);
    if r.result.Ok? {
      assert forall i :: 0 <= i < |db.sales| ==> r.db.sales[i] == db.sales[i];
    }
  }

  /** Without a budget row a sale is recorded and the stock goes down, but
      the capital does not exist to be credited: the takings and the cash
      drift apart. */
  lemma SaleWithoutBudgetRow()
    ensures var db := Db(map[1 := Item("x", "", 2.0, 5, None, 0)], [], None, 1, 0);
      var r := RegisterSale(db, 1, 3, 0);
      && r.result == Ok(1)
      && SalesTotal(r.db.sales) == 6.0
      && GetBudget(r.db) == None
  {
    var db := Db(map[1 := Item("x", "", 2.0, 5, None, 0)], [], None, 1, 0);
    var r := RegisterSale(db, 1, 3, 0);
    SalesTotalAppend([], r.db.sales[0]);
    assert r.db.sales == [] + [r.db.sales[0]];
  }

  /** `obtener_ventas`: shares the query of the current ledger. */
  function ListSalesOf(db: Db, limit: Option<int>): (r: seq<Sale>)
    ensures forall i, j :: 0 <= i < j < |r| ==> r[j].date <= r[i].date
    ensures forall x :: multiset(r)[x] <= multiset(db.sales)[x]
    ensures limit.None? || limit.value <= 0 || |db.sales| <= limit.value ==> multiset(r) == multiset(db.sales)
    ensures limit.Some? && 0 < limit.value <= |db.sales| ==> |r| == limit.value
    ensures forall x, y :: x in r && y in db.sales && y !in r ==> y.date <= x.date
  {
    ListSales(db.sales, limit)
  }

  /** `obtener_presupuesto`: the capital and the time it was last set, or
      nothing when the budget row is missing. */
  function GetBudget(db: Db): (r: Option<Budget>)
    ensures r.None? <==> db.budget.None?
    ensures r.Some? ==> r.value.capital == db.budget.value.capital && r.value.updated == db.budget.value.updated
  {
    db.budget
  }

  /** `actualizar_presupuesto`: overwrites the capital with any value and
      answers true; without a budget row the update touches nothing and
      still answers true. */
  function SetBudget(db: Db, capital: real, now: Timestamp): (r: (bool, Db))
    ensures r.0
    ensures db.budget.Some? ==> GetBudget(r.1) == Some(Budget(capital, now))
    ensures db.budget.None? ==> r.1 == db
    ensures r.1.products == db.products && r.1.sales == db.sales
  {
    if db.budget.None? then (true, db)
    else (true, db.(budget := Some(Budget(capital, now))))
  }

  /** Setting the capital twice is setting it once to the second value. */
  lemma SetBudgetLastWins(db: Db, first: real, second: real, t1: Timestamp, t2: Timestamp)
    ensures SetBudget(SetBudget(db, first, t1).1, second, t2) == SetBudget(db, second, t2)
  {
  }

  /** `obtener_productos_bajo_stock(limite)`: the same query as in the
      current ledger, over the items table. */
  method LowStockItems(db: Db, limit: int) returns (rows: seq<(int, Item)>)
    ensures forall e :: e in rows ==> e.0 in db.products && db.products[e.0] == e.1 && e.1.quantity < LowStockThreshold
    ensures forall id :: id in db.products ==> multiset(rows)[(id, db.products[id])] <= 1
    ensures forall i, j :: 0 <= i < j < |rows| ==> rows[i].1.quantity <= rows[j].1.quantity
    ensures limit >= 0 ==> |rows| <= limit
    ensures limit < 0 || |rows| < limit ==>
      forall id :: id in db.products && db.products[id].quantity < LowStockThreshold ==> (id, db.products[id]) in rows
    ensures forall i, id :: 0 <= i < |rows| && id in db.products && db.products[id].quantity < LowStockThreshold
                            && (id, db.products[id]) !in rows ==>
      rows[i].1.quantity <= db.products[id].quantity
  {
    rows := LowStock(db.products, (p: Item) => p.quantity, limit);
  }

  /** `obtener_producto_mas_vendido`: the best seller by units sold. */
  method TopSellerOf(db: Db) returns (name: string, sold: int)
    ensures |db.sales| == 0 ==> name == "Ninguno" && sold == 0
    ensures |db.sales| > 0 ==> exists i :: 0 <= i < |db.sales| && db.sales[i].productName == name
    ensures |db.sales| > 0 ==> sold == SoldQuantity(db.sales, name)
    ensures forall i :: 0 <= i < |db.sales| ==> SoldQuantity(db.sales, db.sales[i].productName) <= sold
  {
    name, sold := TopSeller(db.sales);
  }

  /** `obtener_productos`: every item once, ordered by name. */
  method ListItems(db: Db) returns (rows: seq<(int, Item)>)
    ensures forall e :: e in rows ==> e.0 in db.products && db.products[e.0] == e.1
    ensures forall id :: id in db.products ==> multiset(rows)[(id, db.products[id])] == 1
    ensures forall i, j :: 0 <= i < j < |rows| ==> TextLe(rows[i].1.name, rows[j].1.name)
  {
    var key := (p: Item) => Str(p.name);
    rows := ScanSorted(db.products, key, Asc);
    forall i, j | 0 <= i < j < |rows| ensures TextLe(rows[i].1.name, rows[j].1.name) {
      assert Before(Asc, key(rows[i].1), key(rows[j].1));
    }
  }

  /** The figures `obtener_estadisticas` reports; `today` is the current day. */
  datatype Stats = Stats(products: nat, sales: nat, salesToday: real, revenue: real, lowStock: nat)

  function LowStockIds(db: Db): set<int> {
    set id | id in db.products && db.products[id].quantity < LowStockThreshold
  }

  function Statistics(db: Db, today: nat): (r: Stats)
    ensures r.lowStock <= r.products
    ensures db.sales == [] ==> r.sales == 0 && r.revenue == 0.0 && r.salesToday == 0.0
  {
    var low := LowStockIds(db);
    assert db.products.Keys == low + (db.products.Keys - low);
    Stats(|db.products|, |db.sales|, DayTotal(db.sales, today), SalesTotal(db.sales), |low|)
  }

  /** The total earnings the statistics report are the sum of every sale
      ever registered: a sale raises the count by one and the earnings by
      its total. */
  lemma StatisticsAfterSale(db: Db, productId: int, quantity: int, now: Timestamp, today: nat)
    requires RegisterSale(db, productId, quantity, now).result.Ok?
    ensures var before, after := Statistics(db, today), Statistics(RegisterSale(db, productId, quantity, now).db, today);
      && after.sales == before.sales + 1
      && after.revenue == before.revenue + db.products[productId].price * quantity as real
      && after.products == before.products
  {
    var r := RegisterSale(db, productId, quantity, now);
    SalesTotalAppend(db.sales, r.db.sales[|db.sales|]);
    assert r.db.sales == db.sales + [r.db.sales[|db.sales|]];
  }
}
