/**
 The current inventory ledger (`DatabaseManager`): categories, products with
 a display order, the sales and purchase ledgers and the cash balance
 (`capital`). Every operation reads the store, checks, and either fails
 leaving the store as it was (the source closes the connection before any
 write or commit) or applies all of its writes together.
 */
module Manager {
  import opened Optional
  import opened Query
  import opened Ledger
  import Text

  /** Capital of a new database. */
  const InitialCapital: real := 50000.0

  /** Supplier recorded on the purchase that `agregar_producto` logs. */
  const GeneralSupplier: string := "Proveedor General"

  /** Default of `crear_categoria`'s colour. */
  const DefaultColor: string := "#3B82F6"

  datatype Category = Category(
    name: string,
    description: string,
    color: string,
    icon: string,
    created: Timestamp)

  datatype Product = Product(
    name: string,
    description: string,
    price: real,
    quantity: int,
    categoryId: Option<int>,
    handling: string,
    usage: string,
    notes: string,
    displayOrder: int,
    added: Timestamp)

  /** One row of `compras`; like a sale it keeps a copy of the product name. */
  datatype Purchase = Purchase(
    id: int,
    productId: int,
    productName: string,
    quantity: int,
    unitCost: real,
    total: real,
    supplier: string,
    date: Timestamp)

  /** The largest row id each AUTOINCREMENT table has handed out. */
  datatype LastIds = LastIds(category: int, product: int, sale: int, purchase: int)

  datatype Store = Store(
    categories: map<int, Category>,
    products: map<int, Product>,
    sales: seq<Sale>,
    purchases: seq<Purchase>,
    capital: real,
    capitalUpdated: Timestamp,
    last: LastIds)

  /** What an operation returns, and the store it leaves behind. */
  datatype Reply<T> = Reply(result: Result<T>, store: Store)

  /** Facts the schema guarantees of every store: AUTOINCREMENT never reuses
      an id, and category names are UNIQUE. */
  ghost predicate Valid(s: Store) {
    && (forall id :: id in s.categories ==> id <= s.last.category)
    && (forall id :: id in s.products ==> id <= s.last.product)
    && (forall i :: 0 <= i < |s.sales| ==> s.sales[i].id <= s.last.sale)
    && (forall i :: 0 <= i < |s.purchases| ==> s.purchases[i].id <= s.last.purchase)
    && UniqueNames(s.categories)
  }

  ghost predicate UniqueNames(categories: map<int, Category>) {
    forall a, b :: a in categories && b in categories && categories[a].name == categories[b].name ==> a == b
  }

  predicate NameTaken(categories: map<int, Category>, name: string) {
    exists id :: id in categories && categories[id].name == name
  }

  /** `SUM(total)` over the purchase ledger. */
  function PurchasesTotal(purchases: seq<Purchase>): real {
    if |purchases| == 0 then 0.0
    else PurchasesTotal(purchases[..|purchases| - 1]) + purchases[|purchases| - 1].total
  }

  lemma PurchasesTotalAppend(purchases: seq<Purchase>, x: Purchase)
    ensures PurchasesTotal(purchases + [x]) == PurchasesTotal(purchases) + x.total
  {
    assert (purchases + [x])[..|purchases|] == purchases;
  }

  /** The part of the capital that sales and purchases do not explain: it
      starts as the initial capital and only a manual override changes it. */
  function Drift(s: Store): real {
    s.capital - SalesTotal(s.sales) + PurchasesTotal(s.purchases)
  }

  // ===== Initial state =====

  /** The twelve categories a new database is seeded with:
      name, description, colour, icon. */
  const DefaultCategories: seq<(string, string, string, string)> := [
    ("Electr\U{F3}nica", "Dispositivos y equipos electr\U{F3}nicos", "#3B82F6", "\U{1F4F1}"),
    ("Oficina", "Suministros y equipos de oficina", "#10B981", "\U{1F58A}\U{FE0F}"),
    ("Hogar", "Art\U{ED}culos para el hogar", "#F59E0B", "\U{1F3E0}"),
    ("Tecnolog\U{ED}a", "Computadoras y accesorios", "#8B5CF6", "\U{1F4BB}"),
    ("Deportes", "Equipamiento deportivo", "#EF4444", "\U{26BD}"),
    ("Libros", "Libros y material educativo", "#06B6D4", "\U{1F4DA}"),
    ("Compras", "Productos adquiridos de proveedores", "#EC4899", "\U{1F6D2}"),
    ("Alimentos", "Productos alimenticios", "#84CC16", "\U{1F34E}"),
    ("Ropa", "Vestimenta y accesorios", "#F97316", "\U{1F455}"),
    ("Herramientas", "Herramientas y equipos", "#64748B", "\U{1F527}"),
    ("Jugueter\U{ED}a", "Juguetes y entretenimiento", "#A855F7", "\U{1F9F8}"),
    ("Farmacia", "Productos m\U{E9}dicos y farmac\U{E9}uticos", "#14B8A6", "\U{1F48A}")
  ]

  /** The seeding loop of `init_db`: each default category whose name is not
      yet taken is inserted with the next id; taken names are skipped. */
  function Seed(s: Store, defaults: seq<(string, string, string, string)>, now: Timestamp): (t: Store)
    requires Valid(s)
    ensures Valid(t)
    ensures forall i :: 0 <= i < |defaults| ==> NameTaken(t.categories, defaults[i].0)
    ensures forall id :: id in s.categories ==> id in t.categories && t.categories[id] == s.categories[id]
    ensures t == s.(categories := t.categories, last := s.last.(category := t.last.category))
    ensures (forall i :: 0 <= i < |defaults| ==> NameTaken(s.categories, defaults[i].0)) ==> t == s
    decreases |defaults|
  {
    if |defaults| == 0 then s
    else
      var d := defaults[0];
      assert forall i :: 1 <= i < |defaults| ==> defaults[i].0 == defaults[1..][i - 1].0;
      if NameTaken(s.categories, d.0) then
        Seed(s, defaults[1..], now)
      else
        InsertCategoryValid(s, d, now);
        var next := InsertCategory(s, d, now);
        var t := Seed(next, defaults[1..], now);
        assert t.categories[next.last.category].name == d.0;
        t
  }

  /** Seeding adds nothing but the defaults, each with its own description,
      colour and icon. */
  lemma {:induction false} SeedFromDefaults(s: Store, defaults: seq<(string, string, string, string)>, now: Timestamp)
    requires Valid(s)
    ensures var t := Seed(s, defaults, now);
      forall id :: id in t.categories && id !in s.categories ==> FromDefaults(t.categories[id], defaults, now)
    decreases |defaults|
  {
    if |defaults| > 0 {
      var t := Seed(s, defaults, now);
      if NameTaken(s.categories, defaults[0].0) {
        assert t == Seed(s, defaults[1..], now);
        SeedFromDefaults(s, defaults[1..], now);
        NewFromDefaults(s, s, t, defaults, now);
      } else {
        InsertCategoryValid(s, defaults[0], now);
        var next := InsertCategory(s, defaults[0], now);
        assert t == Seed(next, defaults[1..], now);
        SeedFromDefaults(next, defaults[1..], now);
        NewFromDefaults(s, next, t, defaults, now);
      }
    }
  }

  /** The category a default (name, description, colour, icon) becomes. */
  function AsCategory(d: (string, string, string, string), now: Timestamp): Category {
    Category(d.0, d.1, d.2, d.3, now)
  }

  /** `c` is one of the defaults, created at `now`. */
  predicate FromDefaults(c: Category, defaults: seq<(string, string, string, string)>, now: Timestamp) {
    exists i :: 0 <= i < |defaults| && c == AsCategory(defaults[i], now)
  }

  /** One seeding step adds at most the first default, and the rest of the
      loop only the remaining ones. */
  lemma NewFromDefaults(s: Store, next: Store, t: Store, defaults: seq<(string, string, string, string)>,
                        now: Timestamp)
    requires |defaults| > 0
    requires next == s || next == InsertCategory(s, defaults[0], now)
    requires forall id :: id in next.categories ==> id in t.categories && t.categories[id] == next.categories[id]
    requires forall id :: id in t.categories && id !in next.categories ==> FromDefaults(t.categories[id], defaults[1..], now)
    ensures forall id :: id in t.categories && id !in s.categories ==> FromDefaults(t.categories[id], defaults, now)
  {
    forall id | id in t.categories && id !in s.categories
      ensures FromDefaults(t.categories[id], defaults, now)
    {
      if id in next.categories {
        assert t.categories[id] == AsCategory(defaults[0], now);
      } else {
        var i :| 0 <= i < |defaults[1..]| && t.categories[id] == AsCategory(defaults[1..][i], now);
        assert defaults[1..][i] == defaults[i + 1];
      }
    }
  }

  /** The store `init_db` creates from an empty database: capital 50000,
      the default categories, no products, sales or purchases. */
  function Fresh(now: Timestamp): (s: Store)
    ensures s.capital == InitialCapital
    ensures s.products == map[] && s.sales == [] && s.purchases == []
    ensures forall i :: 0 <= i < |DefaultCategories| ==> NameTaken(s.categories, DefaultCategories[i].0)
    ensures forall id :: id in s.categories ==> FromDefaults(s.categories[id], DefaultCategories, now)
  {
    SeedFromDefaults(Store(map[], map[], [], [], InitialCapital, now, LastIds(0, 0, 0, 0)), DefaultCategories, now);
    Seed(Store(map[], map[], [], [], InitialCapital, now, LastIds(0, 0, 0, 0)), DefaultCategories, now)
  }

  /** The default colour and every seeded category's colour are hex
      colours `#RRGGBB`. */
  lemma DefaultColorsValid()
    ensures Text.ValidColor(DefaultColor)
    ensures forall i :: 0 <= i < |DefaultCategories| ==> Text.ValidColor(DefaultCategories[i].2)
  {
  }

  /** Names of the defaults, pairwise distinct. */
  predicate DistinctNames(defaults: seq<(string, string, string, string)>) {
    forall i, j :: 0 <= i < j < |defaults| ==> defaults[i].0 != defaults[j].0
  }

  /** Seeding with distinct names none of which is taken inserts one new
      category per default. */
  lemma {:induction false} SeedInsertsAll(s: Store, defaults: seq<(string, string, string, string)>, now: Timestamp)
    requires Valid(s) && DistinctNames(defaults)
    requires forall i :: 0 <= i < |defaults| ==> !NameTaken(s.categories, defaults[i].0)
    ensures |Seed(s, defaults, now).categories| == |s.categories| + |defaults|
    decreases |defaults|
  {
    if |defaults| > 0 {
      InsertCategoryValid(s, defaults[0], now);
      var next := InsertCategory(s, defaults[0], now);
      assert Seed(s, defaults, now) == Seed(next, defaults[1..], now);
      SeedRestFree(s, defaults, now);
      SeedInsertsAll(next, defaults[1..], now);
    }
  }

  /** A category inserted under the next id, as both `crear_categoria` and
      the seeding loop do. */
  function InsertCategory(s: Store, d: (string, string, string, string), now: Timestamp): Store {
    var id := s.last.category + 1;
    s.(categories := s.categories[id := AsCategory(d, now)], last := s.last.(category := id))
  }

  /** Inserting a category whose name is free keeps the store valid and
      adds one category. */
  lemma InsertCategoryValid(s: Store, d: (string, string, string, string), now: Timestamp)
    requires Valid(s) && !NameTaken(s.categories, d.0)
    ensures Valid(InsertCategory(s, d, now))
    ensures |InsertCategory(s, d, now).categories| == |s.categories| + 1
  {
    assert forall k :: k in s.categories ==> s.categories[k].name != d.0;
    assert s.last.category + 1 !in s.categories;
  }

  /** After the first default is inserted, the remaining names are still free. */
  lemma SeedRestFree(s: Store, defaults: seq<(string, string, string, string)>, now: Timestamp)
    requires |defaults| > 0 && DistinctNames(defaults)
    requires forall i :: 0 <= i < |defaults| ==> !NameTaken(s.categories, defaults[i].0)
    ensures var c := InsertCategory(s, defaults[0], now).categories;
      && DistinctNames(defaults[1..])
      && forall i :: 0 <= i < |defaults[1..]| ==> !NameTaken(c, defaults[1..][i].0)
  {
    var c := InsertCategory(s, defaults[0], now).categories;
    var id := s.last.category + 1;
    var rest := defaults[1..];
    forall i | 0 <= i < |rest| ensures !NameTaken(c, rest[i].0) {
      assert rest[i] == defaults[i + 1];
      assert !NameTaken(s.categories, defaults[i + 1].0);
      assert forall k :: k in c ==> k == id || k in s.categories;
    }
    assert forall i :: 0 <= i < |rest| ==> rest[i] == defaults[i + 1];
  }

  /** A new database holds exactly the twelve default categories. */
  lemma FreshHasTwelveCategories(now: Timestamp)
    ensures |Fresh(now).categories| == 12
  {
    var s := Store(map[], map[], [], [], InitialCapital, now, LastIds(0, 0, 0, 0));
    DefaultNamesDistinct();
    SeedInsertsAll(s, DefaultCategories, now);
  }

  /** The twelve default names differ: in their first letter, or, for the
      two starting with H, in length. */
  lemma DefaultNamesDistinct()
    ensures DistinctNames(DefaultCategories)
  {
    var d := DefaultCategories;
    forall i, j | 0 <= i < j < |d| ensures d[i].0 != d[j].0 {
      assert d[i].0[0] != d[j].0[0] || |d[i].0| != |d[j].0|;
    }
  }

  /** Every default category is in a new database with its description,
      colour and icon. */
  lemma FreshHasDefaults(now: Timestamp)
    ensures forall i :: 0 <= i < |DefaultCategories| ==> HasDefault(Fresh(now).categories, DefaultCategories[i], now)
  {
    DefaultNamesDistinct();
    DefaultsPresent(Fresh(now).categories, DefaultCategories, now);
  }

  /** Some category is the default `d`, created at `now`. */
  predicate HasDefault(c: map<int, Category>, d: (string, string, string, string), now: Timestamp) {
    exists id :: id in c && c[id] == AsCategory(d, now)
  }

  /** Categories that take every default name and hold nothing but defaults
      with distinct names hold each default in full. */
  lemma DefaultsPresent(c: map<int, Category>, defaults: seq<(string, string, string, string)>, now: Timestamp)
    requires DistinctNames(defaults)
    requires forall i :: 0 <= i < |defaults| ==> NameTaken(c, defaults[i].0)
    requires forall id :: id in c ==> FromDefaults(c[id], defaults, now)
    ensures forall i :: 0 <= i < |defaults| ==> HasDefault(c, defaults[i], now)
  {
    forall i | 0 <= i < |defaults|
      ensures HasDefault(c, defaults[i], now)
    {
      assert NameTaken(c, defaults[i].0);
      var id :| id in c && c[id].name == defaults[i].0;
      assert FromDefaults(c[id], defaults, now);
      var j :| 0 <= j < |defaults| && c[id] == AsCategory(defaults[j], now);
      assert j == i;
    }
  }

  // ===== Categories =====

  /** `crear_categoria`: the UNIQUE name column rejects a name already in use. */
  function CreateCategory(s: Store, name: string, description: string, color: string, icon: string,
                          now: Timestamp): (r: Reply<int>)
    ensures NameTaken(s.categories, name) <==> r.result.Err?
    ensures r.result.Err? ==> r == Reply(Err(DuplicateCategoryName), s)
    ensures r.result.Ok? ==>
      && r.result.value == s.last.category + 1
      && r.store.categories == s.categories[r.result.value := Category(name, description, color, icon, now)]
      && r.store == s.(categories := r.store.categories, last := s.last.(category := r.result.value))
  {
    if NameTaken(s.categories, name) then Reply(Err(DuplicateCategoryName), s)
    else Reply(Ok(s.last.category + 1), InsertCategory(s, (name, description, color, icon), now))
  }

  /** `actualizar_categoria`: overwrites the row without a check of its own;
      the UNIQUE constraint still raises when another category has the new
      name. An unknown id updates nothing. */
  function UpdateCategory(s: Store, id: int, name: string, description: string, color: string,
                          icon: string): (r: Reply<bool>)
    ensures id !in s.categories ==> r == Reply(Ok(true), s)
    ensures id in s.categories ==>
      ((exists other :: other in s.categories && other != id && s.categories[other].name == name)
       <==> r.result.Err?)
    ensures r.result.Err? ==> r == Reply(Err(IntegrityError), s)
    ensures r.result.Ok? && id in s.categories ==>
      && r.store.categories == s.categories[id := Category(name, description, color, icon, s.categories[id].created)]
      && r.store == s.(categories := r.store.categories)
  {
    if id !in s.categories then Reply(Ok(true), s)
    else if exists other :: other in s.categories && other != id && s.categories[other].name == name then
      Reply(Err(IntegrityError), s)
    else
      var c := s.categories[id];
      Reply(Ok(true), s.(categories := s.categories[id := Category(name, description, color, icon, c.created)]))
  }

  /** The products whose category is `categoryId`. */
  function ProductsIn(products: map<int, Product>, categoryId: int): set<int> {
    set id | id in products && products[id].categoryId == Some(categoryId)
  }

  /** `eliminar_categoria`: refused, with the count, while any product
      refers to the category; otherwise the category (if any) is removed. */
  function DeleteCategory(s: Store, id: int): (r: Reply<bool>)
    ensures r.result.Err? <==> exists p :: p in s.products && s.products[p].categoryId == Some(id)
    ensures r.result.Err? ==> r == Reply(Err(CategoryInUse(|ProductsIn(s.products, id)|)), s) && |ProductsIn(s.products, id)| > 0
    ensures r.result.Ok? ==> r.store == s.(categories := s.categories - {id}) && r.store.categories.Keys == s.categories.Keys - {id}
  {
    var using := ProductsIn(s.products, id);
    EmptyOrInhabited(using);
    assert forall p :: p in s.products && s.products[p].categoryId == Some(id) ==> p in using;
    if |using| > 0 then Reply(Err(CategoryInUse(|using|)), s)
    else Reply(Ok(true), s.(categories := s.categories - {id}))
  }

  /** `obtener_categorias`: every category once, ordered by name. */
  method ListCategories(s: Store) returns (rows: seq<(int, Category)>)
    ensures forall e :: e in rows ==> e.0 in s.categories && s.categories[e.0] == e.1
    ensures forall id :: id in s.categories ==> multiset(rows)[(id, s.categories[id])] == 1
    ensures forall i, j :: 0 <= i < j < |rows| ==> TextLe(rows[i].1.name, rows[j].1.name)
  {
    var key := (c: Category) => Str(c.name);
    rows := ScanSorted(s.categories, key, Asc);
    forall i, j | 0 <= i < j < |rows| ensures TextLe(rows[i].1.name, rows[j].1.name) {
      assert Before(Asc, key(rows[i].1), key(rows[j].1));
    }
  }

  // ===== Products =====

  function MaxDisplayOrder(products: map<int, Product>): (m: int)
    requires products != map[]
    ensures exists id :: id in products && products[id].displayOrder == m
    ensures forall id :: id in products ==> products[id].displayOrder <= m
  {
    var orders := set id | id in products :: products[id].displayOrder;
    EmptyOrInhabited(products.Keys);
    var some :| some in products;
    assert forall id :: id in products ==> products[id].displayOrder in orders;
    HasMax(orders);
    var m :| m in orders && forall o :: o in orders ==> o <= m;
    m
  }

  lemma {:induction false} HasMax(xs: set<int>)
    requires xs != {}
    ensures exists m :: m in xs && forall x :: x in xs ==> x <= m
  {
    EmptyOrInhabited(xs);
    var y :| y in xs;
    var rest := xs - {y};
    assert forall x :: x in xs ==> x == y || x in rest;
    if rest != {} {
      HasMax(rest);
      var m :| m in rest && forall x :: x in rest ==> x <= m;
      var top := if m < y then y else m;
      assert forall x :: x in xs ==> x <= top;
    }
  }

  /** `(MAX(orden_visualizacion) or 0) + 1`: 1 for the first product,
      otherwise one past the largest display order in use. */
  function NextDisplayOrder(products: map<int, Product>): (o: int)
    ensures products == map[] ==> o == 1
    ensures forall id :: id in products ==> products[id].displayOrder < o
    ensures products != map[] ==> exists id :: id in products && products[id].displayOrder == o - 1
  {
    if products == map[] then 1 else MaxDisplayOrder(products) + 1
  }

  /** `agregar_producto`: buys `quantity` units at `cost` each. With less
      capital than the total it fails and changes nothing; otherwise the
      product, its purchase record and the debit are applied together. */
  function AddProduct(s: Store, name: string, description: string, price: real, quantity: int,
                      categoryId: Option<int>, cost: real, handling: string, usage: string,
                      notes: string, now: Timestamp): (r: Reply<int>)
    ensures r.result.Err? <==> s.capital < cost * quantity as real
    ensures r.result.Err? ==> r == Reply(Err(InsufficientBudget(s.capital, cost * quantity as real)), s)
    ensures r.result.Ok? ==>
      var id := r.result.value;
      var total := cost * quantity as real;
      && id == s.last.product + 1
      && r.store.products == s.products[id := Product(name, description, price, quantity, categoryId,
                                                      handling, usage, notes, NextDisplayOrder(s.products), now)]
      && r.store.purchases == s.purchases + [Purchase(s.last.purchase + 1, id, name, quantity, cost, total, GeneralSupplier, now)]
      && r.store.capital == s.capital - total
      && r.store.capital >= 0.0
      && r.store.categories == s.categories && r.store.sales == s.sales
  {
    var total := cost * quantity as real;
    if s.capital < total then Reply(Err(InsufficientBudget(s.capital, total)), s)
    else
      var id := s.last.product + 1;
      var purchaseId := s.last.purchase + 1;
      var p := Product(name, description, price, quantity, categoryId, handling, usage, notes,
                       NextDisplayOrder(s.products), now);
      Reply(Ok(id), s.(products := s.products[id := p],
                       purchases := s.purchases + [Purchase(purchaseId, id, name, quantity, cost, total, GeneralSupplier, now)],
                       capital := s.capital - total,
                       capitalUpdated := now,
                       last := s.last.(product := id, purchase := purchaseId)))
  }

  /** `actualizar_producto`: overwrites the editable fields; the display
      order, the date added, the capital and the ledgers are untouched. An
      unknown id updates nothing. */
  function UpdateProduct(s: Store, id: int, name: string, description: string, price: real,
                         quantity: int, categoryId: Option<int>, handling: string, usage: string,
                         notes: string): (t: Store)
    ensures id !in s.products ==> t == s
    ensures id in s.products ==>
      var old_ := s.products[id];
      && t.products == s.products[id := Product(name, description, price, quantity, categoryId,
                                                handling, usage, notes, old_.displayOrder, old_.added)]
      && t == s.(products := t.products)
  {
    if id !in s.products then s
    else
      var p := s.products[id];
      s.(products := s.products[id := p.(name := name, description := description, price := price,
                                         quantity := quantity, categoryId := categoryId,
                                         handling := handling, usage := usage, notes := notes)])
  }

  /** `reordenar_producto`: sets one product's display order. */
  function Reorder(s: Store, id: int, order: int): (t: Store)
    ensures t.products.Keys == s.products.Keys
    ensures forall k :: k in s.products && k != id ==> t.products[k] == s.products[k]
    ensures id in s.products ==>
      t.products[id].displayOrder == order && t.products[id].(displayOrder := s.products[id].displayOrder) == s.products[id]
    ensures t == s.(products := t.products)
  {
    if id !in s.products then s
    else s.(products := s.products[id := s.products[id].(displayOrder := order)])
  }

  /** Putting the old display order back undoes a reorder. */
  lemma ReorderUndo(s: Store, id: int, order: int)
    requires id in s.products
    ensures Reorder(Reorder(s, id, order), id, s.products[id].displayOrder) == s
  {
    var t := Reorder(Reorder(s, id, order), id, s.products[id].displayOrder);
    assert t.products == s.products;
  }

  /** `mover_producto_categoria`: sets one product's category. Foreign keys
      are not enforced, so the target need not exist. */
  function MoveToCategory(s: Store, id: int, categoryId: Option<int>): (t: Store)
    ensures t.products.Keys == s.products.Keys
    ensures forall k :: k in s.products && k != id ==> t.products[k] == s.products[k]
    ensures id in s.products ==>
      t.products[id].categoryId == categoryId && t.products[id].(categoryId := s.products[id].categoryId) == s.products[id]
    ensures t == s.(products := t.products)
  {
    if id !in s.products then s
    else s.(products := s.products[id := s.products[id].(categoryId := categoryId)])
  }

  /** Moving a product back to its old category undoes a move. */
  lemma MoveUndo(s: Store, id: int, categoryId: Option<int>)
    requires id in s.products
    ensures MoveToCategory(MoveToCategory(s, id, categoryId), id, s.products[id].categoryId) == s
  {
    var t := MoveToCategory(MoveToCategory(s, id, categoryId), id, s.products[id].categoryId);
    assert t.products == s.products;
  }

  /** `eliminar_producto`: removes the product only; sales and purchases
      keep their copy of its name. */
  function DeleteProduct(s: Store, id: int): (t: Store)
    ensures t.products.Keys == s.products.Keys - {id}
    ensures forall k :: k in t.products ==> t.products[k] == s.products[k]
    ensures t == s.(products := t.products)
  {
    s.(products := s.products - {id})
  }

  // ===== Sales =====

  /** `registrar_venta`: sells `quantity` units at the product's current
      price. Unknown product or too little stock fails and changes nothing;
      otherwise the sale row, the stock decrement and the credit are applied
      together. */
  function RegisterSale(s: Store, productId: int, quantity: int, now: Timestamp): (r: Reply<int>)
    ensures productId !in s.products ==> r == Reply(Err(ProductNotFound), s)
    ensures productId in s.products && s.products[productId].quantity < quantity ==>
      r == Reply(Err(InsufficientStock(s.products[productId].quantity)), s)
    ensures r.result.Ok? <==> productId in s.products && quantity <= s.products[productId].quantity
    ensures r.result.Ok? ==> r.result.value == s.last.sale + 1
    ensures r.result.Ok? ==>
      var p := s.products[productId];
      && r.store.products == s.products[productId := p.(quantity := p.quantity - quantity)]
      && r.store.products[productId].quantity >= 0
    ensures r.result.Ok? ==> |r.store.sales| == |s.sales| + 1 && r.store.sales[..|s.sales|] == s.sales
    ensures r.result.Ok? ==>
      var p, x := s.products[productId], r.store.sales[|s.sales|];
      && x.id == r.result.value && x.productId == productId && x.date == now
      && x.productName == p.name && x.quantity == quantity
      && x.unitPrice == p.price && x.total == p.price * quantity as real
    ensures r.result.Ok? ==>
      var p := s.products[productId];
      r.store.capital == s.capital + p.price * quantity as real
    ensures r.result.Ok? ==> r.store.purchases == s.purchases && r.store.categories == s.categories
  {
    if productId !in s.products then Reply(Err(ProductNotFound), s)
    else
      var p := s.products[productId];
      if p.quantity < quantity then Reply(Err(InsufficientStock(p.quantity)), s)
      else
        var total := p.price * quantity as real;
        var saleId := s.last.sale + 1;
        var row := Sale(saleId, productId, p.name, quantity, p.price, total, now);
        Reply(Ok(saleId), s.(products := s.products[productId := p.(quantity := p.quantity - quantity)],
                             sales := s.sales + [row],
                             capital := s.capital + total,
                             capitalUpdated := now,
                             last := s.last.(sale := saleId)))
  }

  // ===== Budget =====

  /** `obtener_presupuesto`: the capital and the time it was last set. */
  function GetBudget(s: Store): (r: (real, Timestamp))
    ensures r.0 == s.capital && r.1 == s.capitalUpdated
  {
    (s.capital, s.capitalUpdated)
  }

  /** `actualizar_presupuesto`: overwrites the capital with any value; the
      sign check lives in the dialog that calls it. */
  function SetBudget(s: Store, capital: real, now: Timestamp): (t: Store)
    ensures GetBudget(t) == (capital, now)
    ensures t.products == s.products && t.categories == s.categories
    ensures t.sales == s.sales && t.purchases == s.purchases && t.last == s.last
  {
    s.(capital := capital, capitalUpdated := now)
  }
}
