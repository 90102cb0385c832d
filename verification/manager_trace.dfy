/**
 Sequences of operations on the current ledger, and the facts that hold
 across all of them: ids stay fresh and category names unique, sales and
 purchases are only ever appended, the capital is the initial capital plus
 the takings minus the spending until someone overrides it. Stock and
 capital stay non-negative only if product data is sane as well: the
 desktop dialogs check sales and capital overrides, but not a product's
 price, cost or quantity.
 */
module ManagerTrace {
  import opened Optional
  import opened Query
  import opened Ledger
  import opened Manager

  /** One call into the ledger, with the arguments the caller passes. */
  datatype Command =
    | NewCategory(name: string, description: string, color: string, icon: string)
    | EditCategory(categoryId: int, name: string, description: string, color: string, icon: string)
    | RemoveCategory(categoryId: int)
    | NewProduct(name: string, description: string, price: real, quantity: int, category: Option<int>,
                 cost: real, handling: string, usage: string, notes: string)
    | EditProduct(productId: int, name: string, description: string, price: real, quantity: int,
                  category: Option<int>, handling: string, usage: string, notes: string)
    | SetOrder(productId: int, order: int)
    | Move(productId: int, category: Option<int>)
    | RemoveProduct(productId: int)
    | Sell(productId: int, quantity: int)
    | OverrideCapital(capital: real)

  /** The store a command leaves behind, whether it succeeded or failed. */
  function Apply(s: Store, c: Command, now: Timestamp): Store {
    match c
    case NewCategory(name, description, color, icon) =>
      CreateCategory(s, name, description, color, icon, now).store
    case EditCategory(id, name, description, color, icon) =>
      UpdateCategory(s, id, name, description, color, icon).store
    case RemoveCategory(id) => DeleteCategory(s, id).store
    case NewProduct(name, description, price, quantity, category, cost, handling, usage, notes) =>
      AddProduct(s, name, description, price, quantity, category, cost, handling, usage, notes, now).store
    case EditProduct(id, name, description, price, quantity, category, handling, usage, notes) =>
      UpdateProduct(s, id, name, description, price, quantity, category, handling, usage, notes)
    case SetOrder(id, order) => Reorder(s, id, order)
    case Move(id, category) => MoveToCategory(s, id, category)
    case RemoveProduct(id) => DeleteProduct(s, id)
    case Sell(id, quantity) => RegisterSale(s, id, quantity, now).store
    case OverrideCapital(capital) => SetBudget(s, capital, now)
  }

  /** The store after each timed command in turn. */
  function Run(s: Store, trace: seq<(Command, Timestamp)>): Store
    decreases |trace|
  {
    if |trace| == 0 then s
    else Run(Apply(s, trace[0].0, trace[0].1), trace[1..])
  }

  // ===== Fresh ids and unique names =====

  /** No operation breaks the schema's guarantees. */
  lemma ApplyPreservesValid(s: Store, c: Command, now: Timestamp)
    requires Valid(s)
    ensures Valid(Apply(s, c, now))
  {
    var t := Apply(s, c, now);
    match c
    case NewCategory(name, description, color, icon) =>
      var r := CreateCategory(s, name, description, color, icon, now);
      if r.result.Ok? {
        assert !NameTaken(s.categories, name);
        assert forall other :: other in s.categories ==> s.categories[other].name != name;
      }
    case EditCategory(id, name, description, color, icon) =>
      var r := UpdateCategory(s, id, name, description, color, icon);
      if r.result.Ok? && id in s.categories {
        assert forall other :: other in s.categories && other != id ==> s.categories[other].name != name;
      }
    case RemoveCategory(id) =>
    case NewProduct(name, description, price, quantity, category, cost, handling, usage, notes) =>
    case EditProduct(id, name, description, price, quantity, category, handling, usage, notes) =>
    case SetOrder(id, order) =>
    case Move(id, category) =>
    case RemoveProduct(id) =>
    case Sell(id, quantity) =>
    case OverrideCapital(capital) =>
  }

  lemma {:induction false} RunPreservesValid(s: Store, trace: seq<(Command, Timestamp)>)
    requires Valid(s)
    ensures Valid(Run(s, trace))
    decreases |trace|
  {
    if |trace| > 0 {
      ApplyPreservesValid(s, trace[0].0, trace[0].1);
      RunPreservesValid(Apply(s, trace[0].0, trace[0].1), trace[1..]);
    }
  }

  /** A category name cannot be created twice: the second attempt fails
      and leaves the store as the first one left it. */
  lemma CreateCategoryTwice(s: Store, name: string, d1: string, c1: string, i1: string,
                            d2: string, c2: string, i2: string, now1: Timestamp, now2: Timestamp)
    ensures var t := CreateCategory(s, name, d1, c1, i1, now1).store;
      CreateCategory(t, name, d2, c2, i2, now2) == Reply(Err(DuplicateCategoryName), t)
  {
    var r := CreateCategory(s, name, d1, c1, i1, now1);
    if r.result.Ok? {
      assert r.store.categories[r.result.value].name == name;
    }
  }

  // ===== Append-only ledgers =====

  lemma ApplyAppends(s: Store, c: Command, now: Timestamp)
    ensures var t := Apply(s, c, now);
      && |s.sales| <= |t.sales| && t.sales[..|s.sales|] == s.sales
      && |s.purchases| <= |t.purchases| && t.purchases[..|s.purchases|] == s.purchases
  {
  }

  /** Sales and purchases are never edited or removed, only appended. */
  lemma {:induction false} RunAppends(s: Store, trace: seq<(Command, Timestamp)>)
    ensures var t := Run(s, trace);
      && |s.sales| <= |t.sales| && t.sales[..|s.sales|] == s.sales
      && |s.purchases| <= |t.purchases| && t.purchases[..|s.purchases|] == s.purchases
    decreases |trace|
  {
    if |trace| > 0 {
      var m := Apply(s, trace[0].0, trace[0].1);
      ApplyAppends(s, trace[0].0, trace[0].1);
      RunAppends(m, trace[1..]);
      var t := Run(s, trace);
      assert t.sales[..|s.sales|] == t.sales[..|m.sales|][..|s.sales|];
      assert t.purchases[..|s.purchases|] == t.purchases[..|m.purchases|][..|s.purchases|];
    }
  }

  // ===== Cash =====

  /** Every operation except a manual override moves the capital by exactly
      what it adds to the sales ledger minus what it adds to the purchases. */
  lemma ApplyKeepsDrift(s: Store, c: Command, now: Timestamp)
    requires !c.OverrideCapital?
    ensures Drift(Apply(s, c, now)) == Drift(s)
  {
    match c
    case NewProduct(name, description, price, quantity, category, cost, handling, usage, notes) =>
      var r := AddProduct(s, name, description, price, quantity, category, cost, handling, usage, notes, now);
      if r.result.Ok? {
        PurchasesTotalAppend(s.purchases, r.store.purchases[|s.purchases|]);
        assert r.store.purchases == s.purchases + [r.store.purchases[|s.purchases|]];
      }
    case Sell(id, quantity) =>
      var r := RegisterSale(s, id, quantity, now);
      if r.result.Ok? {
        var x := r.store.sales[|s.sales|];
        assert r.store.sales == s.sales + [x];
        SalesTotalAppend(s.sales, x);
      }
    case _ =>
  }

  predicate NoOverride(trace: seq<(Command, Timestamp)>) {
    forall i :: 0 <= i < |trace| ==> !trace[i].0.OverrideCapital?
  }

  lemma {:induction false} RunKeepsDrift(s: Store, trace: seq<(Command, Timestamp)>)
    requires NoOverride(trace)
    ensures Drift(Run(s, trace)) == Drift(s)
    decreases |trace|
  {
    if |trace| > 0 {
      ApplyKeepsDrift(s, trace[0].0, trace[0].1);
      assert NoOverride(trace[1..]) by {
        forall i | 0 <= i < |trace[1..]| ensures !trace[1..][i].0.OverrideCapital? {
          assert trace[1..][i] == trace[i + 1];
        }
      }
      RunKeepsDrift(Apply(s, trace[0].0, trace[0].1), trace[1..]);
    }
  }

  /** Starting from a new database and without manual overrides, the
      capital is always 50000 plus every sale total minus every purchase
      total. */
  lemma CashEquation(now: Timestamp, trace: seq<(Command, Timestamp)>)
    requires NoOverride(trace)
    ensures var t := Run(Fresh(now), trace);
      t.capital == InitialCapital + SalesTotal(t.sales) - PurchasesTotal(t.purchases)
  {
    RunKeepsDrift(Fresh(now), trace);
  }

  // ===== The budget's timestamp =====

  /** Every write either leaves the budget as `obtener_presupuesto` reads it
      or stamps it with the time of the write. */
  lemma ApplyStampsBudget(s: Store, c: Command, now: Timestamp)
    ensures var t := Apply(s, c, now);
      GetBudget(t) == GetBudget(s) || GetBudget(t).1 == now
  {
  }

  /** The time `obtener_presupuesto` reports is the one the store started
      with or the time of one of the writes since. */
  lemma {:induction false} RunStampsBudget(s: Store, trace: seq<(Command, Timestamp)>)
    ensures var t := Run(s, trace);
      GetBudget(t) == GetBudget(s) || exists i :: 0 <= i < |trace| && GetBudget(t).1 == trace[i].1
    decreases |trace|
  {
    if |trace| > 0 {
      var m := Apply(s, trace[0].0, trace[0].1);
      var rest := trace[1..];
      ApplyStampsBudget(s, trace[0].0, trace[0].1);
      RunStampsBudget(m, rest);
      var t := Run(s, trace);
      assert t == Run(m, rest);
      if GetBudget(t) != GetBudget(m) {
        var i :| 0 <= i < |rest| && GetBudget(t).1 == rest[i].1;
        assert trace[i + 1] == rest[i];
      } else if GetBudget(m) != GetBudget(s) {
        assert GetBudget(t).1 == trace[0].1;
      }
    }
  }

  // ===== Non-negative stock and capital =====

  /** What the desktop dialogs of the current ledger check before they call
      it: a sale of at least one unit, and a capital override that is not
      negative. The product dialog checks only that the name is not empty. */
  predicate CallerChecked(c: Command) {
    match c
    case Sell(_, quantity) => quantity > 0
    case OverrideCapital(capital) => capital >= 0.0
    case _ => true
  }

  /** Product data with a positive price and cost and a non-negative
      quantity. No dialog of the current ledger checks this; it is what the
      stock and capital staying non-negative needs besides the checks that
      are made. */
  predicate SaneProductInput(c: Command) {
    match c
    case NewProduct(_, _, price, quantity, _, cost, _, _, _) => price > 0.0 && cost > 0.0 && quantity >= 0
    case EditProduct(_, _, _, price, quantity, _, _, _, _) => price > 0.0 && quantity >= 0
    case _ => true
  }

  /** No product is out of stock below zero or priced at zero or less, and
      the capital is not negative. */
  predicate Healthy(s: Store) {
    && s.capital >= 0.0
    && (forall id :: id in s.products ==> s.products[id].quantity >= 0 && s.products[id].price > 0.0)
  }

  lemma ApplyKeepsHealthy(s: Store, c: Command, now: Timestamp)
    requires Healthy(s) && CallerChecked(c) && SaneProductInput(c)
    ensures Healthy(Apply(s, c, now))
  {
    match c
    case Sell(id, quantity) =>
      var r := RegisterSale(s, id, quantity, now);
      if r.result.Ok? {
        var p := s.products[id];
        assert p.price * quantity as real >= 0.0;
      }
    case _ =>
  }

  lemma {:induction false} RunKeepsHealthy(s: Store, trace: seq<(Command, Timestamp)>)
    requires Healthy(s)
    requires forall i :: 0 <= i < |trace| ==> CallerChecked(trace[i].0) && SaneProductInput(trace[i].0)
    ensures Healthy(Run(s, trace))
    decreases |trace|
  {
    if |trace| > 0 {
      ApplyKeepsHealthy(s, trace[0].0, trace[0].1);
      assert forall i :: 0 <= i < |trace[1..]| ==> trace[1..][i] == trace[i + 1];
      RunKeepsHealthy(Apply(s, trace[0].0, trace[0].1), trace[1..]);
    }
  }

  /** The same without the sale dialog's check fails: a sale of a negative
      quantity is accepted and debits the capital below zero. */
  lemma NegativeSaleDrainsCapital()
    ensures var p := Product("x", "", 1.0, 0, None, "", "", "", 1, 0);
      var s := Store(map[], map[1 := p], [], [], 0.0, 0, LastIds(0, 1, 0, 0));
      Healthy(s) && !Healthy(Apply(s, Sell(1, -1), 0))
  {
  }

  /** The checks the dialogs make are not enough: a purchase of a negative
      quantity passes them, is accepted, leaves the stock below zero and
      credits the capital. */
  lemma NegativePurchaseBreaksStock()
    ensures var s := Store(map[], map[], [], [], 0.0, 0, LastIds(0, 0, 0, 0));
      var c := NewProduct("x", "", 1.0, -5, None, 1.0, "", "", "");
      var t := Apply(s, c, 0);
      && Healthy(s) && CallerChecked(c)
      && !Healthy(t) && t.capital == 5.0
  {
    var s := Store(map[], map[], [], [], 0.0, 0, LastIds(0, 0, 0, 0));
    var t := Apply(s, NewProduct("x", "", 1.0, -5, None, 1.0, "", "", ""), 0);
    assert t.products[1].quantity == -5;
  }

  /** Likewise an edit may set a negative stock. */
  lemma NegativeEditBreaksStock()
    ensures var p := Product("x", "", 1.0, 0, None, "", "", "", 1, 0);
      var s := Store(map[], map[1 := p], [], [], 0.0, 0, LastIds(0, 1, 0, 0));
      var c := EditProduct(1, "x", "", 1.0, -5, None, "", "", "");
      Healthy(s) && CallerChecked(c) && !Healthy(Apply(s, c, 0))
  {
    var p := Product("x", "", 1.0, 0, None, "", "", "", 1, 0);
    var s := Store(map[], map[1 := p], [], [], 0.0, 0, LastIds(0, 1, 0, 0));
    assert Apply(s, EditProduct(1, "x", "", 1.0, -5, None, "", "", ""), 0).products[1].quantity == -5;
  }
}
