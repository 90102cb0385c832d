/**
 Sequences of operations on the older ledger, and the facts that hold
 across all of them: ids stay fresh, sales are only ever appended, the
 budget row neither appears nor disappears, so once `init_db` has run
 the budget can always be read, and without a budget row no product can
 ever be added.
 */
module LegacyTrace {
  import opened Optional
  import opened Ledger
  import opened Legacy

  /** One call into the older ledger, with the arguments the caller passes. */
  datatype Command =
    | NewItem(name: string, description: string, price: real, quantity: int, category: Option<string>,
              cost: Option<real>)
    | EditItem(productId: int, name: string, description: string, price: real, quantity: int,
               category: Option<string>)
    | RemoveItem(productId: int)
    | Restock(productId: int, delta: int)
    | Sell(productId: int, quantity: int)
    | OverrideCapital(capital: real)

  /** The database a command leaves behind, whether it succeeded or failed. */
  function Apply(db: Db, c: Command, now: Timestamp): Db {
    match c
    case NewItem(name, description, price, quantity, category, cost) =>
      AddProduct(db, name, description, price, quantity, category, cost, now).db
    case EditItem(id, name, description, price, quantity, category) =>
      UpdateProduct(db, id, name, description, price, quantity, category)
    case RemoveItem(id) => DeleteProduct(db, id)
    case Restock(id, delta) => AdjustStock(db, id, delta)
    case Sell(id, quantity) => RegisterSale(db, id, quantity, now).db
    case OverrideCapital(capital) => SetBudget(db, capital, now).1
  }

  /** The database after each timed command in turn. */
  function Run(db: Db, trace: seq<(Command, Timestamp)>): Db
    decreases |trace|
  {
    if |trace| == 0 then db
    else Run(Apply(db, trace[0].0, trace[0].1), trace[1..])
  }

  /** No operation hands out an id twice. */
  lemma ApplyPreservesValid(db: Db, c: Command, now: Timestamp)
    requires Valid(db)
    ensures Valid(Apply(db, c, now))
  {
    match c
    case NewItem(name, description, price, quantity, category, cost) =>
      AddProductKeepsValid(db, name, description, price, quantity, category, cost, now);
    case Sell(id, quantity) =>
      RegisterSaleKeepsValid(db, id, quantity, now);
    case _ =>
  }

  lemma {:induction false} RunPreservesValid(db: Db, trace: seq<(Command, Timestamp)>)
    requires Valid(db)
    ensures Valid(Run(db, trace))
    decreases |trace|
  {
    if |trace| > 0 {
      ApplyPreservesValid(db, trace[0].0, trace[0].1);
      RunPreservesValid(Apply(db, trace[0].0, trace[0].1), trace[1..]);
    }
  }

  /** Sales are never edited or removed, only appended. */
  lemma {:induction false} RunAppends(db: Db, trace: seq<(Command, Timestamp)>)
    ensures var t := Run(db, trace);
      |db.sales| <= |t.sales| && t.sales[..|db.sales|] == db.sales
    decreases |trace|
  {
    if |trace| > 0 {
      var m := Apply(db, trace[0].0, trace[0].1);
      assert |db.sales| <= |m.sales| && m.sales[..|db.sales|] == db.sales;
      RunAppends(m, trace[1..]);
      var t := Run(db, trace);
      assert t.sales[..|db.sales|] == t.sales[..|m.sales|][..|db.sales|];
    }
  }

  /** Only `init_db` inserts the budget row, and nothing deletes it: every
      other operation keeps it present or keeps it missing. */
  lemma {:induction false} RunKeepsBudgetRow(db: Db, trace: seq<(Command, Timestamp)>)
    ensures Run(db, trace).budget.Some? <==> db.budget.Some?
    decreases |trace|
  {
    if |trace| > 0 {
      RunKeepsBudgetRow(Apply(db, trace[0].0, trace[0].1), trace[1..]);
    }
  }

  /** Without a budget row every purchase fails, so no product id is ever
      handed out again and the product table can only shrink. */
  lemma {:induction false} RunWithoutBudgetRow(db: Db, trace: seq<(Command, Timestamp)>)
    requires db.budget.None?
    ensures var t := Run(db, trace);
      t.lastProduct == db.lastProduct && t.products.Keys <= db.products.Keys
    decreases |trace|
  {
    if |trace| > 0 {
      var m := Apply(db, trace[0].0, trace[0].1);
      assert m.budget.None? && m.lastProduct == db.lastProduct && m.products.Keys <= db.products.Keys;
      RunWithoutBudgetRow(m, trace[1..]);
    }
  }

  /** Opening the database runs `init_db`, so whatever is done afterwards,
      `obtener_presupuesto` finds the budget row and never answers None. */
  lemma {:induction false} BudgetReadableAfterInit(db: Db, now: Timestamp, trace: seq<(Command, Timestamp)>)
    ensures GetBudget(Run(Init(db, now), trace)).Some?
  {
    RunKeepsBudgetRow(Init(db, now), trace);
  }
}
