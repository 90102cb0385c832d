# Inventory ledger, modelled in Dafny

A model of the inventory-and-sales ledger behind a small shop application.
It covers products, categories, a sales ledger, a purchase ledger and one cash
balance (`capital`), plus the string helpers the desktop front end ships with.
Each ledger operation reads the store, checks it, and then either fails and
leaves the store as it was, or applies all of its writes together. The model
states it as a pure function from a store to a reply and a new store.

There are two versions of the ledger:

- `DatabaseManager` (`src/models/database_manager.py`) is the current one. It
  has categories with unique names, a display order, extended product fields,
  a purchase ledger, and a starting capital of 50000.
- `Database` (`database.py`) is the older one. It has a free-text category, no
  purchase ledger and a starting capital of 10000. Opening it always creates
  the budget row, which nothing deletes; its operations still guard against a
  missing row, and the model keeps that case for generality.

Modules:

| file | module | what it holds |
|---|---|---|
| `optional.dfy` | `Optional` | `Option`: a NULL column, an omitted argument, a failed parse |
| `query.dfy` | `Query` | the SQL the queries use: table scan, `WHERE`, `ORDER BY` with SQLite's cross-type key order, `LIMIT` with "negative means no limit" |
| `ledger.dfy` | `Ledger` | what both ledgers share: timestamps, failures, the sales ledger and its sums, the sales listing, the best seller, the low-stock report |
| `manager.dfy` | `Manager` | the current ledger's store and every write operation, plus the initial state |
| `manager_reports.dfy` | `ManagerReports` | the product listing in five orders, the low-stock report, the dashboard statistics |
| `manager_trace.dfy` | `ManagerTrace` | sequences of operations: fresh ids, unique names, append-only ledgers, the cash equation, and what non-negative stock and capital need |
| `legacy.dfy` | `Legacy` | the older ledger |
| `legacy_trace.dfy` | `LegacyTrace` | sequences of operations on the older ledger: fresh ids, an append-only sales ledger, the budget row's presence |
| `text.dfy` | `Text` | `truncar_texto`, `limpiar_texto`, `validar_color_hex`, `validar_entero_no_negativo`, `validar_numero_positivo` |

Modelling choices:

- Money is an exact `real`. Float rounding is not captured.
- Quantities and ids are unbounded `int`s.
- A timestamp is a number of seconds. The text form `'%Y-%m-%d %H:%M:%S'`
  sorts the same way, and `DATE(fecha)` is the timestamp divided by 86400.
- The clock is a parameter: `now` for writes, `today` for the statistics.
- AUTOINCREMENT is modelled by a record of the last id each table handed out;
  a new row gets that id plus one.
- An exception the source does not catch is a failure kind with no state
  change, because nothing was committed. `IntegrityError` comes from a
  duplicate category rename; `MissingBudgetRow` comes from the legacy
  `agregar_producto` when the budget row is missing.
- The validations the desktop dialogs of the current ledger make before
  calling it are not preconditions. They appear as the hypothesis
  `CallerChecked` of the invariant lemmas in `ManagerTrace`:
  - a sale of at least one unit (`app_desktop.py`, line 738);
  - a capital override that is not negative (`app_desktop.py`, line 808).
- The product dialog of the current ledger checks only that the name is not
  empty, so a negative price, cost or quantity reaches the ledger. Stock and
  capital staying non-negative needs sane product data as a second, separate
  hypothesis (`SaneProductInput`). `NegativePurchaseBreaksStock` and
  `NegativeEditBreaksStock` show what happens without it.
- Rows with equal sort keys may come back in any order. So a listing is
  specified as "ordered by the key, and a permutation of the rows".

## Model

| member | source | states |
|---|---|---|
| Query.Sort | src/models/database_manager.py:263-268 | `ORDER BY` over a key: the result is ordered by the key in the given direction, with SQLite's NULL < number < text, and it is a permutation of the input |
| Query.Limit | src/models/database_manager.py:481-484 | `LIMIT n`: a prefix of the rows; all of them when `n` is negative or at least the row count, otherwise exactly `n` |
| Ledger.ListSales | src/models/database_manager.py:429-441 | sales come newest first, and none appears more often than in the ledger; no limit, a limit of 0 (Python's `if limite:`) or a negative one returns every sale exactly once; a positive limit no larger than the ledger returns exactly that many, and every sale left out is no newer than every sale listed |
| Ledger.NewestSales | src/models/database_manager.py:433-437 | `ORDER BY fecha DESC LIMIT n` keeps sales with non-increasing dates, each at most as often as in the ledger, and cuts only sales no newer than every kept one |
| Ledger.TopSeller | src/models/database_manager.py:490-505 | `("Ninguno", 0)` without sales; otherwise a name that was sold, its units summed over the ledger, and no sold name has more units |
| Ledger.SoldQuantityBounded | src/models/database_manager.py:495-501 | with no negative sale quantities every name's summed units are non-negative, and a name never sold sums to 0 |
| Ledger.DayTotalOfOneDay | src/models/database_manager.py:524-531 | when every sale falls on today, today's takings equal the all-time takings |
| Ledger.LowStock | src/models/database_manager.py:477-484 | only rows with fewer than 10 units, each at most once, fewest first, at most `limit` of them; nothing is cut unless the list is full, and a cut row has at least as many units as every listed one |
| Ledger.LowStockGenuine | src/models/database_manager.py:481-483 | every listed row is a genuine row of the table with fewer than 10 units, listed at most once |
| Ledger.LowStockOrdered | src/models/database_manager.py:482-483 | after `ORDER BY cantidad ASC LIMIT`, rows ascend by units and every row cut has at least as many units as every row kept |
| Ledger.LowStockComplete | src/models/database_manager.py:481-483 | a low-stock row is missing only when the limit was reached, and then it has no fewer units than any listed row |
| Manager.Seed | src/models/database_manager.py:115-124 | every default name is taken afterwards; existing categories stay; only categories and the category id counter change; with every name already taken nothing changes; the store stays valid |
| Manager.SeedFromDefaults | src/models/database_manager.py:115-124 | every category the seeding adds is one of the defaults, with that default's name, description, colour and icon and the creation date `now` |
| Manager.Fresh | src/models/database_manager.py:94-123 | a new database has capital 50000, no products, sales or purchases, every default category name, and nothing but default categories with their description, colour and icon |
| Manager.SeedInsertsAll | src/models/database_manager.py:115-124 | with distinct names none of which is taken, seeding adds exactly one category per default |
| Manager.FreshHasTwelveCategories | src/models/database_manager.py:101-123 | a new database holds exactly twelve categories |
| Manager.FreshHasDefaults | src/models/database_manager.py:101-124 | every one of the twelve defaults is in a new database with its description, colour and icon |
| Manager.DefaultNamesDistinct | src/models/database_manager.py:101-114 | the twelve default names are pairwise distinct |
| Manager.DefaultColorsValid | src/models/database_manager.py:101-114 | the default colour and every seeded colour is `#` and six hex digits |
| Manager.CreateCategory | src/models/database_manager.py:130-148 | fails exactly when the name is taken, and then changes nothing; otherwise the new category gets the next id and nothing else changes |
| Manager.UpdateCategory | src/models/database_manager.py:159-172 | an unknown id changes nothing and answers true; renaming onto another category's name raises and changes nothing; otherwise the four fields are overwritten, the creation date kept, nothing else changes |
| Manager.DeleteCategory | src/models/database_manager.py:174-190 | refused, with the number of products using it, exactly when some product uses the category; otherwise exactly that category is removed |
| Manager.ListCategories | src/models/database_manager.py:150-157 | every category exactly once, ordered by name |
| Manager.NextDisplayOrder | src/models/database_manager.py:214-217 | 1 when there are no products, otherwise one more than the largest display order in use |
| Manager.AddProduct | src/models/database_manager.py:194-246 | fails exactly when capital is below cost times quantity, and then changes nothing; otherwise it adds the product with the next display order and one purchase from 'Proveedor General' with that total, and debits the total, leaving capital non-negative; categories and sales are untouched |
| Manager.UpdateProduct | src/models/database_manager.py:307-325 | an unknown id changes nothing; otherwise the editable fields are overwritten, the display order and date added are kept, nothing else changes |
| Manager.Reorder | src/models/database_manager.py:327-340 | only that product's display order changes |
| Manager.MoveToCategory | src/models/database_manager.py:342-355 | only that product's category changes, whether or not the target exists |
| Manager.ReorderUndo | src/models/database_manager.py:327-340 | putting the old display order back restores the store |
| Manager.MoveUndo | src/models/database_manager.py:342-355 | moving a product back to its old category restores the store |
| Manager.DeleteProduct | src/models/database_manager.py:357-364 | exactly that product is removed; sales, purchases and everything else stay |
| Manager.RegisterSale | src/models/database_manager.py:386-427 | an unknown product or too little stock fails and changes nothing; otherwise the stock drops by the quantity without going negative, one sale is appended with the product's name, price and total, and capital rises by the total; purchases and categories are untouched |
| Manager.SetBudget | src/models/database_manager.py:456-470 | the capital becomes the given value, whatever its sign, stamped now; no other table changes |
| Manager.GetBudget | src/models/database_manager.py:445-454 | the capital and the time it was last set |
| ManagerReports.ParseOrder | src/models/database_manager.py:253-261 | each of the four named keys selects its order; every other key means display order |
| ManagerReports.ListProducts | src/models/database_manager.py:248-272 | every product exactly once, in the chosen order: display order, name or quantity ascending, price descending, or category name with uncategorised products first |
| ManagerReports.LowStockProducts | src/models/database_manager.py:472-488 | the low-stock report over the products table, with the properties of `Ledger.LowStock` |
| ManagerReports.Statistics | src/models/database_manager.py:507-546 | the low-stock count never exceeds the product count; with no sales, the sales count, revenue and takings of the day are zero |
| ManagerReports.StatisticsAfterSale | src/models/database_manager.py:520-531 | a sale adds one to the sales count, its total to the revenue, and its total to today's takings when made today; product and category counts stay |
| ManagerTrace.ApplyPreservesValid | src/models/database_manager.py:27-35 | no operation hands out a used id or creates two categories with the same name |
| ManagerTrace.RunPreservesValid | src/models/database_manager.py:27-35 | the same over any sequence of operations |
| ManagerTrace.CreateCategoryTwice | src/models/database_manager.py:136-148 | creating the same name a second time fails and leaves the store as the first creation left it |
| ManagerTrace.RunAppends | src/models/database_manager.py:357-364 | over any sequence of operations, the sales and purchase ledgers only grow at the end |
| ManagerTrace.ApplyKeepsDrift | src/models/database_manager.py:231-243 | every operation but a capital override moves capital by exactly what it adds to sales minus what it adds to purchases |
| ManagerTrace.RunKeepsDrift | src/models/database_manager.py:405-421 | the same over any sequence of operations without an override |
| ManagerTrace.CashEquation | src/models/database_manager.py:94-98 | from a new database with no override, capital is always 50000 plus all sale totals minus all purchase totals |
| ManagerTrace.ApplyStampsBudget | src/models/database_manager.py:445-454 | every write either leaves the budget as read unchanged or stamps it with the time of the write |
| ManagerTrace.RunStampsBudget | src/models/database_manager.py:445-454 | after any sequence of writes, the time read is the initial one or the time of one of those writes |
| ManagerTrace.ApplyKeepsHealthy | app_desktop.py:736-740 | under the checks the dialogs make (a sale of at least one unit, a non-negative capital override) and with sane product data (positive price and cost, non-negative quantity, which no dialog checks), stock stays non-negative, prices stay positive and capital stays non-negative |
| ManagerTrace.RunKeepsHealthy | app_desktop.py:806-811 | the same over any sequence of operations that pass those checks and carry sane product data |
| ManagerTrace.NegativeSaleDrainsCapital | app_desktop.py:738-740 | without the quantity check, a sale of a negative quantity is accepted and drives capital below zero |
| ManagerTrace.NegativePurchaseBreaksStock | app_desktop.py:604-631 | the product dialog checks only the name, so a purchase of -5 units passes the checks, is accepted, leaves the stock at -5 and credits the capital with 5 |
| ManagerTrace.NegativeEditBreaksStock | app_desktop.py:604-628 | an edit that sets the stock to -5 passes the checks and leaves the stock negative |
| Legacy.Init | database.py:53-57 | inserts the budget row with capital 10000 when it is missing, leaves an existing row alone, and touches no other table |
| Legacy.Empty | database.py:44-57 | a new database has no products or sales and a budget of 10000 |
| Legacy.AddProduct | database.py:63-101 | a missing budget row raises and changes nothing; capital below cost times quantity fails and changes nothing; otherwise the product gets the next id and the total is debited, leaving capital non-negative; no sale or purchase is recorded |
| Legacy.AddProductDefaultCost | database.py:69-71 | leaving out the cost is the same as buying at the sale price |
| Legacy.AddProductKeepsValid | database.py:19-28 | adding a product keeps ids fresh and hands out an unused id |
| Legacy.UpdateProduct | database.py:125-137 | an unknown id changes nothing; otherwise every editable field is overwritten and the date added kept |
| Legacy.UpdateProductUndo | database.py:125-137 | writing the old fields back undoes an edit |
| Legacy.DeleteProduct | database.py:139-147 | exactly that product is removed; its sales stay |
| Legacy.DeleteUndoesAdd | database.py:139-147 | deleting a product just added restores the product table; the capital spent stays spent |
| Legacy.AdjustStock | database.py:149-157 | only that product's stock changes, by the signed delta, with no check |
| Legacy.AdjustStockUndo | database.py:149-157 | adjusting by a delta and then by its negation restores the database |
| Legacy.AdjustStockCanGoNegative | database.py:154 | a negative delta can take the stock below zero |
| Legacy.RegisterSale | database.py:160-201 | unknown product or too little stock fails and changes nothing; otherwise the stock drops without going negative and one sale is appended; the capital rises by the total when the budget row exists and there is still no row when it is missing |
| Legacy.RegisterSaleKeepsValid | database.py:31-42 | a sale keeps ids fresh and gets an id no earlier sale has |
| Legacy.SaleWithoutBudgetRow | database.py:191-199 | without a budget row a sale is recorded and counted in the takings, yet there is no capital to credit |
| Legacy.ListSalesOf | database.py:203-215 | the same sales listing as the current ledger: newest first, no sale more often than in the ledger, and with a limit the sales cut are no newer than those listed |
| Legacy.SetBudget | database.py:229-243 | always answers true; with the row present the capital becomes the value, stamped now; without it nothing changes |
| Legacy.GetBudget | database.py:218-227 | the budget row's capital and time, or None when the row is missing |
| Legacy.SetBudgetLastWins | database.py:229-243 | setting the capital twice is setting it once to the second value |
| Legacy.LowStockItems | database.py:245-254 | only items with fewer than 10 units, each at most once, fewest first, at most `limit`, all of them unless the list is full, and every item cut has at least as many units as every listed one |
| Legacy.TopSellerOf | database.py:256-271 | `("Ninguno", 0)` without sales; otherwise a sold name with the most units |
| Legacy.ListItems | database.py:103-112 | every item exactly once, ordered by name |
| Legacy.Statistics | database.py:273-307 | the low-stock count never exceeds the product count; with no sales, the sales count, earnings and takings of the day are zero |
| Legacy.StatisticsAfterSale | database.py:277-293 | a sale adds one to the sales count and its total to the total earnings |
| LegacyTrace.ApplyPreservesValid | database.py:19-42 | no operation of the older ledger hands out a used product or sale id |
| LegacyTrace.RunPreservesValid | database.py:19-42 | the same over any sequence of operations |
| LegacyTrace.RunAppends | database.py:160-201 | over any sequence of operations, the sales ledger only grows at the end |
| LegacyTrace.RunKeepsBudgetRow | database.py:53-57 | only `init_db` inserts the budget row and nothing deletes it, so every sequence of operations keeps it present or keeps it missing |
| LegacyTrace.RunWithoutBudgetRow | database.py:63-101 | without a budget row every purchase fails, so no product id is handed out and the product table can only shrink |
| LegacyTrace.BudgetReadableAfterInit | database.py:5-7 | once `init_db` has run, `obtener_presupuesto` finds the row after any sequence of operations and never answers None |
| Text.Split | src/utils/helpers.py:45 | every piece `split()` returns is non-empty and free of whitespace |
| Text.SplitAtSpace | src/utils/helpers.py:45 | a whitespace character splits the text into the words before it followed by the words after it; with the split of a single word being that word, this fixes the maximal non-whitespace runs on every input |
| Text.SplitKeepsCharacters | src/utils/helpers.py:45 | the pieces, one after the other, are exactly the text's non-whitespace characters in order |
| Text.Clean | src/utils/helpers.py:43-45 | the result neither starts nor ends with whitespace, and every whitespace character in it is a single space between two non-space characters |
| Text.JoinShape | src/utils/helpers.py:45 | words joined by one space start and end with a word character and have no doubled whitespace |
| Text.SplitJoin | src/utils/helpers.py:45 | splitting words joined by single spaces gives the words back |
| Text.CleanKeepsWords | src/utils/helpers.py:43-45 | cleaning keeps exactly the words of the text, in order |
| Text.CleanKeepsCharacters | src/utils/helpers.py:43-45 | cleaning keeps every non-whitespace character of the text, in order, and adds none |
| Text.CleanIdempotent | src/utils/helpers.py:43-45 | cleaning twice is cleaning once |
| Text.PrefixTo | src/utils/helpers.py:87 | Python's `s[:k]`: a prefix, of length `k` clamped to the text, or the length plus a negative `k`, clamped at 0 |
| Text.Truncate | src/utils/helpers.py:83-87 | text within the limit is returned as is; longer text becomes a prefix of the input followed by `...`, exactly `max_length` long when the limit is at least 3, and below 3 keeping `len + max_length - 3` characters (at least none) before `...`, as the negative slice bound does |
| Text.TruncateIdempotent | src/utils/helpers.py:83-87 | with a limit of at least 3 the result fits the limit, and truncating again changes nothing |
| Text.TruncateBelowThree | src/utils/helpers.py:87 | with a limit below 3 the result can be longer than the limit: `("abcdef", 1)` gives `"abcd..."` |
| Text.ValidColor | src/utils/helpers.py:77-80 | true exactly for `#` followed by six characters from `0-9`, `A-F`, `a-f` |
| Text.ValidColorAsWritten | src/utils/helpers.py:77-80 | what the pattern accepts: the strict colours, and the strict colours followed by one line feed |
| Text.TrailingNewlineAccepted | src/utils/helpers.py:79-80 | `"#3B82F6\n"` passes the check as written but is not a colour |
| Text.ParseInt | src/utils/helpers.py:37 | parses exactly when the text, stripped of the padding `int()` skips (ASCII whitespace other than U+001C to U+001F, and non-ASCII whitespace), is an optional sign and a digit group |
| Text.ValidNonNegativeInt | src/utils/helpers.py:34-40 | true exactly when the text parses as an integer that is at least 0 |
| Text.ParseShow | src/utils/helpers.py:37 | every integer printed in decimal parses back to itself |
| Text.ParseSigned | src/utils/helpers.py:37 | a minus sign or none, followed by the digits of `n`, reads as `-n` or `n` |
| Text.ValidNonNegativeIntShow | src/utils/helpers.py:34-40 | on printed integers the validator is true exactly for the non-negative ones |
| Text.MinusZeroIsNonNegative | src/utils/helpers.py:34-40 | a minus sign before zeros, such as `-0` or `-0_0`, is accepted, since `int()` reads it as 0 |
| Text.ParseIntIgnoresPadding | src/utils/helpers.py:37 | padding `int()` skips around the number does not change what is read |
| Text.ParseDecimal | src/utils/helpers.py:28 | a decimal without sign never reads as a negative value |
| Text.ParseFloat | src/utils/helpers.py:28 | after the same padding is stripped: `inf` or `infinity` in any case gives an infinity with the sign; `nan` gives NaN; a finite result comes from a well-formed decimal |
| Text.ValidPositive | src/utils/helpers.py:25-31 | true exactly when the text parses as positive infinity or as a finite number above 0 |
| Text.IntIsFloat | src/utils/helpers.py:25-40 | every text `int()` accepts, `float()` accepts with the same value |
| Text.ValidPositiveShow | src/utils/helpers.py:25-31 | on printed integers the validator is true exactly for the positive ones |
| Text.InfinityIsPositive | src/utils/helpers.py:25-31 | `inf` and `infinity` in any case, unsigned or with `+`, are accepted; with `-` they are not |
| Text.NaNIsNotPositive | src/utils/helpers.py:25-31 | `nan` in any case parses but is rejected, with or without a minus sign |
| Text.AcceptsPaddedGroup | src/utils/helpers.py:25-40 | padding, a `+` and underscores between digits are accepted: such text reads as its digits' value, is a valid non-negative integer, and is a valid positive number exactly when the value is not 0 |
| Text.IntValidators | src/utils/helpers.py:25-40 | on text `int()` accepts, the integer validator is true exactly for values at least 0 and the number validator exactly for values above 0 |
| Text.SeparatorIsNotPadding | src/utils/helpers.py:37 | U+001C to U+001F split words like whitespace, yet a digit group after one is rejected by `int()`, `float()` and both validators |
| Text.AcceptsFraction | src/utils/helpers.py:28 | digits, a point and digits read as the exact decimal fraction, which the number validator accepts exactly when it is above 0 |

## Left out

- Float rounding: money is an exact `real`, so sums and products are exact.
- Text.ValidPositive: values are exact, so a text that underflows to 0.0 in a double (such as `1e-400`) is accepted here but rejected by the source; overflow to infinity gives the same answer either way.
- Text.ParseInt: does not model the limit CPython 3.11 and later put on `int()` of decimal text: more than 4300 digits raise `ValueError` there but parse here.
- Text.ParseInt: only ASCII digits are read; Python's `int()` and `float()` also accept other Unicode decimal digits.
- Text.ParseFloat: hexadecimal and other forms `float()` does not accept from text are not relevant; the value is exact rather than the nearest double.
- Manager.GetBudget: the current ledger assumes its budget row exists (`init_db` creates it and nothing deletes it), so the `(0, '')` fallback of `obtener_presupuesto` is not modelled. The older ledger models the missing row.
- ManagerReports.LowStockProducts: returns product rows without the joined category name, colour and icon columns.
- ManagerReports.ListProducts: returns product rows without the joined category columns. Ties within an order come back in an unspecified order.
- Ledger.TopSeller: among names tied for most units, SQL does not say which comes first; this returns the first in ledger order, and the contract allows any of them.
- The clock: `datetime.now()` becomes the `now` and `today` parameters.
- Connections, transactions and DDL: each operation is one atomic step, and a failure leaves the store as it was.
- `obtener_producto`, `obtener_productos_por_categoria` and `buscar_productos` with SQLite `LIKE`: read-only lookups outside the ledger's bookkeeping.
- Backups and month rollover (`guardar_mes_actual`, `crear_nuevo_mes`, `listar_backups`): filesystem I/O.
- The desktop and web front ends: only the current desktop app's input checks are used, as hypotheses of `ManagerTrace` lemmas.
- The formatting helpers (`formatear_moneda`, `formatear_fecha`, `exportar_a_csv`, `generar_reporte_texto`, `calcular_porcentaje_cambio`, `obtener_fecha_actual`, `es_fecha_hoy`): formatting, file and clock functions.

## Findings

| source | as written | input that shows it | evidently intended | confidence | as-written member | corrected member |
|---|---|---|---|---|---|---|
| src/utils/helpers.py:79-80 | `re.match` with `^#[0-9A-Fa-f]{6}$`, where `$` also matches just before a final line feed | `"#3B82F6\n"` is accepted | only `#` followed by exactly six hex digits | medium, not executed | Text.ValidColorAsWritten (shown by Text.TrailingNewlineAccepted) | Text.ValidColor |
