# Expense tracker data layer, modelled in Dafny

The expense tracker keeps a personal ledger in one SQLite table,
`expenses(id, description, value, category, date)`. Its data layer, the class
`Data` in `connection.py`, does three things with that table:

- it adds, edits and removes entries (`insertEntry`, `updateEntry`,
  `deleteEntry`);
- it reports the balance (`getBalance`): the values in the receipts category
  `'Поступления'` minus the values in every other category;
- it lists entries through `getTableWithFilters`, which builds a `SELECT`
  with zero, one or two `col=?` predicates and a list of bound values. The
  two flags work inverted: a predicate is added when its flag is **false**.

The model is functional. The table is an immutable value: its rows in storage
order plus the AUTOINCREMENT counter SQLite keeps for it, the largest id ever
issued. Every data-layer call is a pure function from one table to the next,
or from a table to a result.

| file | module | models |
|---|---|---|
| `options.dfy` | `Options` | `Option`, used for SQL NULL and for lookups that find nothing |
| `ledger.dfy` | `Ledger` | entries, the table and its invariant, insert/update/delete |
| `balance.dfy` | `Balance` | the two `SUM` aggregates and the balance |
| `query.dfy` | `Query` | the text and bindings that `getTableWithFilters` builds |
| `engine.dfy` | `Engine` | a small SQL engine that parses that text and runs it over the rows |
| `history.dfy` | `History` | sequences of mutations, and ids never being reused |

The meaning of the filtered query is not read off the flags. `Engine` parses
the exact characters the data layer emits (`SELECT * FROM expenses`, then
optionally ` WHERE `, then `col=?` terms joined by ` AND `). It pairs the
i-th placeholder with the i-th binding and keeps the rows that satisfy every
comparison. `Engine.FilteredQueryMeaning` then proves that this equals the
intended row filter `(date_cb || r.date == date) && (category_cb ||
r.category == category)`.

`Ledger.Valid` is the table invariant:
- ids are unique (the PRIMARY KEY);
- ids are positive. This is not a schema constraint, since SQLite accepts an
  explicit id of 0 or below. It holds because the INSERT at connection.py:65
  never names `id`, so every id comes from the AUTOINCREMENT counter;
- no id is larger than the AUTOINCREMENT counter;
- the counter stays within the 64-bit ROWID range;
- rows are stored in ascending id order. That is the order in which SQLite
  scans a rowid table, and so the order in which `SUM` accumulates its
  running totals.

A fresh database satisfies `Valid` (`Ledger.EmptyIsValid`), and every
mutation preserves it, so every table reachable from a fresh database
satisfies it (`History.ReachableIsValid`).

Most frame facts hold for any rows: after an update, a lookup of any other id
finds what it found before; after a delete, the survivors are exactly the rows
with other ids. Only the facts that name a single position need `Valid`,
because they rely on ids being unique: the in-place replacement by an update,
the cut by a delete, and a delete dropping exactly one row.

Modelling choices taken from the code:
- `value` is an `int` because the column is declared `value integer`
  (connection.py:29). Nothing in the code requires it to be positive, so the
  model does not either.
- The balance is computed from those integers. In the model the sums are
  integers, so the final `str(int(...))` (connection.py:110) cannot drop a
  fraction. In SQLite, a text such as `12.5` would be stored as a REAL and
  `int` would truncate it. That is type affinity, which is left out below.
- SQLite evaluates `SUM` over 64-bit integers. A running total that leaves
  that range makes the query fail with "integer overflow". The data layer
  then sees no result row and keeps 0 for that half of the balance
  (connection.py:99-108). `Balance.Sum64` models this, and the balance equals
  the exact signed sum whenever neither aggregate overflows.

## Model

| member | source | states |
|---|---|---|
| `Ledger.Valid` | connection.py:26-31 | The table invariant: ids are unique (PRIMARY KEY), ids are positive and never above the AUTOINCREMENT counter, and the counter stays within `0..2^63-1`, the ROWID range. Rows are stored in ascending id order, the order SQLite scans them in. Positivity comes from the INSERT never naming `id` (connection.py:65), not from the schema. |
| `Ledger.EmptyIsValid` | connection.py:26-31 | The empty table a fresh database starts with satisfies `Valid`. |
| `Ledger.InsertEntry` | connection.py:55-66 | Exactly one row is appended, carrying the given description, value, category and date. Earlier rows are unchanged and keep their order. The new id is larger than every id ever issued and becomes the new counter, so no existing row carries it. Once the ROWID range is exhausted, the insert fails and the table is unchanged. `Valid` is preserved. |
| `Ledger.UpdateRows` | connection.py:79 | Row by row: the length is kept and every id is kept. A row with a different id is untouched. A row with the given id gets the four new field values. If no row has the id, nothing changes. |
| `Ledger.UpdateEntry` | connection.py:68-80 | A missing id is a silent no-op. Otherwise a lookup of the id finds the new values, and a lookup of every other id finds what it found before. The row count and the counter are unchanged. With unique ids, the matching row is replaced in place. `Valid` is preserved. |
| `Ledger.UpdateSplices` | connection.py:79-80 | With unique ids, the UPDATE result equals the old rows with the matching row swapped for the new entry at the same position. |
| `Ledger.FindAfterUpdate` | connection.py:79-80 | After the update, a lookup of any other id gives the same result as before. If the id was present, a lookup of it returns the new entry. |
| `Ledger.DeleteRows` | connection.py:89 | The result never grows. If no row carries the id, the rows are unchanged. |
| `Ledger.DeleteMembership` | connection.py:89-90 | A row survives the DELETE exactly when its id differs from the deleted id. |
| `Ledger.DeleteEntry` | connection.py:82-90 | A missing id is a no-op. The rows kept are exactly those with a different id. With unique ids the row count drops by exactly one, and the result is the old sequence with the one matching row cut out. `Valid` is preserved. |
| `Ledger.DeleteSplices` | connection.py:89-90 | With unique ids, deleting by id removes exactly the row at that id's position, and every other row keeps its relative order. |
| `Balance.SqlSum` | connection.py:100-108 | `SUM(value)` is NULL (None) exactly when no row qualifies for the category test. |
| `Balance.Sum64` | connection.py:100-108 | A `SUM` query overflows exactly when some running total over the rows, in scan order (ascending ids for a table satisfying `Valid`), leaves the signed 64-bit range. Otherwise it equals the exact sum, NULL included. A running total it holds is always within the 64-bit range. |
| `Balance.AppendRow` | connection.py:99-110 | Appending a row adds its signed value to the signed sum. If the longer rows' sums do not overflow, neither do the shorter rows'. A zero-value row changes neither aggregate as the data layer reads it. |
| `Balance.AggregatesAreNet` | connection.py:99-110 | The receipts sum minus the other-categories sum, each NULL read as 0, equals the row-by-row signed sum. |
| `Balance.GetBalance` | connection.py:92-110 | When neither aggregate overflows, the balance is the signed sum of all rows: receipts count plus, every other category counts minus. An aggregate that overflows contributes 0, so the balance is then minus the other sum, the receipts sum, or 0. An empty table has balance 0. |
| `Balance.ComputeBalance` | connection.py:99-110 | Both aggregates accumulated together in one pass over the rows, with the 64-bit overflow check at every step, give exactly `GetBalance`. Without overflow, that is the signed sum. |
| `Balance.BalanceAfterInsert` | connection.py:99-110 | An insert moves the signed sum by the new row's signed value, and so moves the balance whenever the new table's sums do not overflow. A zero-value insert never changes the balance, even where a sum overflows. A failed insert changes nothing. |
| `Balance.BalanceAfterDelete` | connection.py:99-110 | A delete takes the removed row's signed value out of the signed sum, and out of the balance when neither table's sums overflow. Deleting a missing id changes nothing. |
| `Balance.BalanceAfterUpdate` | connection.py:99-110 | An update swaps the row's old signed value for its new one in the signed sum, and in the balance when neither table's sums overflow. Updating a missing id changes nothing. |
| `Query.GetTableWithFilters` | connection.py:125-137 | The truth table of the inverted flags. Both flags true gives exactly `SELECT * FROM expenses` with no bindings. Date flag false alone adds ` WHERE date=?` with `[date]`. Category flag false alone adds ` WHERE category=?` with `[category]`. Both false gives ` WHERE date=? AND category=?` with `[date, category]`. |
| `Query.PlaceholdersMatchBindings` | connection.py:129-137 | For every flag combination, the number of `?` in the text equals the number of bindings. |
| `Engine.ConjunctionRoundTrip` | connection.py:136-137 | Any non-empty list of `col=?` terms joined with ` AND ` parses back to the same columns in the same order. |
| `Engine.FilteredQueryParses` | connection.py:125-137 | The generated text parses as a SELECT that compares exactly the columns whose flag is false, date first. The bindings are the matching filter values in the same order. |
| `Engine.BindingsFollowPlaceholders` | connection.py:129-134 | There is one binding per compared column, and the i-th binding is the filter value for the column of the i-th placeholder. |
| `Engine.FilteredQueryMeaning` | connection.py:125-138 | Running the generated statement never fails. It returns exactly the rows `r` with `(date_cb or r.date == date) and (category_cb or r.category == category)`. No row is returned more often than the table holds it. |
| `Engine.Execute` | connection.py:45-53 | The cursor fails exactly when the text does not parse, or when the number of bindings differs from the number of placeholders. Text that does not parse is a syntax error. Otherwise the cursor holds exactly the table rows that satisfy every parsed comparison with its bound value, and never more rows than the table. No row is returned more often than the table holds it. |
| `Engine.SelectWhere` | connection.py:138 | The rows returned are exactly the table rows that satisfy every `col=?` comparison with its bound value. No row is returned more often than the table holds it. |
| `Engine.ExampleDateOnly` | connection.py:129-131 | With sample rows A, B and C, filtering on date only returns {A, C}. |
| `Engine.ExampleCategoryOnly` | connection.py:132-134 | On the same rows, filtering on category only returns {A, B}. |
| `Engine.ExampleBoth` | connection.py:129-137 | On the same rows, filtering on both date and category returns {A}. |
| `Engine.ExampleNeither` | connection.py:125-127 | On the same rows, with both flags set, every row is returned. |
| `History.Run` | connection.py:55-90 | Any sequence of inserts, updates and deletes keeps `Valid`, and never lowers the AUTOINCREMENT counter. |
| `History.ReachableIsValid` | connection.py:26-90 | Every table reached from a fresh database by any sequence of inserts, updates and deletes satisfies `Valid`. |
| `History.IdsNeverReused` | connection.py:27 | Across any sequence of calls, the ids of the rows that inserts append strictly increase. Each is above every id issued before the sequence, and within the final counter. |
| `History.IssuedIdsAreFresh` | connection.py:27 | No id issued during a sequence equals the id of a row that was in the table when it began. |
| `History.InsertThenListAll` | connection.py:55-66 | After an insert, listing with both flags set returns a row with exactly the inserted description, value, category and date. No other listed row has its id. |

## Left out

- `main.py`, the PyQt6 window, dialogs and signal wiring: it only passes
  widget values into `Data` and renders what comes back.
- `createConnection` (connection.py:18-32): opening the SQLite file, the
  driver setup, and printing an error if `CREATE TABLE IF NOT EXISTS` fails.
  The model starts from a table, `Ledger.Empty` for a fresh database.
- The mechanics of `executeQuery` (connection.py:34-53): preparing,
  binding, the cursor, and printing errors. The meaning of the filtered
  SELECT that getTableWithFilters builds is `Engine.Execute`. The two `SUM`
  queries of getBalance are modelled directly by `Balance.Sum64` and
  `Balance.ReadSum`. A failed mutation leaves the table as it was.
- The INSERT, UPDATE and DELETE texts are not parsed. Their meaning is
  modelled directly by `Ledger.InsertEntry`, `Ledger.UpdateEntry` and
  `Ledger.DeleteEntry`.
- SQLite type affinity is not modelled. This covers the spin-box text stored
  in the `integer` column `value`, the numeric affinity of the `DATE` column,
  and the text id that the window passes for the integer `id`. Values
  compare as plain Dafny integers and strings.
- The `VARCHAR(32)` declarations: SQLite does not enforce them.
- Row order: the model keeps rows in storage order, but no property claims
  any order for query results. The filter properties are stated as
  membership.
- The text formatting of the balance, `str(int(...))` at connection.py:110:
  the model returns the integer.
- `Engine.Execute` recognises only `SELECT * FROM expenses [WHERE col=?
  [AND col=?]…]`, the form getTableWithFilters builds, not general SQL.
- `Engine.Execute` does not model driver errors other than a parse failure
  or a parameter-count mismatch. The statements the data layer builds hit
  neither.
