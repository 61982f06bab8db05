# Library management: circulation, fines, dashboards and inventory search

This project models the core of a Flask library-management application. The
model covers two entry points: the basic app (`app.py`) and the enhanced app
(`app_enhanced.py`). Both keep their catalogue in one SQLite `books` table.

The model covers:

- **Circulation** in `app.py`: adding, issuing, returning and deleting a book.
- **Fines and overdue.** The book list works out a fine for every record: 10 per
  day past the due date, and only for issued books. The basic dashboard counts
  total, issued and overdue books.
- **Enhanced statistics.** The enhanced dashboard and analytics page compute
  summary statistics, including category and language breakdowns.
- **Inventory query.** The inventory page builds its SQL text and parameter
  list, adding one filter clause per non-empty filter and an `ORDER BY` only for
  whitelisted columns.
- **JSON search.** The search endpoint returns nothing for queries shorter than
  two characters. Otherwise it returns the first ten title/author matches.

How the table and its operations are represented:

- **The table** is a `Library.Table`: the rows in scan (rowid) order, plus the
  highest id ever handed out. The second part models `AUTOINCREMENT`, so a
  deleted id is never reused.
- **Columns.** `Library.Book` holds the columns of both schemas. Nullable
  columns are `Option`s.
- **Dates** are day numbers (`int`). "Today" is a parameter everywhere.
- **Handlers.** Every request handler is a pure function from the table (and
  the form or query arguments) to the new table or to the page's data.
- **UPDATE/DELETE statements** act on every row whose id matches. The key-level
  view of the table is `Library.AsMap`.

Modules:

| Module | What it models |
|---|---|
| `Nullable` | The `Option` type used for SQL NULL. |
| `Text` | Substring search, and `LIKE '%s%'`. |
| `Library` | The book record, the table, the id allocator and the table invariant. |
| `Circulation` | `add_book`, `issue_book`, `return_book` and `delete_book`. |
| `Fines` | The overdue rule and the per-record fine of the book list. |
| `Grouping` | `GROUP BY` and `COUNT(DISTINCT …)` over a column. |
| `Dashboard` | The counts of both dashboards and the analytics breakdowns. |
| `Inventory` | The inventory query builder, the clause structure behind the query text, and what the query selects. |
| `Search` | The JSON search endpoint. |

The handlers are modelled as they are written. Some behaviour a reader might
expect is absent from the code; the model follows the code:

- Issuing does not check the book's status. Issuing an issued book
  overwrites the borrower and the due date.
- Returning, issuing or deleting an unknown id changes nothing and reports
  nothing.
- Titles are not validated.
- The inventory sort whitelist is title, author, category, rating and
  publication_year. Any other key gives no `ORDER BY` at all, rather than a
  default order.
- The inventory text search also matches `isbn`.
- The JSON search matches title and author only.
- The basic app records no issue date.

## Model

| member | source | states |
|---|---|---|
| Library.Where | app_enhanced.py:478-481 | A single-table SELECT … WHERE returns exactly the rows satisfying the condition. When ids increase in scan order, the result keeps scan order and holds no row twice. |
| Library.WhereLimit | app_enhanced.py:478-483 | With a LIMIT, at most `limit` rows come back, all matching, in scan order and without repeats. When fewer than `limit` come back, no matching row was left out. |
| Library.LimitIsPrefix | app_enhanced.py:482 | The LIMIT query returns exactly the first `limit` rows of the same query without a limit. |
| Library.NextId | app.py:19 | The id an insert receives is at least 1. It is above the highest id ever issued and above every present id, so it is fresh: AUTOINCREMENT never reuses an id. |
| Circulation.NewBook | app.py:20-25 | A new record has the given title, author and category. It is Available with no borrower and no due date, so it satisfies the circulation invariant. |
| Circulation.Issue | app.py:102-106 | An issued record is Issued, with the given borrower and a due date 7 days after today. Its catalogue fields are kept, and it satisfies the circulation invariant. |
| Circulation.Return | app.py:114 | A returned record is Available with no borrower and no due date. Its catalogue fields are kept, and it satisfies the circulation invariant. |
| Circulation.UpdateWhere | app.py:105-106 | An UPDATE … WHERE id=? applies the change to exactly the rows with that id. Every other row, the order and the length are untouched. |
| Circulation.DeleteWhere | app.py:122 | A DELETE … WHERE id=? keeps exactly the rows whose id differs. When ids increase in scan order, the survivors keep their order and none repeats. |
| Circulation.AsMapUpdateWhere | app.py:105-106 | As a key-to-record map, an update by id changes only that key's record, and only if the key is present. |
| Circulation.AsMapDeleteWhere | app.py:122 | As a key-to-record map, a delete by id removes exactly that key. |
| Circulation.AddBook | app.py:91-92 | Adding a book gives it a fresh id above every earlier one and records that id as the new high-water mark. The key-to-record map gains exactly the new key with the new record. |
| Circulation.IssueBook | app.py:99-106 | Issuing changes only the record with that id, without looking at its status. An unknown id leaves the catalogue as it was. |
| Circulation.ReturnBook | app.py:112-114 | Returning changes only the record with that id. An unknown id leaves the catalogue as it was. |
| Circulation.DeleteBook | app.py:120-122 | Deleting removes exactly that id from the catalogue and keeps the high-water mark, so the id is never handed out again. An unknown id changes nothing. |
| Circulation.IssueKeepsWellFormed | app.py:105-106 | Issuing preserves the table invariant: ids are increasing and within the high-water mark, and every record is Issued exactly when it has a borrower and a due date. |
| Circulation.ReturnKeepsWellFormed | app.py:114 | Returning preserves the table invariant. |
| Circulation.AddKeepsWellFormed | app.py:91-92 | Adding a book preserves the table invariant. |
| Circulation.DeleteKeepsWellFormed | app.py:122 | Deleting preserves the table invariant. |
| Circulation.IssueThenReturnRestores | app.py:105-114 | In a well-formed table, issuing an available book and then returning it gives back exactly the original table. |
| Circulation.IssueOverwritesIssue | app.py:105-106 | A second issue of the same book keeps only the second borrower and due date. |
| Circulation.ReturnOfAvailableIsNoOp | app.py:114 | Returning a book that is already available changes nothing in a well-formed table. |
| Circulation.AddThenDeleteRestoresRows | app.py:91-122 | Deleting the book just added restores the rows, but not the id counter: the next insert gets a larger id. |
| Fines.Fine | app.py:66-73 | The fine is never negative and is a whole number of days' fines. It is positive exactly when the book is issued, has a due date, and today is past it. |
| Fines.NoFineUntilDue | app.py:68-70 | On or before the due date there is no fine and the book is not overdue. |
| Fines.FineCountsDaysLate | app.py:70-72 | A book `d` days late owes `d` times 10. |
| Fines.FineMonotone | app.py:68-73 | For a fixed record, the fine and the overdue flag never decrease as days pass. |
| Fines.FineAfterIssue | app.py:102 | A loan made today owes nothing during its 7 days, then 10 per day after that. |
| Fines.ReturnClearsFine | app.py:114 | A returned book owes nothing and is not overdue. |
| Fines.ViewOf | app.py:65-79 | One line of the book list carries the record and its id. Its flag is set exactly when its fine is positive, and exactly when the record is overdue. |
| Fines.ViewBooks | app.py:58-81 | The book list has one line per record, in scan order. Each line carries that record's fine and overdue flag. |
| Dashboard.CountIssued | app.py:40 | The borrowed count never exceeds the number of rows. |
| Dashboard.CountOverdue | app.py:42-50 | The overdue count never exceeds the borrowed count. The enhanced dashboard's `status = 'Issued' AND due_date < date('now')` is the same predicate. |
| Dashboard.DashboardCounts | app.py:39-50 | The one-pass dashboard loop yields the row count, the issued count and the overdue count, with overdue ≤ borrowed ≤ total. |
| Dashboard.OverdueCountMatchesBookList | app.py:65-73 | The dashboard's overdue count equals the number of book-list lines flagged overdue. |
| Dashboard.CountOverdueLe | app.py:46-50 | Position-wise domination of overdue flags gives domination of the overdue counts. |
| Dashboard.OverdueCountMonotone | app.py:49 | As days pass, the overdue count never goes down. |
| Dashboard.IssueAddsNoOverdue | app.py:102-106 | Issuing a book never raises today's overdue count. |
| Dashboard.ReturnAddsNoOverdue | app.py:114 | Returning a book never raises the overdue count. |
| Dashboard.IndexStats | app_enhanced.py:203-210 | The statistics row gives the total, and an issued sum that is NULL exactly on an empty table and otherwise the issued count. Each distinct count plus one for a NULL value equals the number of GROUP BY groups of that column, which is at most the total. |
| Dashboard.GroupCountAtMostRows | app_enhanced.py:230-236 | There are never more groups than rows. |
| Dashboard.CategoryBreakdownSumsToTotal | app_enhanced.py:435-437 | The group counts add up to the number of rows, and each group counts exactly its rows. Rows with no category form a NULL group of their own. |
| Grouping.GroupBy | app_enhanced.py:435-440 | The groups have distinct keys, and the keys are exactly the column's values, NULL included. Every group counts exactly the rows with its key, at least one, and the counts add up to the number of rows. |
| Grouping.GroupsAreDistinctValuesPlusNull | app_enhanced.py:207-208 | The number of groups is COUNT(DISTINCT column), plus one when some row has NULL there. |
| Text.LikePatternIsSubstring | app_enhanced.py:318-319 | Under the modelled `LIKE` (case-sensitive, with `%` and `_` inside `s` read literally), a value matches `'%s%'` exactly when it is non-NULL and contains `s`. |
| Inventory.ReadFilters | app_enhanced.py:309-312 | Missing arguments default to empty filters and sort key `title`. Present arguments are taken as given. |
| Inventory.QueryTextIsClauses | app_enhanced.py:314-332 | The query text is the base query followed by one clause per non-empty filter (search, category, language, in that order) and the sort suffix. There is one parameter per clause placeholder. |
| Inventory.PlaceholdersMatchParams | app_enhanced.py:314-327 | The number of `?` placeholders in the text equals the number of parameters: 3 for a search, plus 1 each for category and language. |
| Inventory.EmptyFiltersAddNothing | app_enhanced.py:314-332 | With every filter empty, the query is the base query with no parameters and the sort suffix. |
| Inventory.OrderByOnlyForValidSort | app_enhanced.py:329-332 | The text contains ` ORDER BY ` exactly when the sort key is one of the five whitelisted columns. It then ends with that column, and otherwise carries no sort clause. |
| Inventory.QueryTextIgnoresValues | app_enhanced.py:314-332 | The query text depends only on which filters are non-empty and on the sort key, never on the values the user typed. Those reach SQLite only as parameters. |
| Inventory.QueryParamsInOrder | app_enhanced.py:315-327 | The parameters are the three `%q%` patterns, then the category, then the language, each present only with its filter. |
| Inventory.QueryDenotesSelects | app_enhanced.py:314-327 | Evaluating the WHERE clauses with positionally bound parameters accepts a record exactly when it matches the filters. A match means: the search text in title, author or isbn; exactly the category; exactly the language. |
| Inventory.RunQuery | app_enhanced.py:314-327 | The rows the assembled WHERE clauses accept: exactly the rows they accept, each once. When ids increase, they come in scan order, which is the order before any ORDER BY. |
| Inventory.InventorySelectsExactly | app_enhanced.py:314-334 | The inventory page lists exactly the rows that match the filters. The selection does not depend on the sort key (multiset equality). This holds because the model leaves `ORDER BY` out: it shows that sorting is not part of the selection, not how the page is sorted. |
| Search.ApiSearch | app_enhanced.py:472-486 | A query shorter than 2 characters returns nothing. Otherwise at most 10 hits come back. Each hit is a table row whose title or author contains the query. When fewer than 10 come back, every such row is present. On a well-formed table, the hits have strictly increasing ids, so none repeats. |
| Search.ApiSearchTakesFirstMatches | app_enhanced.py:472-486 | For a query of 2 or more characters, the hits are exactly the first 10 matching rows in scan order, or all of them when fewer match. |

## Left out

- HTTP routing, templates, flash messages, redirects, translations, sessions,
  login and registration are not modelled. They are presentation and
  framework plumbing around the core.
- Seed data and the table DDL are not modelled as operations. The column
  defaults (`status` Available, `language` English, NULL borrower and due
  date) are built into the new record.
- Clock and date formatting are not modelled. Today is a day-number parameter,
  and due dates are day numbers rather than `YYYY-MM-DD` strings.
- The difference between `date('now')` (UTC) and the local `datetime.now()` is
  not modelled.
- Floating point is not modelled. This covers the `julianday` fine total of the
  enhanced dashboard, the `AVG` overdue days of the analytics page, and the
  `rating` column.
- Text.LikePatternIsSubstring describes the modelled `LIKE`, not SQLite's. The
  modelled `LIKE` is case-sensitive and reads `%` and `_` inside `s` literally.
  SQLite folds ASCII case and treats them as wildcards, so `'AB' LIKE '%ab%'`
  holds in SQLite but not in the model.
- Search.ApiSearch matches case-sensitively and treats `%` and `_` in the query
  literally. SQLite's `LIKE` folds ASCII case and treats them as wildcards.
  Before the `LIMIT 10` cut, the modelled matches are therefore a subset of the
  real matches. After the cut, the two hit lists can differ entirely: if rows
  1-10 have title `AB` and row 11 has title `ab`, then for the query `ab`
  SQLite returns rows 1-10 and the model returns only row 11.
- Search.ApiSearchTakesFirstMatches has the same `LIKE` simplification.
- Inventory.QueryDenotesSelects has the same `LIKE` simplification as
  Search.ApiSearch.
- Inventory.InventorySelectsExactly states which rows are selected, not their
  order: the effect of `ORDER BY` and SQLite collation on row order is not
  modelled.
- Inventory.RunQuery returns the selected rows in scan order. The
  `ORDER BY {sort_by}` that the handler runs with them is not applied. The
  default sort key `title` is whitelisted, so even the default inventory page
  is in title order, not scan order.
- Grouping.GroupBy returns the groups in order of first appearance. The
  `ORDER BY count DESC` that the analytics breakdowns and the
  popular-categories list add is not modelled, so the contract says which
  groups there are and what they count, not their order.
- Dashboard.IndexStats covers the statistics row only. The popular-categories
  list (`GROUP BY category ORDER BY count DESC LIMIT 6`) is modelled only
  through the bound on the number of groups; its order, its tie order and its
  cut at six groups are not modelled.
- The recent-books list (`ORDER BY created_at`), the top-rated list and the
  distinct filter-option lists of the inventory page are not modelled. They
  depend on columns not modelled here (creation time, rating) or only on
  ordering.
- The users, reservations, reviews and transactions tables, the monthly
  transaction statistics, and the copy counts are not modelled. Neither are
  `issue_date` and `created_at`. None of them is part of circulation as the
  basic app performs it.
- Errors raised by SQLite are not modelled: a full id space, a locked database,
  or the unique-isbn constraint (no modelled insert writes an isbn). Neither
  are the handlers' exception branches.
- Concurrent requests are not modelled. Each handler is one atomic step.
- Both apps' columns are modelled in one record. The basic app's `borrower` and
  the enhanced schema's `borrower_name` are the same field.
