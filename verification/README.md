# CRM core in Dafny

A model of the data core of a small CRM: the SQLite customer store
(`crm/database.py`), the one guard the command line adds on top of it
(`crm/cli.py`), the CSV importer that maps free-form headers onto canonical
fields (`core/csv_import.py`), and the column repair and status counts the
web app applies to its `clientes.csv` sheet (`app.py`).

- **Store** (`database.dfy`). The database file is an immutable value `Db`:
  - the rows of `customers` and of `interactions`, in rowid order;
  - the AUTOINCREMENT counter of each table.

  Each operation is a pure function of the state. A write returns a `Reply`
  holding the state after the call and either the new id or the error SQLite
  raises. A failed statement is rolled back, so the state comes back unchanged.

  The model keeps the SQL semantics the code relies on:
  - NOT NULL columns;
  - the UNIQUE email, under which NULLs never collide;
  - ids that are never reused, up to SQLITE_FULL at 2^63-1;
  - the OverflowError Python's sqlite3 raises when an integer parameter lies
    outside the 64-bit INTEGER range;
  - LIKE with `%` and `_` and ASCII case folding;
  - `ORDER BY name COLLATE NOCASE` and `ORDER BY created_at DESC`;
  - the `GROUP BY type` count;
  - an unenforced FOREIGN KEY.
- **StoreFacts** (`database_facts.dfy`). Properties that span several calls:
  - the add-then-get round trip;
  - ids stay fresh over any sequence of writes;
  - a search is a case-insensitive substring test;
  - the summary agrees with the interaction listing;
  - the three scenarios of `crm/tests/test_database.py`.
- **Cli** (`cli.dfy`). The existence check `add-interaction` runs before it
  inserts.
- **CsvImport** (`csv_import.dfy`). `parse_csv` in two forms:
  - as the code is written, including the two ways it misbehaves (see
    Findings);
  - as evidently intended, with the contract proved against each row.
- **Clientes** (`clientes.dfy`). `normalize_clientes` completes the expected
  columns, fills the status, converts two columns and orders the result. It is
  proved idempotent: normalising a table that was already normalised changes
  nothing. Writing the sheet to CSV and reading it back is a separate step,
  and it does change blank cells (see `Clientes.BlankStatusReloaded`).
  `calculate_metrics` counts the statuses.
- Helpers:
  - `Text`: ASCII lowercasing, Python's `str.strip`, lexicographic order and
    substrings;
  - `SqlLike`: the LIKE matcher;
  - `Sorting`: insertion sort by a total preorder;
  - `Wrappers`: `Option` and `Result`.

Clocks and external conversions are parameters:
- the `created_at` timestamp is the `now` argument of `AddInteraction`;
- the numeric and date conversions of `normalize_clientes` are the `numeric`
  and `date` functions.

Two behaviours a reader of the schema might not expect follow the code as it
stands:
- An empty `name` or `type` is stored: only NULL is refused (NOT NULL), and
  there is no separate validation error.
- An interaction for a customer id that does not exist is stored. SQLite
  leaves the FOREIGN KEY clause unenforced because `PRAGMA foreign_keys` is
  never switched on. `Cli.OrphanInteraction` shows this, and only the
  command-line guard prevents it.

## Model

| member | source | states |
|---|---|---|
| Store.Commit | crm/database.py:66-74 | a failed statement leaves the state as it was and reports the error; a successful one yields the new state and the statement's result |
| Store.AddCustomer | crm/database.py:44-84 | succeeds exactly when the counter has room, the name is not NULL and a non-NULL email is not already stored. Otherwise it fails with SQLITE_FULL, then NOT NULL on `customers.name`, then UNIQUE on `customers.email`, in that order, with the state unchanged. On success it appends exactly the given row under an id above the old counter and above every stored id, and touches nothing else. It keeps the state valid |
| Store.FindCustomer | crm/database.py:88-90 | `None` exactly when no customer has the id; otherwise a stored customer with that id |
| Store.GetCustomer | crm/database.py:86-91 | raises OverflowError exactly when the id is outside SQLite's 64-bit INTEGER range, because binding it fails at line 88. Otherwise `None` exactly when no stored customer has the id, and else a stored customer carrying that id |
| Store.MatchesPattern | crm/database.py:97 | no contract of its own: the WHERE clause, a LIKE on name, email or company where a NULL column never matches. StoreFacts.SearchIsSubstring characterises it |
| Store.Selected | crm/database.py:96-99 | no contract of its own: `if search:` skips the filter for no search and for an empty one. Store.Matching and StoreFacts.SearchIsSubstring characterise it |
| Store.Matching | crm/database.py:94-99 | keeps each customer as often as it is stored if it passes the search, else drops it; no search, or an empty one, keeps everyone |
| Store.NameOrderIsTotal | crm/database.py:100 | NOCASE name order is a total preorder, so the listing's sort is well defined |
| Sorting.SortBy | crm/database.py:100 | the result is ordered by the given total preorder and is a permutation of the input |
| Store.ListCustomers | crm/database.py:93-103 | the result is in NOCASE name order and holds each selected stored customer exactly as often as it is stored, and no one else; with no search, or an empty one, it is a permutation of all customers |
| Store.InsertCustomer | crm/database.py:80-83 | the INSERT statement before commit: succeeds exactly when the counter has room, the name is not NULL and a non-NULL email is not stored yet; a full counter fails with SQLITE_FULL before any constraint is looked at; a success draws id old counter + 1 and appends exactly the given row, changing nothing else |
| Store.InsertInteraction | crm/database.py:107-110 | the INSERT statement before commit: an out-of-range customer id fails with OverflowError before anything else; otherwise it succeeds exactly when the counter has room and neither the id nor the type is NULL; a success draws id old counter + 1 and appends exactly the given row, changing nothing else |
| Store.AddInteraction | crm/database.py:105-111 | succeeds exactly when the customer id is not NULL and fits SQLite's 64-bit INTEGER, the counter has room, and the type is not NULL. It fails in that order: OverflowError while binding the id (line 109), then SQLITE_FULL, then NOT NULL on `customer_id`, then NOT NULL on `type`. It does not check the customer exists. A failure leaves the state unchanged. A success appends exactly the new row under a fresh id and keeps the state valid |
| Store.ListInteractions | crm/database.py:113-118 | raises OverflowError exactly when the customer id is outside SQLite's 64-bit INTEGER range (binding at line 116). Otherwise the result is newest first by `created_at`; holds exactly the customer's interactions, each as often as stored; empty exactly when the customer has none |
| Store.NoneListed | crm/database.py:113-118 | a selection holding exactly the customer's interactions is empty iff the customer has none |
| Store.CountByKind | crm/database.py:125-131 | keys are exactly the types present; each value is how often that type occurs |
| Store.CustomerSummary | crm/database.py:120-132 | raises OverflowError exactly when the id is outside SQLite's 64-bit INTEGER range (binding at lines 122 and 126). Otherwise `None` exactly when the customer is absent; otherwise that customer, with one count per type among its interactions, each equal to the number of its interactions of that type |
| StoreFacts.EmptyIsValid | crm/database.py:40-64 | a freshly created database satisfies every schema invariant |
| StoreFacts.AddThenGet | crm/database.py:76-91 | after a successful `add_customer`, `get_customer` on the returned id gives back exactly the row written |
| StoreFacts.SameEmailTwice | crm/database.py:44-84 | a second customer with an already stored email is refused with the UNIQUE error, nothing is written, and the first customer is still retrievable |
| StoreFacts.NullEmailsRepeat | crm/database.py:47 | two customers without an email are both stored; NULL never violates UNIQUE |
| StoreFacts.ApplyStep | crm/database.py:76-111 | a single write keeps the state valid, leaves it unchanged on failure, and returns an id above its table's old counter that becomes the new counter |
| StoreFacts.IdsNeverReused | crm/database.py:44-62 | over any sequence of writes the state stays valid, counters never go down, and each table's ids come out strictly increasing, all above what the table held before |
| SqlLike.Like | crm/database.py:97-98 | no contract of its own: LIKE with `%`, `_` and ASCII case folding. SqlLike.PercentMatchesAll, SqlLike.PrefixPattern, SqlLike.FloatingPattern and SqlLike.SearchPatternIsSubstring characterise it |
| SqlLike.PercentMatchesAll | crm/database.py:96-99 | a lone `%` pattern matches every text |
| SqlLike.PrefixPattern | crm/database.py:96-99 | a wildcard-free pattern followed by `%` matches exactly the texts that start with it, ignoring ASCII case |
| SqlLike.FloatingPattern | crm/database.py:96-99 | a pattern opened by `%` matches exactly when some suffix of the text matches the rest of the pattern |
| SqlLike.SearchPatternIsSubstring | crm/database.py:96-99 | for wildcard-free search text, `%s%` matches exactly the texts containing `s` up to ASCII case |
| StoreFacts.SearchIsSubstring | crm/database.py:96-99 | a non-empty wildcard-free search selects a customer iff its name, email or company contains the text up to ASCII case; a NULL column never matches |
| StoreFacts.SearchWithinAll | crm/database.py:93-103 | every search result is part of the unfiltered listing, multiplicities included |
| StoreFacts.ListedAtMostOnce | crm/database.py:93-103 | in a valid store no customer id appears twice in a listing |
| StoreFacts.OnlyMatch | crm/database.py:93-103 | a listing where exactly one stored customer passes the search is that customer alone |
| StoreFacts.TwoInOrder | crm/database.py:100-103 | two customers, the first strictly before the second in NOCASE order, are listed in that order |
| StoreFacts.NewestFirst | crm/database.py:113-118 | with a clock that moved on, the interaction just added heads the customer's listing |
| StoreFacts.CountsSumToLength | crm/database.py:125-131 | the per-type counts add up to the number of interactions counted |
| StoreFacts.KindsOfPermutation | crm/database.py:125-131 | reordering interactions leaves the count of every type unchanged |
| StoreFacts.SummaryMatchesListing | crm/database.py:113-131 | the summary and the listing raise OverflowError for the same ids; otherwise each summary count is the number of listed interactions of that type, every listed type has a count, and the counts sum to the listing's length |
| StoreFacts.CustomerAppended | crm/database.py:76-84 | an insert the schema admits gets id old counter + 1 and is appended, leaving the interactions alone |
| StoreFacts.InteractionAppended | crm/database.py:105-111 | an interaction insert with room and an in-range customer id gets id old counter + 1 and is appended, leaving the customers alone |
| StoreFacts.HugeIdRefused | crm/database.py:105-118 | an id one past either end of the 64-bit INTEGER range is refused with OverflowError, even by a full table, and the state is unchanged; the look-ups refuse it too |
| StoreFacts.AddAndGetScenario | crm/tests/test_database.py:6-15 | Alice, added to a new database, gets id 1 and is read back with every field as written |
| StoreFacts.SearchScenario | crm/tests/test_database.py:18-25 | with Alice Smith and Bob Johnson stored, searching "Alice" lists Alice Smith alone, and the unfiltered listing puts Alice before Bob |
| StoreFacts.CallThenEmailListing | crm/tests/test_database.py:31-35 | a call and an email, at any two stamps, are both listed, in one order or the other; email first when its stamp is later |
| StoreFacts.CallThenEmailSummary | crm/tests/test_database.py:37-41 | the summary of that customer counts one call and one email and nothing else |
| StoreFacts.InteractionsScenario | crm/tests/test_database.py:28-41 | the test for any two clock readings, equal ones included: two interactions are listed (email first when the clock moved on), and the summary is the customer with id 1 with one call and one email |
| Cli.GuardedAddInteraction | crm/cli.py:88-93 | the look-up raises OverflowError exactly when the id is outside SQLite's 64-bit INTEGER range; otherwise it refuses exactly when no customer has the id, and else it is the store's insert, which succeeds iff the counter has room and keeps every interaction attached to a stored customer |
| Cli.AddCustomerKeepsReferences | crm/database.py:76-84 | adding a customer never detaches an interaction from its customer |
| Cli.OrphanInteraction | crm/database.py:55-62 | the store itself accepts an interaction for a customer that does not exist, and the state stops being referential |
| Cli.GuardRefusesOrphan | crm/cli.py:89-91 | the guarded command turns that same call into the not-found exit |
| Cli.GuardRaisesOnHugeId | crm/cli.py:89 | an id one past the largest INTEGER makes the look-up raise OverflowError; nothing is inserted |
| Text.Strip | core/csv_import.py:15 | the result is a slice of the input with only white space outside it, and it neither starts nor ends with white space: the input minus its leading and trailing white space. A string with none is returned unchanged |
| Text.LowerIdempotent | core/csv_import.py:15 | lowercasing twice is lowercasing once |
| Text.LexLeqTotal | crm/database.py:100 | any two names are comparable |
| Text.LexLeqTransitive | crm/database.py:100 | the name order is transitive |
| CsvImport.Aliases | core/csv_import.py:3-11 | every canonical key has at least two accepted spellings, none repeated |
| CsvImport.AliasesDisjoint | core/csv_import.py:3-11 | no header spelling is accepted for two canonical keys |
| CsvImport.Key | core/csv_import.py:15 | the normalised header is the lowercased slice of the header left after cutting white space from both ends: only white space lies outside it, and the slice neither starts nor ends with it |
| CsvImport.IndexOf | core/csv_import.py:15 | `cols` maps every normalised header to the last column carrying it, and holds nothing else |
| CsvImport.FirstPresent | core/csv_import.py:17-20 | finds the first spelling, in preference order, that `cols` holds; `None` iff it holds none |
| CsvImport.ColOf | core/csv_import.py:17-20 | `None` iff `cols` holds no spelling of the list; otherwise the column `cols` gives the first spelling, in preference order, that it holds |
| CsvImport.FirstAliasColumn | core/csv_import.py:15-20 | `col_of` finds nothing iff no header normalises to an accepted spelling; otherwise the last column carrying the most preferred spelling that any header normalises to |
| CsvImport.ColumnIsFirstAlias | core/csv_import.py:17-28 | a field takes no column iff no header normalises to one of its spellings; otherwise one whose header does |
| CsvImport.ClaimedByOne | core/csv_import.py:22-28 | no column is taken by two fields |
| CsvImport.ChosenHeaderNonEmpty | core/csv_import.py:24-25 | the header found is never empty, so `if c:` never drops a found column |
| CsvImport.Resolve | core/csv_import.py:22-42 | each field takes the column `col_of` gives it, every taken column exists, and none is taken twice |
| CsvImport.Payload | core/csv_import.py:45-46 | the payload keys are exactly the headers of the untaken columns, each mapped to its cell; no taken header appears |
| CsvImport.Take | core/csv_import.py:23-28 | no contract of its own: the cell of the column the field took, if any. CsvImport.CopiedFields and CsvImport.DefaultedOf characterise it |
| CsvImport.Defaulted | core/csv_import.py:36-40 | a defaulted field is always lowercase |
| CsvImport.DefaultedOf | core/csv_import.py:36-40 | a defaulted field is the default for a missing column or cell, and otherwise the cell lowercased |
| CsvImport.ParseRow | core/csv_import.py:30-46 | every record carries a status and a priority, both lowercase |
| CsvImport.ParseCsv | core/csv_import.py:13-47 | one record per data row, in order, each the row's parse |
| CsvImport.StatusDefault | core/csv_import.py:36-37 | `status` is "aberto" when the column or the cell is missing, and otherwise the cell lowercased |
| CsvImport.PriorityDefault | core/csv_import.py:39-40 | `prioridade` is "media" when the column or the cell is missing, and otherwise the cell lowercased |
| CsvImport.CopiedFields | core/csv_import.py:31-34 | protocolo, nome, documento, assunto and data_evento copy the taken column's cell, and are missing when no header names them |
| CsvImport.PayloadExact | core/csv_import.py:45-46 | the payload holds exactly the untaken columns, under their headers, with their cells |
| CsvImport.RowPartition | core/csv_import.py:22-46 | every cell lands in exactly one place: the single field that took its column, or the payload |
| CsvImport.IndexedBefore | core/csv_import.py:30-40 | no contract of its own: whether a Series was assigned to `out` before the field's scalar default. CsvImport.AsWrittenRow states what follows from it |
| CsvImport.AsWrittenRow | core/csv_import.py:30-40 | as written: `status` is NaN exactly when there is no status column and no protocolo, nome, documento or assunto column; `prioridade` is NaN exactly when, in addition, there is no prioridade column. Otherwise both are the corrected values, and every other field is as corrected |
| CsvImport.AsWrittenFrame | core/csv_import.py:30-46 | as written, assigning the payload fails iff there are rows and every column was taken; otherwise one record per row |
| CsvImport.ParseCsvAsWritten | core/csv_import.py:13-47 | as written, the import fails iff the file has rows and no column is left for the payload |
| CsvImport.AsWrittenFrameAgrees | core/csv_import.py:30-46 | once a column before `status` gave the frame its rows and some column is left over, the code as written yields the corrected frame |
| CsvImport.AsWrittenAgrees | core/csv_import.py:30-46 | with a protocol, name, document or subject column present and some column left over, the code as written and the corrected import agree |
| CsvImport.DefaultsLost | core/csv_import.py:30-40 | a file with one unknown column: as written, status and priority come out NaN; corrected, "aberto" and "media" |
| CsvImport.EverythingClaimed | core/csv_import.py:45-46 | a file with one protocol column: as written, the import fails; corrected, the record has protocolo "1" and an empty payload |
| Clientes.ExpectedFacts | app.py:20-28 | the expected column labels are distinct |
| Clientes.Fill | app.py:72-73 | a column the table lacks is created without NaN: 0 for `valor_estm`, and "" for every other label |
| Clientes.Without | app.py:90-92 | keeps exactly the labels outside the dropped set |
| Clientes.WithoutAppend | app.py:90-92 | the filter keeps the relative order of what it keeps |
| Clientes.Complete | app.py:71-73 | the table stays well formed and keeps its rows. The missing expected columns are appended in declared order, each filled with "" (0 for `valor_estm`). Existing columns are kept with their cells |
| Clientes.Layout | app.py:90-93 | the expected labels come first in declared order, then the others; no label is lost or invented, and unique labels stay unique |
| Clientes.LayoutIdempotent | app.py:90-93 | ordering an ordered label list changes nothing |
| Clientes.Normalize | app.py:68-93 | The result holds every input and expected column exactly once: expected ones first in declared order, the rest in input order. Each cell is the input cell, or the fill value of an added column, passed through its column's conversion: a NaN status becomes "Lead", `valor_estm` goes through `numeric`, `ultima_interacao` through `date`, and other columns are unchanged |
| Clientes.Convert | app.py:75-88 | a NaN status becomes "Lead" and any other status is kept; a column other than status, `valor_estm` and `ultima_interacao` is left as it was |
| Clientes.ConvertIdempotent | app.py:75-88 | with idempotent numeric and date conversions, converting a converted cell changes nothing |
| Clientes.NormalizeOrderIdempotent | app.py:96-104 | normalising what was normalised gives the same column order, for any conversions |
| Clientes.NormalizeIdempotent | app.py:96-104 | with idempotent conversions, normalising a normalised table changes nothing, so the normalisation `persist_clientes` applies to a table `load_clientes` returned leaves it as it was before it is written |
| Clientes.AbsentStatusIsBlank | app.py:71-75 | a table without a status column gets one of empty strings, not "Lead", so none of its rows is a lead |
| Clientes.Reload | app.py:98-104 | writing a table with `to_csv` and reading it with `read_csv` keeps its labels, order and rows. It turns every cell holding the empty string or one of `read_csv`'s default NA texts ("NA", "N/A", "null", "nan", "None", …) into NaN, and leaves every other cell as it was |
| Clientes.StatusReloaded | app.py:75-104 | after a save, a load and the load's normalisation, a status that was NaN, blank or an NA text such as "N/A" or "null" becomes "Lead", and every other status is kept |
| Clientes.NotAvailableBecomesLead | app.py:75-104 | a client saved with status "N/A" has status "Lead" after the next load |
| Clientes.BlankStatusReloaded | app.py:71-75 | a table read without a status column is saved with blank statuses, and after reading the file back and normalising again every one of those rows has status "Lead" |
| Clientes.CountsBounded | app.py:107-117 | three distinct values together occur no more often than the sequence is long |
| Clientes.CalculateMetrics | app.py:107-117 | of the failures, models only the KeyError of `df["status"]`: it is raised exactly when there is no status column. The errors `int()` raises on the float sum at line 109 are left out (see Left out). Otherwise `total` is the row count and leads, prospects and clientes are how many rows hold exactly "Lead", "Prospect" or "Cliente". The three never exceed the total |

## Left out

- The SQLite file itself: connections, the directory creation of `_ensure_parent_dir`, `CREATE TABLE IF NOT EXISTS` on an existing file, and I/O or locking errors. The store is a value, and one statement is one transaction.
- `created_at` is a number of seconds passed in as `now`, not `CURRENT_TIMESTAMP` text. The two orders agree, and ties between equal stamps may be listed in either order.
- SQLite's NOCASE collation and LIKE fold only ASCII letters, and so does the model. Python's `str.lower` in the CSV importer folds all of Unicode; the model folds ASCII only.
- `pd.read_csv` itself (quoting, type inference, the renaming of repeated headers): a table arrives as distinct headers and rows of optional text cells.
- CsvImport.CopiedFields: `data_evento` is the raw cell. `pd.to_datetime(errors="coerce").dt.date` is not modelled, since it needs a date parser.
- Clientes.Normalize: `to_numeric(...).fillna(0).astype(float)` and the `to_datetime` / `today()` / `strftime` chain are the parameters `numeric` and `date`. Floats, date parsing and the clock are outside the model.
- Clientes.CalculateMetrics: `faturamento` (the float sum of `valor_estm`) is not computed. Float summation and `int()` truncation are outside the model, and so is the failure they cause. `int()` raises OverflowError when the sum is infinite (a `valor_estm` of "inf" survives `to_numeric`) and ValueError when it is NaN (inf plus -inf). With a status column present, `calculate_metrics` then fails while the model returns the counts. The model's `None` stands only for the missing status column.
- `ensure_data_file` (the sample sheet written on first run), `load_clientes` and `persist_clientes` as file I/O.
- Clientes.Reload: models what `to_csv` followed by `read_csv` does to missing values. An empty field and pandas' default NA texts are read back as NaN, so such a status saved by `persist_clientes` becomes "Lead" on the next load. The type inference of `read_csv` (text that looks like a number comes back as one), quoting, and the float formatting of `to_csv` are not modelled.
- Store.ListCustomers: SQLite refuses a LIKE pattern longer than SQLITE_LIMIT_LIKE_PATTERN_LENGTH (50000 bytes by default) with "LIKE or GLOB pattern too complex". Python reports this as OperationalError once a row is scanned, so `list_customers` fails for a search of more than 49998 UTF-8 bytes when any customer is stored. The model has no such failure and lists the matches for any search length, because it does not count UTF-8 bytes.
- The rest of crm/cli.py (argument parsing, printing) and of app.py (Flask routes, login, sessions), the Streamlit pages, core/auth.py and core/supabase_client.py: user interface and remote services, with no logic of the core.

## Findings

| source | as written | input that shows it | evidently intended | confidence | as-written member | corrected member |
|---|---|---|---|---|---|---|
| core/csv_import.py:30-40 | `out` starts with no rows, and only a Series gives it rows. When no protocolo, nome, documento or assunto column is found and there is no status column, "aberto" is assigned to a frame of zero rows. When there is also no prioridade column, "media" is assigned the same way; a status column makes `stc` a Series and gives the frame its rows before "media" is assigned. When the payload list later gives the frame its rows, a column assigned to the empty frame is padded with NaN | a CSV with the single header `x` and one row `1` | every record has status "aberto" and prioridade "media" when the file has no such columns | medium, not executed | CsvImport.DefaultsLost | CsvImport.StatusDefault |
| core/csv_import.py:45-46 | when every column is taken, `extra` has no columns and `to_dict(orient="records")` returns an empty list. Assigning it to a frame with rows raises a length-mismatch ValueError | a CSV with the single header `protocolo` and one row `1` | one record per row, with an empty payload | medium, not executed | CsvImport.EverythingClaimed | CsvImport.PayloadExact |
