# A verified model of the WebSQL stock-purchase ledger

`static_websql/websql_test.js` is a browser page that keeps a ledger of stock
purchases in a WebSQL (SQLite) database named `mykabu_db`. The database has three
tables:

- `journal` is an audit log of every journalled change.
- `tickers` holds the known stock symbols.
- `buy_lots` holds one row per purchase.

At load time the page creates the tables and seeds two tickers. The buy form is
validated and trimmed. Its ticker field is trimmed and upper-cased, then looked
up, and the purchase is recorded together with a journal entry. The page then
lists the holdings: the lots joined with their tickers, with
`lot_price = shares * price_per_share`, ordered by timestamp. The column names,
the notes and the text columns are shown through `sanitizeText`, an HTML escape;
the share count, the price and `lot_price` are shown through
`Intl.NumberFormat` instead.

This project models that logic in Dafny and proves what it promises.

- **Store (`store.dfy`)** gives the whole database as a value `Db`: which tables
  exist, their rows, and each table's AUTOINCREMENT counter. It also gives the
  SQLite meaning of the four statements the program runs:
  - `CREATE TABLE IF NOT EXISTS`;
  - the two `INSERT OR REPLACE` statements on `tickers`;
  - the `INSERT` into `buy_lots`.

  A WebSQL transaction is one statement plus, optionally, a journal insert. It
  either commits both or leaves the database as it was. `Consistent` is the
  invariant every state reached by the program keeps:
  - ticker symbols are unique;
  - no id exceeds its table's counter;
  - lot and journal ids ascend;
  - a table that does not exist has no rows.
- **KabuDb (`kabu_db.dfy`)** holds the class `MyKabuDb`, with one field per table
  and per counter. Its methods update those fields in place:
  - `ExecuteSql` runs one statement;
  - `AddTx` is `Journal.add_tx`;
  - `TransactionExecuteSql` takes a snapshot, runs the statement and the
    journal insert, and rolls back on failure;
  - the two reads are `SelectTickerIds` and `SelectHoldings`.

  Each method is proved to reach exactly the state `Store` gives.
- **Journal, Tickers, BuyLots** model the table classes: `create_table` for each,
  plus `Tickers.insert` (the dual-mode upsert) and `Journal.add`.
- **Page** holds the handlers:
  - `renderPage` together with `MyKabuDB.create_tables`;
  - `handleBuySubmit`;
  - `handleBuySubmitTicker`;
  - `show_buy_lots`.
- **Validation** models `validateBuyData` with its three regular expressions.
- **Listing** models the holdings query: the join, the projection and the sort.
- **Text** holds the string functions: `trim`, `toUpperCase`, the `replace`
  chain of `sanitizeText`, and SQLite's BINARY text order.

Inputs the program takes from its surroundings become parameters:

- The time of `DATETIME('NOW')` is `now`.
- What an earlier run left in the database is the constructor's `persisted`.
- The values of the form fields are a `BuyForm` and `tickerField`.
- An engine or host failure is a boolean, `hostAborts`. An operation made of
  several transactions takes a `host: seq<bool>`, one entry per transaction.

Three behaviours of the code are easy to misread; the model follows the code:

- **The tickers table uses AUTOINCREMENT.** The code declares `tickers.id` as an
  AUTOINCREMENT primary key (websql_test.js:125), not a plain primary key, so
  an id is never reused after its row is deleted. The model keeps a counter
  for `tickers` too. An insert without
  an id takes counter + 1, and an explicit id raises the counter to at least
  that id.
- **A duplicate symbol is replaced, not refused.** The UNIQUE constraint on
  `tickers.ticker` might suggest that an upsert by a symbol already present
  fails with a constraint violation. It cannot: both branches are
  `INSERT OR REPLACE`.
  - SQLite deletes every row that conflicts on the id or on the UNIQUE
    symbol, then inserts the new row.
  - So the by-symbol branch replaces the old row with a new one under a fresh
    id (`Tickers.InsertBySymbol`).
  - The by-id branch also deletes any other row that carries the same symbol
    (`Tickers.InsertById`).
- **Several matching tickers are not an error.** The `console.assert` on the
  number of matching tickers (websql_test.js:250) reads like an invariant
  check, but it only logs and the code goes on with the first row. The model uses the
  first row as well (`Page.RecordPurchase`). Under the UNIQUE constraint there is
  never more than one match (`Store.AtMostOneTickerId`, `Store.LookupRows`).

## Model

| member | source | states |
|---|---|---|
| Text.Trim | static_websql/websql_test.js:227-231 | `trim()` removes exactly a run of JavaScript white space (WhiteSpace and LineTerminator code points) from each end: the result is a contiguous slice of the input whose surroundings are all white space, and it neither starts nor ends with white space |
| Text.ToUpper | static_websql/websql_test.js:220 | `toUpperCase()` keeps the length, maps every character through the ASCII case mapping, and leaves no lower-case ASCII letter |
| Text.ReplaceAll | static_websql/websql_test.js:345-351 | a global `replace` whose replacement text holds no match leaves no match in the result, and one with nothing to match returns its input |
| Text.ReplaceAllConcat | static_websql/websql_test.js:345-351 | a global replace of one character class distributes over concatenation |
| Text.ReplaceChainIsEscape | static_websql/websql_test.js:344-351 | the seven replaces, applied in the order written, equal escaping each input character on its own (`&` `<` `>` `"` `'` to entities, newline to `<br/>`, any other white space to `&nbsp;`): no later step re-escapes what an earlier one produced |
| Text.SanitizeText | static_websql/websql_test.js:344-352 | `sanitizeText` is the per-character escape, and it returns the empty string exactly for the empty input |
| Text.SanitizeInert | static_websql/websql_test.js:344-352 | no white space and no `"` or `'` remain in the output |
| Text.SanitizeAnglesOnlyInBreaks | static_websql/websql_test.js:344-352 | every `<` in the output begins the sequence `<br/>` |
| Text.LexLeTotal | static_websql/websql_test.js:278 | the BINARY text order used by `ORDER BY buy_lots.timestamp` is total |
| Text.LexLeTransitive | static_websql/websql_test.js:278 | the BINARY text order is transitive |
| Validation.MatchesWhole | static_websql/websql_test.js:233 | a pattern between `^` and `$` matches exactly the texts of its length whose every character matches the atom at its position |
| Validation.TimestampShape | static_websql/websql_test.js:233 | the timestamp check accepts exactly 19-character texts with `-` at 4 and 7, a space at 10, `:` at 13 and 16, and digits elsewhere |
| Validation.NumberPrefixLength | static_websql/websql_test.js:237 | when the `\d+(\.\d*)?` match exists, it is a prefix of the text and a number literal |
| Validation.NumberTestMeaning | static_websql/websql_test.js:237-243 | `/^\d+(\.\d*)?/.test(s)` holds exactly when some prefix of `s` is a number literal, and so exactly when `s` starts with a digit |
| Validation.TrailingGarbageAccepted | static_websql/websql_test.js:237 | `10abc` is not a number literal, yet the share and price check accepts it |
| Validation.ValidateBuyData | static_websql/websql_test.js:225-246 | the form is accepted exactly when the trimmed timestamp has the full shape and the trimmed shares and price each start with a digit. The accepted data is the five trimmed fields. The first failing check decides the error: a bad date is reported whatever the other fields hold, a shares error exactly when the date is valid and the shares fail, and a price error exactly when the date and the shares pass and the price fails, each with the trimmed value that failed |
| Listing.NumericValue | static_websql/websql_test.js:275 | the number SQLite's `*` reads from a stored text is never negative and is 0 for a text that fails the `^\d+(\.\d*)?` test |
| Listing.NumericValueInteger | static_websql/websql_test.js:275 | a whole number followed by anything but a digit or a point reads as the value of its digits |
| Listing.NumericValueDecimal | static_websql/websql_test.js:275 | a decimal `a.b` followed by anything but a digit reads as `a` plus `b` over ten to the number of digits of `b` |
| Listing.DecimalExample | static_websql/websql_test.js:275 | the price `150.25` reads as 150.25 |
| Listing.LotPriceExample | static_websql/websql_test.js:275 | ten shares at 150.25 give a `lot_price` of 1502.5 |
| Listing.Project | static_websql/websql_test.js:272-275 | the projected row carries the lot's id, timestamp, shares, price, notes and broker, the ticker's symbol, and `lot_price` equal to shares times price |
| Listing.Join | static_websql/websql_test.js:276-277 | the `WHERE tickers.id = buy_lots.ticker_id` join has one row for every lot whose ticker exists, no row that is not such a lot's row, no more rows than lots, and every row priced |
| Listing.JoinAppend | static_websql/websql_test.js:276-277 | one more lot adds exactly its own row to the join, or nothing when its ticker does not exist |
| Listing.InsertByTimestamp | static_websql/websql_test.js:278 | inserting into a timestamp-ordered listing keeps it ordered and adds exactly that row |
| Listing.SortByTimestamp | static_websql/websql_test.js:278 | the result is in non-decreasing timestamp order and is a permutation of the input |
| Listing.Holdings | static_websql/websql_test.js:271-278 | the query result is ordered by timestamp, holds the rows of the join each exactly as often, and has no more rows than there are lots |
| Listing.HoldingsMembers | static_websql/websql_test.js:271-278 | the ordering keeps exactly the rows of the join |
| Listing.HoldingsRows | static_websql/websql_test.js:271-278 | a row is listed exactly when it is the row of a lot whose ticker exists: orphan lots are dropped, and every row's `lot_price` is its shares times its price |
| Listing.HoldingsAppend | static_websql/websql_test.js:271-278 | recording a lot adds exactly its row to the listing when its ticker exists, and nothing otherwise |
| Listing.HoldingsOrderExample | static_websql/websql_test.js:278 | two lots recorded later-first are listed earlier-first |
| Store.ReplaceById | static_websql/websql_test.js:139-141 | `INSERT OR REPLACE` at an id leaves that row at that id, keeps exactly the other rows that conflict with neither the id nor the symbol, and keeps symbols unique |
| Store.Execute | static_websql/websql_test.js:123-155 | a statement fails exactly when its table does not exist (CREATE TABLE IF NOT EXISTS never fails). It never touches the journal, leaves its table existing, and changes only the table it writes |
| Store.TickerIdsOf | static_websql/websql_test.js:218-220 | `SELECT id FROM tickers WHERE ticker=?` returns exactly the ids whose row has that symbol |
| Store.AtMostOneTickerId | static_websql/websql_test.js:249-250 | under the UNIQUE constraint the lookup finds at most one row, as the `console.assert` expects |
| Store.OnlyTickerId | static_websql/websql_test.js:218-221 | a ticker with the looked-up symbol is the only match |
| Store.NoTickerId | static_websql/websql_test.js:249 | when no ticker has the symbol the lookup finds nothing |
| Store.LookupRows | static_websql/websql_test.js:249-254 | the lookup's rows, in any order, are empty exactly when no ticker has the symbol, and otherwise their first row is the one ticker with it |
| Store.JournalPairing | static_websql/websql_test.js:55-61 | a transaction with a journal entry either changes nothing or applies the statement and appends exactly that entry with the next journal id and the transaction's time. It commits exactly when the host lets it, the statement succeeds and the journal exists. A failing statement writes no journal row |
| Store.NoEntryNoJournal | static_websql/websql_test.js:57-60 | without a journal entry the journal is unchanged and the transaction is the statement alone |
| Store.ExecuteConsistent | static_websql/websql_test.js:123-155 | every statement keeps the key, UNIQUE and AUTOINCREMENT invariants |
| Store.RunConsistent | static_websql/websql_test.js:48-63 | every transaction, committed or rolled back, keeps the database consistent |
| KabuDb.MyKabuDb.constructor | static_websql/websql_test.js:17-32 | opening the database yields a handle on what an earlier run left behind |
| KabuDb.MyKabuDb.ExecuteSql | static_websql/websql_test.js:57 | the in-place update of the table fields reaches exactly the state the statement's SQLite meaning gives, and reports failure exactly when it fails |
| KabuDb.MyKabuDb.AddTx | static_websql/websql_test.js:101-105 | the journal insert appends one row with the next id and the transaction's time, or fails when the journal does not exist |
| KabuDb.MyKabuDb.TransactionExecuteSql | static_websql/websql_test.js:48-63 | the statement and the journal entry commit together or the fields are restored to the snapshot; the result is the atomic transaction, and the invariant is kept |
| KabuDb.MyKabuDb.SelectTickerIds | static_websql/websql_test.js:65-69 | the read transaction hands its callback exactly the ids whose row has the symbol, each once, or fails (no callback) when the host aborts or the table is missing |
| KabuDb.MyKabuDb.SelectHoldings | static_websql/websql_test.js:65-69 | the read transaction hands its callback exactly the holdings of the current tables, or fails when a table is missing |
| Journal.CreateTable | static_websql/websql_test.js:88-99 | the journal table exists afterwards unless the host aborted; nothing else changes |
| Journal.Add | static_websql/websql_test.js:107-109 | a transaction of the journal insert alone appends exactly one row or changes nothing |
| Tickers.HasId | static_websql/websql_test.js:138 | the test on line 138 (a truthy id, or the number 0) holds exactly for numbers: zero counts as present, null, undefined and NaN do not |
| Tickers.InsertStatement | static_websql/websql_test.js:138-155 | the by-id statement runs exactly when the id is present, with that id and the row's symbol and name; otherwise the by-symbol statement runs |
| Tickers.InsertEntry | static_websql/websql_test.js:142-154 | the journal entry is `insert_or_replace` on `tickers` and carries the id exactly in the by-id branch |
| Tickers.Insert | static_websql/websql_test.js:137-156 | `insert` runs its branch's statement with its journal entry in one transaction |
| Tickers.InsertCommits | static_websql/websql_test.js:137-156 | an insert commits exactly when the host lets it and both the tickers table and the journal exist |
| Tickers.InsertById | static_websql/websql_test.js:139-146 | afterwards the row sits at its id and is the only row with its symbol. Symbols stay unique, another row survives exactly when its symbol differs, surviving rows are unchanged, and one journal row is appended |
| Tickers.InsertBySymbol | static_websql/websql_test.js:148-154 | the row gets the next AUTOINCREMENT id and is the only row with its symbol: an old row with that symbol is deleted, and every row with another symbol is kept unchanged |
| Tickers.CreateTable | static_websql/websql_test.js:118-135 | `create_table` is the table creation followed by the two seeding inserts, three transactions |
| Tickers.ReplaceBySameRow | static_websql/websql_test.js:139-141 | re-inserting a row at its own id changes nothing |
| Tickers.SeedingResult | static_websql/websql_test.js:130-134 | from any consistent state with a journal, seeding leaves GOOG/Alphabet at id 1 and HP/Hewlett-Packard at id 2, each the only row with its symbol. It keeps exactly the other rows that clash with neither seed, and keeps the database consistent |
| Tickers.ReseedingKeepsTickers | static_websql/websql_test.js:130-134 | seeding an already seeded database changes the tickers, the counter, the tables and the lots not at all, and only journals its two inserts again |
| Tickers.SeedingIdempotent | static_websql/websql_test.js:130-134 | seeding twice yields the same tickers, counter, tables and lots as seeding once |
| BuyLots.CreateTable | static_websql/websql_test.js:184-200 | the lots table exists afterwards unless the host aborted, with no journal entry |
| Page.ShowBuyLots | static_websql/websql_test.js:270-281 | `show_buy_lots` hands the handler the holdings of the current tables, or nothing when the read fails |
| Page.PurchaseEntry | static_websql/websql_test.js:260-262 | the journal entry of a purchase is `insert_or_replace` on `buy_lots` with the validated data |
| Page.NextLot | static_websql/websql_test.js:251-259 | the inserted lot takes the next AUTOINCREMENT id, the matched ticker's id and the validated fields |
| Page.HandleBuySubmitTicker | static_websql/websql_test.js:248-267 | the lot and its journal entry are recorded in one transaction for the first matching id, nothing is written when no ticker matched, and the listing afterwards reflects the new state |
| Page.UnknownTickerWritesNothing | static_websql/websql_test.js:263-264 | with no matching ticker the database, journal included, is unchanged |
| Page.PurchaseRecorded | static_websql/websql_test.js:249-262 | a match appends exactly one lot with the matched ticker's id and one journal row for table `buy_lots`; tickers and tables are unchanged |
| Page.PurchaseListed | static_websql/websql_test.js:251-266 | a recorded purchase of an existing ticker adds exactly its own row to the listing, with that ticker's symbol and `lot_price` |
| Page.HandleBuySubmit | static_websql/websql_test.js:214-223 | an invalid form reports its error and writes and lists nothing. A failed lookup writes and lists nothing. An unknown symbol is reported exactly when no ticker has the trimmed upper-cased symbol, and the lot is recorded exactly when a ticker has it and the transaction for that ticker commits. After every lookup callback the listing is the holdings of the new state, or nothing when that read fails |
| Page.LookupRecordsLot | static_websql/websql_test.js:218-262 | after validation, a symbol that names a ticker makes the lookup and its callback record one lot for that ticker and one journal row, tickers unchanged |
| Page.SubmitUnknownSymbol | static_websql/websql_test.js:218-221 | a form whose symbol names no ticker writes nothing |
| Page.CreateTables | static_websql/websql_test.js:34-38 | `create_tables` creates the journal, the seeded tickers and the lots table, in five transactions |
| Page.RenderPage | static_websql/websql_test.js:204-211 | `renderPage` creates the tables, then lists the holdings of the resulting state |
| Page.CreateTablesResultSeeded | static_websql/websql_test.js:34-38 | from any consistent state without aborts, all three tables exist afterwards, both seeds are in place, and the database stays consistent |
| Page.CreateTablesTwice | static_websql/websql_test.js:204-208 | loading the page a second time leaves the same tickers, counter, lots and tables as the first load |
| Page.FirstRender | static_websql/websql_test.js:204-210 | the first load on a new database creates the three tables, exactly the two seeds at ids 1 and 2, their two journal rows, no lots and an empty listing |

## Left out

- Opening the database and checking for WebSQL support, `alert` and `console` output, and the transaction error callbacks (websql_test.js:17-32, 71-75) are host I/O. The constructor takes the stored state as a parameter. A failure of the engine or host is the `hostAborts` parameter. The error callback of `transaction` uses an undefined `cmd` (line 43); since reporting is not modelled, neither is that.
- The drop path (`drop_tables`) is not modelled: the constant is false.
- `Tickers.dump`/`dump_cb` are not modelled: `dump_cb` declares no `data` parameter, so it cannot return rows.
- DOM rendering is not modelled (`show_buy_lots_handler`, `deleteAllChildren`, `replaceChildWith`). Neither is `Intl.NumberFormat` formatting. The listing is modelled up to the rows handed to the handler.
- `JSON.stringify` is not modelled: a journal entry is a record (action, table, data), not its JSON text.
- Asynchronous scheduling is not modelled. Each transaction is one atomic step, in the order the program queues them, and a read followed by its callback is a sequence of steps.
- Listing.NumericValue: exact rational arithmetic, with no floating-point rounding and no DECIMAL(16,4) conversion on storage. The exponent notation SQLite also reads (`1e3`) is not modelled; it passes validation and would read as 1. The stored share count and price are kept as the validated text.
- Text.ToUpper: only the ASCII case mapping is modelled, not the full Unicode mapping of `toUpperCase`. Characters are Unicode scalar values, not UTF-16 code units.
- Tickers.HasId: `row.id` is modelled as undefined, null, NaN or an integer. Strings, booleans and fractional numbers are left out because the program only passes integers.
- Ticker symbols and names that are not strings are left out (SQLite's UNIQUE admits several NULLs). So are `sanitizeText` arguments that are not strings; every caller passes a string.
- One `now` serves every transaction of an operation. In the code each `DATETIME('NOW')` (websql_test.js:103) reads the clock on its own, so the journal rows written by one page load may carry different times; `Page.FirstRender`'s two equal journal times hold only under this simplification.
- 64-bit rowid limits and the `SQLITE_FULL` error are left out.
- Among lots with equal timestamps, SQLite leaves the order unspecified. The model lists them in a fixed order, the order of a stable insertion sort.
