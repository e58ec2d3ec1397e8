/**
 * The `Tickers` table class: `insert`, an `INSERT OR REPLACE` that is keyed
 * by the id when the row has one and by the UNIQUE symbol otherwise, and
 * `create_table`, which creates the table and seeds the two tickers the
 * program knows with fixed ids.
 */
module Tickers {
  import opened Wrappers
  import opened Rows
  import opened Store
  import opened KabuDb

  /** The JavaScript values `row.id` can take: missing, null, NaN, or an
      integral number. */
  datatype JsValue = Undefined | Null | NaN | Num(n: int)

  predicate Truthy(v: JsValue) {
    v.Num? && v.n != 0
  }

  /** `row.id || row.id === 0`: a falsy id counts as present only when it
      is the number 0, so exactly the numbers are ids. */
  function HasId(v: JsValue): (present: bool)
    ensures present <==> v.Num?
  {
    Truthy(v) || v == Num(0)
  }

  /** The object passed to `insert`. */
  datatype TickerInput = TickerInput(id: JsValue, ticker: string, name: string)

  /** The statement `insert` runs for `row`. */
  function InsertStatement(row: TickerInput): (s: Statement)
    ensures s.ReplaceTickerById? <==> row.id.Num?
    ensures s.ReplaceTickerBySymbol? <==> !row.id.Num?
    ensures s.ReplaceTickerById? ==> s.id == row.id.n && s.row == TickerRow(row.ticker, row.name)
    ensures s.ReplaceTickerBySymbol? ==> s.row == TickerRow(row.ticker, row.name)
  {
    if HasId(row.id) then ReplaceTickerById(row.id.n, TickerRow(row.ticker, row.name))
    else ReplaceTickerBySymbol(TickerRow(row.ticker, row.name))
  }

  /** The journal entry `insert` records for `row`: the id is part of the
      data exactly when the by-id statement runs. */
  function InsertEntry(row: TickerInput): (e: Entry)
    ensures e.action == "insert_or_replace" && e.table == "tickers"
    ensures e.data.TickerWithId? <==> HasId(row.id)
    ensures e.data.TickerWithId? ==> e.data == TickerWithId(row.id.n, row.ticker, row.name)
    ensures !e.data.TickerWithId? ==> e.data == TickerWithoutId(row.ticker, row.name)
  {
    Entry("insert_or_replace", "tickers",
          if HasId(row.id) then TickerWithId(row.id.n, row.ticker, row.name)
          else TickerWithoutId(row.ticker, row.name))
  }

  /** The database after `insert(row)`. */
  function InsertResult(db: Db, row: TickerInput, now: string, hostAborts: bool): Db {
    Run(db, InsertStatement(row), Some(InsertEntry(row)), now, hostAborts)
  }

  /** `Tickers.insert(row)`. */
  method Insert(db: MyKabuDb, row: TickerInput, now: string, hostAborts: bool) returns (committed: bool)
    requires db.Valid()
    modifies db
    ensures db.Valid()
    ensures committed == Committed(old(db.State()), InsertStatement(row), Some(InsertEntry(row)), now, hostAborts)
    ensures db.State() == InsertResult(old(db.State()), row, now, hostAborts)
  {
    if HasId(row.id) {
      committed := db.TransactionExecuteSql(
        ReplaceTickerById(row.id.n, TickerRow(row.ticker, row.name)),
        Some(Entry("insert_or_replace", "tickers", TickerWithId(row.id.n, row.ticker, row.name))),
        now, hostAborts);
    } else {
      committed := db.TransactionExecuteSql(
        ReplaceTickerBySymbol(TickerRow(row.ticker, row.name)),
        Some(Entry("insert_or_replace", "tickers", TickerWithoutId(row.ticker, row.name))),
        now, hostAborts);
    }
  }

  /** Whether an insert commits: the engine lets it through and both the
      tickers table and the journal exist. */
  lemma InsertCommits(db: Db, row: TickerInput, now: string, hostAborts: bool)
    ensures Committed(db, InsertStatement(row), Some(InsertEntry(row)), now, hostAborts) <==>
      !hostAborts && TickersTable in db.tables && JournalTable in db.tables
  {
    JournalPairing(db, InsertStatement(row), InsertEntry(row), now, hostAborts);
  }

  /** The by-id branch: afterwards the row sits at its id, it is the only
      row with its symbol, symbols stay unique, and every other row is
      kept exactly when it conflicts with neither the id nor the symbol. */
  lemma InsertById(db: Db, row: TickerInput, now: string)
    requires Consistent(db) && TickersTable in db.tables && JournalTable in db.tables
    requires row.id.Num?
    ensures var r := InsertResult(db, row, now, false);
      && r.tickers[row.id.n] == TickerRow(row.ticker, row.name)
      && TickerIdsOf(r.tickers, row.ticker) == {row.id.n}
      && UniqueSymbols(r.tickers)
      && (forall k | k in db.tickers && k != row.id.n ::
            k in r.tickers <==> db.tickers[k].ticker != row.ticker)
      && (forall k | k in r.tickers && k != row.id.n :: r.tickers[k] == db.tickers[k])
      && r.journal == db.journal + [JournalRow(db.journalSeq + 1, now, InsertEntry(row))]
  {
    InsertCommits(db, row, now, false);
  }

  /** The by-symbol branch: the row gets the next AUTOINCREMENT id, becomes
      the only row with its symbol (an old row with that symbol is deleted,
      not updated), and every row with another symbol is kept. */
  lemma InsertBySymbol(db: Db, row: TickerInput, now: string)
    requires Consistent(db) && TickersTable in db.tables && JournalTable in db.tables
    requires !row.id.Num?
    ensures var r := InsertResult(db, row, now, false);
      && r.tickersSeq == db.tickersSeq + 1
      && r.tickers[db.tickersSeq + 1] == TickerRow(row.ticker, row.name)
      && TickerIdsOf(r.tickers, row.ticker) == {db.tickersSeq + 1}
      && UniqueSymbols(r.tickers)
      && (forall k | k in db.tickers :: k in r.tickers <==> db.tickers[k].ticker != row.ticker)
      && (forall k | k in db.tickers && k in r.tickers :: r.tickers[k] == db.tickers[k])
  {
    InsertCommits(db, row, now, false);
  }

  // ------------------------------------------------------------- seeding

  const Goog := TickerInput(Num(1), "GOOG", "Alphabet")
  const Hp := TickerInput(Num(2), "HP", "Hewlett-Packard")

  /** The database after `create_table()`: three transactions, the
      `CREATE TABLE IF NOT EXISTS` and the two seeding inserts. */
  function CreateTableResult(db: Db, now: string, host: seq<bool>): Db {
    var created := Run(db, CreateIfAbsent(TickersTable), None, now, Aborts(host, 0));
    var goog := InsertResult(created, Goog, now, Aborts(host, 1));
    InsertResult(goog, Hp, now, Aborts(host, 2))
  }

  /** `Tickers.create_table()`; `host` says which of its transactions the
      engine aborts. */
  method CreateTable(db: MyKabuDb, now: string, host: seq<bool>)
    requires db.Valid()
    modifies db
    ensures db.Valid()
    ensures db.State() == CreateTableResult(old(db.State()), now, host)
  {
    var _ := db.TransactionExecuteSql(CreateIfAbsent(TickersTable), None, now, Aborts(host, 0));
    var _ := Insert(db, Goog, now, Aborts(host, 1));
    var _ := Insert(db, Hp, now, Aborts(host, 2));
  }

  /** The two seeded tickers, each at its fixed id and the only row with its
      symbol. */
  predicate Seeded(t: map<int, TickerRow>) {
    && 1 in t && t[1] == TickerRow("GOOG", "Alphabet")
    && 2 in t && t[2] == TickerRow("HP", "Hewlett-Packard")
    && TickerIdsOf(t, "GOOG") == {1}
    && TickerIdsOf(t, "HP") == {2}
  }

  /** Replacing a row by itself changes nothing. */
  lemma ReplaceBySameRow(t: map<int, TickerRow>, id: int)
    requires UniqueSymbols(t) && id in t
    ensures ReplaceById(t, id, t[id]) == t
  {
    var r := ReplaceById(t, id, t[id]);
    assert forall k | k in t && k != id :: t[k].ticker != t[id].ticker;
    assert r.Keys == t.Keys;
  }

  /** Seeding, when nothing aborts and the journal exists, leaves both
      seeded tickers in place, keeps symbols unique, and keeps exactly the
      other rows that clash with neither seed. */
  lemma SeedingResult(db: Db, now: string)
    requires Consistent(db) && JournalTable in db.tables
    ensures var r := CreateTableResult(db, now, []);
      && Consistent(r)
      && TickersTable in r.tables
      && Seeded(r.tickers)
      && (forall k | k in r.tickers && k != 1 && k != 2 ::
            k in db.tickers && r.tickers[k] == db.tickers[k])
      && (forall k | k in db.tickers && k != 1 && k != 2 ::
            k in r.tickers <==> db.tickers[k].ticker != "GOOG" && db.tickers[k].ticker != "HP")
  {
    var created := Run(db, CreateIfAbsent(TickersTable), None, now, false);
    RunConsistent(db, CreateIfAbsent(TickersTable), None, now, false);
    InsertById(created, Goog, now);
    var goog := InsertResult(created, Goog, now, false);
    RunConsistent(created, InsertStatement(Goog), Some(InsertEntry(Goog)), now, false);
    InsertById(goog, Hp, now);
    RunConsistent(goog, InsertStatement(Hp), Some(InsertEntry(Hp)), now, false);
    var r := InsertResult(goog, Hp, now, false);
    assert r.tickers[1] == goog.tickers[1];
    assert TickerIdsOf(r.tickers, "GOOG") == {1} by {
      assert forall k | k in r.tickers && k != 2 :: k in goog.tickers && r.tickers[k] == goog.tickers[k];
    }
  }

  /** Seeding a database that is already seeded changes neither the
      tickers, nor the AUTOINCREMENT counter, nor anything but the journal,
      which records the two inserts again. */
  lemma ReseedingKeepsTickers(db: Db, now: string)
    requires Consistent(db) && TickersTable in db.tables && JournalTable in db.tables
    requires Seeded(db.tickers)
    ensures var r := CreateTableResult(db, now, []);
      && r.tickers == db.tickers
      && r.tickersSeq == db.tickersSeq
      && r.tables == db.tables
      && r.buyLots == db.buyLots && r.buyLotsSeq == db.buyLotsSeq
      && r.journal == db.journal + [
           JournalRow(db.journalSeq + 1, now, InsertEntry(Goog)),
           JournalRow(db.journalSeq + 2, now, InsertEntry(Hp))]
  {
    var created := Run(db, CreateIfAbsent(TickersTable), None, now, false);
    assert created == db;
    InsertCommits(db, Goog, now, false);
    ReplaceBySameRow(db.tickers, 1);
    var goog := InsertResult(db, Goog, now, false);
    assert goog.tickers == db.tickers;
    InsertCommits(goog, Hp, now, false);
    ReplaceBySameRow(goog.tickers, 2);
  }

  /** Seeding twice leaves the same tickers, the same AUTOINCREMENT counter
      and the same lots as seeding once. */
  lemma SeedingIdempotent(db: Db, now: string, later: string)
    requires Consistent(db) && JournalTable in db.tables
    ensures var once := CreateTableResult(db, now, []);
      var twice := CreateTableResult(once, later, []);
      && twice.tickers == once.tickers
      && twice.tickersSeq == once.tickersSeq
      && twice.tables == once.tables
      && twice.buyLots == once.buyLots
  {
    SeedingResult(db, now);
    ReseedingKeepsTickers(CreateTableResult(db, now, []), later);
  }
}
