/**
 * The `mykabu_db` database as a value: which of the three tables exist,
 * their rows, and the AUTOINCREMENT counter of each (the `sqlite_sequence`
 * entry, the largest id the table has ever used). The statements the program
 * runs are given their SQLite meaning here, and a WebSQL transaction made of
 * one statement and an optional journal insert is an all-or-nothing step.
 */
module Store {
  import opened Wrappers
  import opened Rows

  /** The whole database. `tickers` is keyed by `tickers.id`; `buyLots` and
      `journal` are in rowid order, which for an AUTOINCREMENT table that is
      only ever appended to is insertion order. */
  datatype Db = Db(
    tables: set<Table>,
    tickers: map<int, TickerRow>,
    tickersSeq: int,
    buyLots: seq<BuyLot>,
    buyLotsSeq: int,
    journal: seq<JournalRow>,
    journalSeq: int)

  /** A database that has never been opened before. */
  const EmptyDb := Db({}, map[], 0, [], 0, [], 0)

  /** The statements the program runs against the database. */
  datatype Statement =
    | CreateIfAbsent(table: Table)
      // `INSERT OR REPLACE INTO tickers(id, ticker, name) VALUES(?,?,?)`
    | ReplaceTickerById(id: int, row: TickerRow)
      // `INSERT OR REPLACE INTO tickers(ticker, name) VALUES(?,?)`
    | ReplaceTickerBySymbol(row: TickerRow)
      // `INSERT INTO buy_lots(ticker_id, timestamp, ...) VALUES(?,?,?,?,?,?)`
    | InsertBuyLot(tickerId: int, buy: BuyData)

  function Max(a: int, b: int): int {
    if a < b then b else a
  }

  // ------------------------------------------------------------ invariant

  /** The UNIQUE constraint on `tickers.ticker`. */
  predicate UniqueSymbols(t: map<int, TickerRow>) {
    forall a, b | a in t && b in t && a != b :: t[a].ticker != t[b].ticker
  }

  predicate LotIdsAscending(lots: seq<BuyLot>, last: int) {
    && (forall i, j | 0 <= i < j < |lots| :: lots[i].id < lots[j].id)
    && (forall i | 0 <= i < |lots| :: lots[i].id <= last)
  }

  predicate JournalIdsAscending(journal: seq<JournalRow>, last: int) {
    && (forall i, j | 0 <= i < j < |journal| :: journal[i].id < journal[j].id)
    && (forall i | 0 <= i < |journal| :: journal[i].id <= last)
  }

  /** What every state of the database reached by this program satisfies:
      the key and UNIQUE constraints hold, no id exceeds its table's
      AUTOINCREMENT counter, and a table that does not exist has no rows. */
  predicate Consistent(db: Db) {
    && UniqueSymbols(db.tickers)
    && (forall id | id in db.tickers :: id <= db.tickersSeq)
    && LotIdsAscending(db.buyLots, db.buyLotsSeq)
    && JournalIdsAscending(db.journal, db.journalSeq)
    && (TickersTable !in db.tables ==> db.tickers == map[])
    && (BuyLotsTable !in db.tables ==> db.buyLots == [])
    && (JournalTable !in db.tables ==> db.journal == [])
  }

  // ------------------------------------------------------------ statements

  /** `INSERT OR REPLACE` of `row` at `id`: every row that conflicts with it,
      on the primary key or on the UNIQUE symbol, is deleted, then the row
      is inserted. */
  function ReplaceById(t: map<int, TickerRow>, id: int, row: TickerRow): (r: map<int, TickerRow>)
    ensures id in r && r[id] == row
    ensures forall k | k in r && k != id :: k in t && r[k] == t[k] && t[k].ticker != row.ticker
    ensures forall k | k in t && k != id && t[k].ticker != row.ticker :: k in r
    ensures UniqueSymbols(t) ==> UniqueSymbols(r)
  {
    (map k | k in t && k != id && t[k].ticker != row.ticker :: t[k])[id := row]
  }

  /** The table a statement writes to. */
  function Target(stmt: Statement): Table {
    match stmt
    case CreateIfAbsent(table) => table
    case ReplaceTickerById(_, _) => TickersTable
    case ReplaceTickerBySymbol(_) => TickersTable
    case InsertBuyLot(_, _) => BuyLotsTable
  }

  /** The effect of one statement, or None when SQLite reports an error (a
      table that does not exist). A statement never touches the journal, nor
      drops a table. */
  function Execute(db: Db, stmt: Statement): (r: Option<Db>)
    ensures r.None? <==> !stmt.CreateIfAbsent? && Target(stmt) !in db.tables
    ensures r.Some? ==> r.value.journal == db.journal && r.value.journalSeq == db.journalSeq
    ensures r.Some? ==> r.value.tables == db.tables + {Target(stmt)}
    ensures r.Some? && !stmt.InsertBuyLot? ==> r.value.buyLots == db.buyLots && r.value.buyLotsSeq == db.buyLotsSeq
    ensures r.Some? && !(stmt.ReplaceTickerById? || stmt.ReplaceTickerBySymbol?) ==>
      r.value.tickers == db.tickers && r.value.tickersSeq == db.tickersSeq
  {
    match stmt
    case CreateIfAbsent(table) =>
      Some(db.(tables := db.tables + {table}))
    case ReplaceTickerById(id, row) =>
      if TickersTable !in db.tables then None
      else Some(db.(tickers := ReplaceById(db.tickers, id, row), tickersSeq := Max(db.tickersSeq, id)))
    case ReplaceTickerBySymbol(row) =>
      // the new row takes the next AUTOINCREMENT id: the old row with this
      // symbol, if any, is deleted, not updated
      if TickersTable !in db.tables then None
      else
        var id := db.tickersSeq + 1;
        Some(db.(tickers := ReplaceById(db.tickers, id, row), tickersSeq := id))
    case InsertBuyLot(tickerId, buy) =>
      if BuyLotsTable !in db.tables then None
      else
        var id := db.buyLotsSeq + 1;
        var lot := BuyLot(id, tickerId, buy.timestamp, buy.shares, buy.pricePerShare, buy.notes, buy.broker);
        Some(db.(buyLots := db.buyLots + [lot], buyLotsSeq := id))
  }

  /** `INSERT INTO journal(timestamp, entry) VALUES(DATETIME('NOW'), ?)`. */
  function AppendJournal(db: Db, entry: Entry, now: string): Option<Db> {
    if JournalTable !in db.tables then None
    else
      var id := db.journalSeq + 1;
      Some(db.(journal := db.journal + [JournalRow(id, now, entry)], journalSeq := id))
  }

  /** The statement, then the journal insert when an entry is given; None
      when either fails, which rolls the whole transaction back. */
  function Transaction(db: Db, stmt: Statement, entry: Option<Entry>, now: string): Option<Db> {
    match Execute(db, stmt)
    case None => None
    case Some(d) => if entry.None? then Some(d) else AppendJournal(d, entry.value, now)
  }

  /** Whether the transaction commits; `hostAborts` stands for a failure of
      the engine or the host that the program does not control. */
  predicate Committed(db: Db, stmt: Statement, entry: Option<Entry>, now: string, hostAborts: bool) {
    !hostAborts && Transaction(db, stmt, entry, now).Some?
  }

  /** The database after `transaction_executeSql(stmt, entry)`. */
  function Run(db: Db, stmt: Statement, entry: Option<Entry>, now: string, hostAborts: bool): Db {
    if Committed(db, stmt, entry, now, hostAborts) then Transaction(db, stmt, entry, now).value else db
  }

  /** Whether the `i`-th transaction of a composite operation is aborted. */
  predicate Aborts(host: seq<bool>, i: nat) {
    i < |host| && host[i]
  }

  /** The aborts of the transactions that come after the first `k`. */
  function Later(host: seq<bool>, k: nat): (r: seq<bool>)
    ensures forall i: nat :: Aborts(r, i) == Aborts(host, k + i)
  {
    if k <= |host| then host[k..] else []
  }

  // -------------------------------------------------------------- queries

  /** `SELECT id FROM tickers WHERE ticker=?`, as a set of ids. */
  function TickerIdsOf(t: map<int, TickerRow>, symbol: string): (ids: set<int>)
    ensures forall id :: id in ids <==> id in t && t[id].ticker == symbol
  {
    set id | id in t && t[id].ticker == symbol
  }

  lemma NonEmptyHasMember(s: set<int>)
    requires |s| > 0
    ensures exists x :: x in s
  {
    if forall x :: x !in s {
      assert false;
    }
  }

  /** Some member of a non-empty set. */
  ghost function Pick(s: set<int>): (x: int)
    requires |s| > 0
    ensures x in s
  {
    NonEmptyHasMember(s);
    var x :| x in s; x
  }

  /** Under the UNIQUE constraint a symbol names at most one ticker. */
  lemma AtMostOneTickerId(t: map<int, TickerRow>, symbol: string)
    requires UniqueSymbols(t)
    ensures |TickerIdsOf(t, symbol)| <= 1
  {
    var ids := TickerIdsOf(t, symbol);
    if id :| id in ids {
      forall other | other in ids
        ensures other == id
      {
        assert other in t && t[other].ticker == symbol == t[id].ticker;
      }
      assert ids == {id};
    } else {
      assert forall x :: x !in ids;
      assert ids == {};
    }
  }

  /** A ticker with the symbol is the only one, under the UNIQUE constraint. */
  lemma OnlyTickerId(t: map<int, TickerRow>, symbol: string, id: int)
    requires UniqueSymbols(t) && id in t && t[id].ticker == symbol
    ensures TickerIdsOf(t, symbol) == {id}
    ensures Pick(TickerIdsOf(t, symbol)) == id
  {
    var ids := TickerIdsOf(t, symbol);
    forall other | other in ids
      ensures other == id
    {
      assert other in t && t[other].ticker == symbol == t[id].ticker;
    }
    assert forall x :: x in ids <==> x == id;
    assert ids == {id};
  }

  /** No ticker has the symbol. */
  lemma NoTickerId(t: map<int, TickerRow>, symbol: string)
    requires forall id | id in t :: t[id].ticker != symbol
    ensures |TickerIdsOf(t, symbol)| == 0
  {
    var ids := TickerIdsOf(t, symbol);
    assert forall x :: x !in ids;
    assert ids == {};
  }

  /** The rows of the lookup, in whatever order the engine returns them:
      none when no ticker has the symbol, the one that has it otherwise. */
  lemma LookupRows(t: map<int, TickerRow>, symbol: string, rows: seq<int>)
    requires UniqueSymbols(t)
    requires forall id :: id in rows <==> id in t && t[id].ticker == symbol
    requires |rows| == |TickerIdsOf(t, symbol)|
    ensures |rows| <= 1
    ensures |rows| == 0 <==> |TickerIdsOf(t, symbol)| == 0
    ensures |rows| > 0 ==> Pick(TickerIdsOf(t, symbol)) == rows[0]
  {
    AtMostOneTickerId(t, symbol);
    if |rows| > 0 {
      assert rows[0] in rows;
      OnlyTickerId(t, symbol, rows[0]);
    }
  }

  // ------------------------------------------------------------- lemmas

  /** `transaction_executeSql` with a journal entry either applies the
      statement and appends exactly that entry, with the next journal id and
      the time of the transaction, or changes nothing at all. */
  lemma JournalPairing(db: Db, stmt: Statement, entry: Entry, now: string, hostAborts: bool)
    ensures var r := Run(db, stmt, Some(entry), now, hostAborts);
      || r == db
      || (&& Execute(db, stmt).Some?
          && r.journal == db.journal + [JournalRow(db.journalSeq + 1, now, entry)]
          && r.journalSeq == db.journalSeq + 1
          && Execute(db, stmt).value == r.(journal := db.journal, journalSeq := db.journalSeq))
    ensures Committed(db, stmt, Some(entry), now, hostAborts) <==>
      !hostAborts && Execute(db, stmt).Some? && JournalTable in Execute(db, stmt).value.tables
    ensures Execute(db, stmt).None? ==> Run(db, stmt, Some(entry), now, hostAborts) == db
  {
  }

  /** Without an entry the journal is left as it was. */
  lemma NoEntryNoJournal(db: Db, stmt: Statement, now: string, hostAborts: bool)
    ensures Run(db, stmt, None, now, hostAborts).journal == db.journal
    ensures Run(db, stmt, None, now, hostAborts) == if !hostAborts && Execute(db, stmt).Some? then Execute(db, stmt).value else db
  {
  }

  /** Every statement keeps the database consistent. */
  lemma ExecuteConsistent(db: Db, stmt: Statement)
    requires Consistent(db)
    ensures Execute(db, stmt).Some? ==> Consistent(Execute(db, stmt).value)
  {
    match stmt
    case CreateIfAbsent(_) =>
    case ReplaceTickerById(id, row) =>
    case ReplaceTickerBySymbol(row) =>
    case InsertBuyLot(tickerId, buy) =>
      if BuyLotsTable in db.tables {
        var d := Execute(db, stmt).value;
        assert forall i | 0 <= i < |db.buyLots| :: d.buyLots[i] == db.buyLots[i];
      }
  }

  /** Every transaction, committed or not, keeps the database consistent. */
  lemma RunConsistent(db: Db, stmt: Statement, entry: Option<Entry>, now: string, hostAborts: bool)
    requires Consistent(db)
    ensures Consistent(Run(db, stmt, entry, now, hostAborts))
  {
    ExecuteConsistent(db, stmt);
    if Committed(db, stmt, entry, now, hostAborts) && entry.Some? {
      var d := Execute(db, stmt).value;
      var r := AppendJournal(d, entry.value, now).value;
      assert forall i | 0 <= i < |d.journal| :: r.journal[i] == d.journal[i];
    }
  }
}
