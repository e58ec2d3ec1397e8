/**
 * The page's handlers: `renderPage` (create the tables, then list the
 * holdings), the submit handler of the buy form (validate, look the
 * ticker up by its normalised symbol, record the lot) and
 * `show_buy_lots`. Each read or transaction of a handler is one step;
 * `host` says which of them the engine aborts.
 */
module Page {
  import opened Wrappers
  import opened Rows
  import opened Text
  import opened Validation
  import opened Listing
  import opened Store
  import opened KabuDb
  import Tickers
  import Journal
  import BuyLots

  /** How a submission of the buy form ended. */
  datatype Submitted =
    | Recorded
    | UnknownTicker
    | InvalidInput(error: FormError)
    | LookupFailed
    | Aborted

  // ------------------------------------------------------------ listing

  /** `show_buy_lots()`: the rows handed to `show_buy_lots_handler`, or None
      when the read fails. */
  method ShowBuyLots(db: MyKabuDb, hostAborts: bool) returns (listing: Option<seq<HoldingRow>>)
    ensures listing.None? <==> hostAborts || TickersTable !in db.tables || BuyLotsTable !in db.tables
    ensures listing.Some? ==> listing.value == Holdings(db.tickers, db.buyLots)
  {
    listing := db.SelectHoldings(hostAborts);
  }

  // ------------------------------------------------------ recording a lot

  /** The journal entry of a purchase: the validated form data. */
  function PurchaseEntry(buy: BuyData): (e: Entry)
    ensures e.action == "insert_or_replace" && e.table == "buy_lots" && e.data == Purchase(buy)
  {
    Entry("insert_or_replace", "buy_lots", Purchase(buy))
  }

  /** The lot a purchase of the ticker with id `tickerId` appends. */
  function NextLot(db: Db, tickerId: int, buy: BuyData): (lot: BuyLot)
    ensures lot.id == db.buyLotsSeq + 1 && lot.tickerId == tickerId
    ensures lot.timestamp == buy.timestamp && lot.shares == buy.shares && lot.pricePerShare == buy.pricePerShare
    ensures lot.notes == buy.notes && lot.broker == buy.broker
  {
    BuyLot(db.buyLotsSeq + 1, tickerId, buy.timestamp, buy.shares, buy.pricePerShare, buy.notes, buy.broker)
  }

  /** The database after `handleBuySubmitTicker(tickers_data, buy_data)`,
      where `tickerIds` are the ids of the lookup's rows. */
  function RecordPurchase(db: Db, tickerIds: seq<int>, buy: BuyData, now: string, hostAborts: bool): Db {
    if |tickerIds| == 0 then db
    else Run(db, InsertBuyLot(tickerIds[0], buy), Some(PurchaseEntry(buy)), now, hostAborts)
  }

  /** `handleBuySubmitTicker`: record the lot for the first matching ticker
      and its journal entry in one transaction, or nothing when no ticker
      matched; then list the holdings as they are afterwards. */
  method HandleBuySubmitTicker(db: MyKabuDb, tickerIds: seq<int>, buy: BuyData, now: string,
                               hostAborts: bool, listAborts: bool)
    returns (outcome: Submitted, listing: Option<seq<HoldingRow>>)
    requires db.Valid()
    modifies db
    ensures db.Valid()
    ensures db.State() == RecordPurchase(old(db.State()), tickerIds, buy, now, hostAborts)
    ensures outcome ==
      if |tickerIds| == 0 then UnknownTicker
      else if Committed(old(db.State()), InsertBuyLot(tickerIds[0], buy), Some(PurchaseEntry(buy)), now, hostAborts)
      then Recorded
      else Aborted
    ensures listing.None? <==> listAborts || TickersTable !in db.tables || BuyLotsTable !in db.tables
    ensures listing.Some? ==> listing.value == Holdings(db.tickers, db.buyLots)
  {
    if |tickerIds| > 0 {
      var committed := db.TransactionExecuteSql(
        InsertBuyLot(tickerIds[0], buy),
        Some(Entry("insert_or_replace", "buy_lots", Purchase(buy))),
        now, hostAborts);
      outcome := if committed then Recorded else Aborted;
    } else {
      outcome := UnknownTicker;
    }
    listing := ShowBuyLots(db, listAborts);
  }

  /** No matching ticker: nothing is written, not even to the journal. */
  lemma UnknownTickerWritesNothing(db: Db, buy: BuyData, now: string, hostAborts: bool)
    ensures RecordPurchase(db, [], buy, now, hostAborts) == db
  {
  }

  /** A match appends exactly one lot, for the first matching id, and
      exactly one journal entry for table `buy_lots`; the tickers and the
      set of tables stay as they were. */
  lemma PurchaseRecorded(db: Db, tickerIds: seq<int>, buy: BuyData, now: string)
    requires |tickerIds| > 0
    requires BuyLotsTable in db.tables && JournalTable in db.tables
    ensures var r := RecordPurchase(db, tickerIds, buy, now, false);
      && r.buyLots == db.buyLots + [NextLot(db, tickerIds[0], buy)]
      && r.buyLotsSeq == db.buyLotsSeq + 1
      && r.journal == db.journal + [JournalRow(db.journalSeq + 1, now, PurchaseEntry(buy))]
      && r.tickers == db.tickers && r.tickersSeq == db.tickersSeq
      && r.tables == db.tables
  {
  }

  /** A recorded purchase of an existing ticker adds exactly its own row to
      the listing, with that ticker's symbol and `lot_price`. */
  lemma PurchaseListed(db: Db, tickerIds: seq<int>, buy: BuyData, now: string)
    requires |tickerIds| > 0 && tickerIds[0] in db.tickers
    requires BuyLotsTable in db.tables && JournalTable in db.tables
    ensures var r := RecordPurchase(db, tickerIds, buy, now, false);
      var row := RowOf(db.tickers, NextLot(db, tickerIds[0], buy));
      && multiset(Holdings(r.tickers, r.buyLots)) == multiset(Holdings(db.tickers, db.buyLots)) + multiset{row}
      && row.ticker == db.tickers[tickerIds[0]].ticker
      && row.lotPrice == LotPrice(buy.shares, buy.pricePerShare)
  {
    PurchaseRecorded(db, tickerIds, buy, now);
    HoldingsAppend(db.tickers, db.buyLots, NextLot(db, tickerIds[0], buy));
  }

  // ------------------------------------------------------- the buy form

  /** The symbol the lookup uses: the ticker field trimmed and upper-cased. */
  function Symbol(tickerField: string): string {
    ToUpper(Trim(tickerField))
  }

  /** The database after the lookup of `symbol` and the handler it calls
      back: a failed lookup or an unknown symbol write nothing; otherwise the
      lot is recorded for the ticker with that symbol. */
  ghost function LookupAndRecord(db: Db, buy: BuyData, symbol: string, now: string, host: seq<bool>): Db {
    if Aborts(host, 0) || TickersTable !in db.tables then db
    else
      var ids := TickerIdsOf(db.tickers, symbol);
      if |ids| == 0 then db
      else Run(db, InsertBuyLot(Pick(ids), buy), Some(PurchaseEntry(buy)), now, Aborts(host, 1))
  }

  /** The database after the submit handler: an invalid form writes
      nothing; a valid one is recorded for its normalised symbol. */
  ghost function SubmitResult(db: Db, form: BuyForm, tickerField: string, now: string, host: seq<bool>): Db {
    match ValidateBuyData(form)
    case Failure(_) => db
    case Success(buy) => LookupAndRecord(db, buy, Symbol(tickerField), now, host)
  }

  /** `handleBuySubmit`: validate the form, look up the ticker, and hand the
      rows to `handleBuySubmitTicker`. */
  method HandleBuySubmit(db: MyKabuDb, form: BuyForm, tickerField: string, now: string, host: seq<bool>)
    returns (outcome: Submitted, listing: Option<seq<HoldingRow>>)
    requires db.Valid()
    modifies db
    ensures db.Valid()
    ensures db.State() == SubmitResult(old(db.State()), form, tickerField, now, host)
    ensures ValidateBuyData(form).Failure? ==> outcome == InvalidInput(ValidateBuyData(form).error) && listing.None?
    ensures outcome == LookupFailed <==>
      ValidateBuyData(form).Success? && (Aborts(host, 0) || TickersTable !in old(db.tables))
    ensures outcome == UnknownTicker <==>
      && ValidateBuyData(form).Success? && !Aborts(host, 0) && TickersTable in old(db.tables)
      && |TickerIdsOf(old(db.tickers), Symbol(tickerField))| == 0
    ensures outcome == Recorded <==>
      && ValidateBuyData(form).Success? && !Aborts(host, 0) && TickersTable in old(db.tables)
      && |TickerIdsOf(old(db.tickers), Symbol(tickerField))| > 0
      && Committed(old(db.State()), InsertBuyLot(Pick(TickerIdsOf(old(db.tickers), Symbol(tickerField))), ValidateBuyData(form).value),
                   Some(PurchaseEntry(ValidateBuyData(form).value)), now, Aborts(host, 1))
    ensures outcome.InvalidInput? <==> ValidateBuyData(form).Failure?
    ensures outcome == LookupFailed ==> listing.None?
    ensures outcome in {Recorded, UnknownTicker, Aborted} ==>
      && (listing.None? <==> Aborts(host, 2) || TickersTable !in db.tables || BuyLotsTable !in db.tables)
      && (listing.Some? ==> listing.value == Holdings(db.tickers, db.buyLots))
  {
    var validated := ValidateBuyData(form);
    if validated.Failure? {
      return InvalidInput(validated.error), None;
    }
    var found := db.SelectTickerIds(ToUpper(Trim(tickerField)), Aborts(host, 0));
    if found.None? {
      return LookupFailed, None;
    }
    LookupRows(db.tickers, Symbol(tickerField), found.value);
    outcome, listing := HandleBuySubmitTicker(db, found.value, validated.value, now, Aborts(host, 1), Aborts(host, 2));
  }

  /** A symbol that names a ticker records one lot for that ticker and one
      journal entry; the tickers are unchanged. */
  lemma LookupRecordsLot(db: Db, buy: BuyData, symbol: string, now: string, id: int)
    requires Consistent(db)
    requires TickersTable in db.tables && BuyLotsTable in db.tables && JournalTable in db.tables
    requires id in db.tickers && db.tickers[id].ticker == symbol
    ensures var r := LookupAndRecord(db, buy, symbol, now, []);
      && r.buyLots == db.buyLots + [NextLot(db, id, buy)]
      && r.journal == db.journal + [JournalRow(db.journalSeq + 1, now, PurchaseEntry(buy))]
      && r.tickers == db.tickers
  {
    OnlyTickerId(db.tickers, symbol, id);
    PurchaseRecorded(db, [id], buy, now);
  }

  /** A symbol that names no ticker writes nothing, whatever the form. */
  lemma SubmitUnknownSymbol(db: Db, form: BuyForm, tickerField: string, now: string, host: seq<bool>)
    requires forall id | id in db.tickers :: db.tickers[id].ticker != Symbol(tickerField)
    ensures SubmitResult(db, form, tickerField, now, host) == db
  {
    NoTickerId(db.tickers, Symbol(tickerField));
  }

  // ------------------------------------------------------------ startup

  /** The database after `MyKabuDB.create_tables()`: the journal, the
      tickers with their seeds, and the lots table, in five transactions. */
  function CreateTablesResult(db: Db, now: string, host: seq<bool>): Db {
    var journal := Run(db, CreateIfAbsent(JournalTable), None, now, Aborts(host, 0));
    var tickers := Tickers.CreateTableResult(journal, now, Later(host, 1));
    Run(tickers, CreateIfAbsent(BuyLotsTable), None, now, Aborts(host, 4))
  }

  /** `MyKabuDB.create_tables()`. */
  method CreateTables(db: MyKabuDb, now: string, host: seq<bool>)
    requires db.Valid()
    modifies db
    ensures db.Valid()
    ensures db.State() == CreateTablesResult(old(db.State()), now, host)
  {
    Journal.CreateTable(db, now, Aborts(host, 0));
    Tickers.CreateTable(db, now, Later(host, 1));
    BuyLots.CreateTable(db, now, Aborts(host, 4));
  }

  /** `renderPage()`: create the tables, then list the holdings. */
  method RenderPage(db: MyKabuDb, now: string, host: seq<bool>) returns (listing: Option<seq<HoldingRow>>)
    requires db.Valid()
    modifies db
    ensures db.Valid()
    ensures db.State() == CreateTablesResult(old(db.State()), now, host)
    ensures listing.None? <==> Aborts(host, 5) || TickersTable !in db.tables || BuyLotsTable !in db.tables
    ensures listing.Some? ==> listing.value == Holdings(db.tickers, db.buyLots)
  {
    CreateTables(db, now, host);
    listing := ShowBuyLots(db, Aborts(host, 5));
  }

  /** Creating the tables from any consistent state, when nothing aborts,
      leaves all three tables, the two seeded tickers at ids 1 and 2, and
      a consistent database. */
  lemma CreateTablesResultSeeded(db: Db, now: string)
    requires Consistent(db)
    ensures var r := CreateTablesResult(db, now, []);
      && r.tables == db.tables + {JournalTable, TickersTable, BuyLotsTable}
      && Tickers.Seeded(r.tickers)
      && Consistent(r)
  {
    var journal := Run(db, CreateIfAbsent(JournalTable), None, now, false);
    RunConsistent(db, CreateIfAbsent(JournalTable), None, now, false);
    Tickers.SeedingResult(journal, now);
    var tickers := Tickers.CreateTableResult(journal, now, []);
    RunConsistent(tickers, CreateIfAbsent(BuyLotsTable), None, now, false);
  }

  /** Loading the page a second time leaves the same tickers and lots as
      the first time: reseeding converges. */
  lemma CreateTablesTwice(db: Db, now: string, later: string)
    requires Consistent(db)
    ensures var once := CreateTablesResult(db, now, []);
      var twice := CreateTablesResult(once, later, []);
      && twice.tickers == once.tickers
      && twice.tickersSeq == once.tickersSeq
      && twice.buyLots == once.buyLots
      && twice.tables == once.tables
  {
    CreateTablesResultSeeded(db, now);
    var once := CreateTablesResult(db, now, []);
    var journal := Run(once, CreateIfAbsent(JournalTable), None, later, false);
    assert journal == once;
    Tickers.ReseedingKeepsTickers(once, later);
  }

  /** The first load on a new database: three empty-of-lots tables, the two
      seeds, their two journal rows, and an empty listing. */
  lemma FirstRender(now: string)
    ensures var r := CreateTablesResult(EmptyDb, now, []);
      && r.tables == {JournalTable, TickersTable, BuyLotsTable}
      && r.tickers == map[1 := TickerRow("GOOG", "Alphabet"), 2 := TickerRow("HP", "Hewlett-Packard")]
      && r.tickersSeq == 2
      && r.buyLots == []
      && r.journal == [JournalRow(1, now, Tickers.InsertEntry(Tickers.Goog)), JournalRow(2, now, Tickers.InsertEntry(Tickers.Hp))]
      && Holdings(r.tickers, r.buyLots) == []
  {
    var r := CreateTablesResult(EmptyDb, now, []);
    CreateTablesResultSeeded(EmptyDb, now);
    Tickers.SeedingResult(Run(EmptyDb, CreateIfAbsent(JournalTable), None, now, false), now);
  }
}
