/**
 * The records the ledger stores and passes around: the three tables of the
 * `mykabu_db` database, the purchase a validated form yields, and the
 * payload of a journal entry.
 */
module Rows {

  /** The three tables the page creates. */
  datatype Table = JournalTable | TickersTable | BuyLotsTable

  /** A row of `tickers` without its key: the `ticker` column (UNIQUE) and
      the `name` column. The key `id` is the key of the map holding it. */
  datatype TickerRow = TickerRow(ticker: string, name: string)

  /** A validated purchase, every field the trimmed text of the form input. */
  datatype BuyData = BuyData(
    timestamp: string,
    shares: string,
    pricePerShare: string,
    notes: string,
    broker: string)

  /** A row of `buy_lots`. `id` is assigned by AUTOINCREMENT; `tickerId`
      refers to `tickers.id` with no declared constraint. */
  datatype BuyLot = BuyLot(
    id: int,
    tickerId: int,
    timestamp: string,
    shares: string,
    pricePerShare: string,
    notes: string,
    broker: string)

  /** The `data` part of a journal entry. */
  datatype EntryData =
    | TickerWithId(id: int, ticker: string, name: string)
    | TickerWithoutId(ticker: string, name: string)
    | Purchase(buy: BuyData)

  /** A journal entry: the object whose JSON text goes into `journal.entry`. */
  datatype Entry = Entry(action: string, table: string, data: EntryData)

  /** A row of `journal`; `timestamp` is `DATETIME('NOW')` at write time. */
  datatype JournalRow = JournalRow(id: int, timestamp: string, entry: Entry)
}
