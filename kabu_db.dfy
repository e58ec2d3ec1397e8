/**
 * `MyKabuDB`, the handle on the WebSQL database `mykabu_db`: one field per
 * table (its rows and its AUTOINCREMENT counter), updated in place by the
 * statements of a transaction and put back when the transaction fails.
 * Each method is proved to leave the state that `Store` gives the
 * corresponding SQL text.
 */
module KabuDb {
  import opened Wrappers
  import opened Rows
  import opened Store
  import opened Listing

  class MyKabuDb {
    var tables: set<Table>
    var tickers: map<int, TickerRow>
    var tickersSeq: int
    var buyLots: seq<BuyLot>
    var buyLotsSeq: int
    var journal: seq<JournalRow>
    var journalSeq: int

    /** The contents of the database. */
    function State(): Db
      reads this
    {
      Db(tables, tickers, tickersSeq, buyLots, buyLotsSeq, journal, journalSeq)
    }

    ghost predicate Valid()
      reads this
    {
      Consistent(State())
    }

    /** `openDatabase("mykabu_db", ...)`: the handle on what a previous run
        of the program left behind. */
    constructor(persisted: Db)
      requires Consistent(persisted)
      ensures State() == persisted && Valid()
    {
      tables, tickers, tickersSeq := persisted.tables, persisted.tickers, persisted.tickersSeq;
      buyLots, buyLotsSeq := persisted.buyLots, persisted.buyLotsSeq;
      journal, journalSeq := persisted.journal, persisted.journalSeq;
    }

    /** `tx.executeSql(cmd, subs)` on its own, inside an open transaction. */
    method ExecuteSql(stmt: Statement) returns (ok: bool)
      modifies this
      ensures ok == Execute(old(State()), stmt).Some?
      ensures State() == if ok then Execute(old(State()), stmt).value else old(State())
    {
      match stmt
      case CreateIfAbsent(table) =>
        tables := tables + {table};
        ok := true;
      case ReplaceTickerById(id, row) =>
        ok := TickersTable in tables;
        if ok {
          tickers := ReplaceById(tickers, id, row);
          tickersSeq := Max(tickersSeq, id);
        }
      case ReplaceTickerBySymbol(row) =>
        ok := TickersTable in tables;
        if ok {
          tickersSeq := tickersSeq + 1;
          tickers := ReplaceById(tickers, tickersSeq, row);
        }
      case InsertBuyLot(tickerId, buy) =>
        ok := BuyLotsTable in tables;
        if ok {
          buyLotsSeq := buyLotsSeq + 1;
          buyLots := buyLots + [BuyLot(buyLotsSeq, tickerId, buy.timestamp, buy.shares, buy.pricePerShare, buy.notes, buy.broker)];
        }
    }

    /** `Journal.add_tx`: the journal insert, inside an open transaction. */
    method AddTx(entry: Entry, now: string) returns (ok: bool)
      modifies this
      ensures ok == AppendJournal(old(State()), entry, now).Some?
      ensures State() == if ok then AppendJournal(old(State()), entry, now).value else old(State())
    {
      ok := JournalTable in tables;
      if ok {
        journalSeq := journalSeq + 1;
        journal := journal + [JournalRow(journalSeq, now, entry)];
      }
    }

    /** The rollback of a failed transaction. */
    method Restore(snapshot: Db)
      modifies this
      ensures State() == snapshot
    {
      tables, tickers, tickersSeq := snapshot.tables, snapshot.tickers, snapshot.tickersSeq;
      buyLots, buyLotsSeq := snapshot.buyLots, snapshot.buyLotsSeq;
      journal, journalSeq := snapshot.journal, snapshot.journalSeq;
    }

    /** `transaction_executeSql(cmd, subs, journal_entry)`: the statement and,
        when an entry is given, its journal row, in one transaction that
        commits both or neither. */
    method TransactionExecuteSql(stmt: Statement, entry: Option<Entry>, now: string, hostAborts: bool)
      returns (committed: bool)
      requires Valid()
      modifies this
      ensures Valid()
      ensures committed == Committed(old(State()), stmt, entry, now, hostAborts)
      ensures State() == Run(old(State()), stmt, entry, now, hostAborts)
    {
      RunConsistent(State(), stmt, entry, now, hostAborts);
      var snapshot := State();
      committed := ExecuteSql(stmt);
      if committed && entry.Some? {
        committed := AddTx(entry.value, now);
      }
      committed := committed && !hostAborts;
      if !committed {
        Restore(snapshot);
      }
    }

    /** `readTransaction_executeSql('SELECT id FROM tickers WHERE ticker=?',
        [symbol], read_cb)`: the ids handed to the callback, or None when the
        read fails and the callback is not called. */
    method SelectTickerIds(symbol: string, hostAborts: bool) returns (r: Option<seq<int>>)
      ensures r.None? <==> hostAborts || TickersTable !in tables
      ensures r.Some? ==>
        && (forall id :: id in r.value <==> id in tickers && tickers[id].ticker == symbol)
        && |r.value| == |TickerIdsOf(tickers, symbol)|
    {
      if hostAborts || TickersTable !in tables {
        r := None;
      } else {
        var matching := TickerIdsOf(tickers, symbol);
        var pending := matching;
        var ids: seq<int> := [];
        while |pending| > 0
          invariant pending <= matching
          invariant forall id :: id in ids <==> id in matching && id !in pending
          invariant |ids| + |pending| == |matching|
          decreases |pending|
        {
          NonEmptyHasMember(pending);
          var k :| k in pending;
          ids := ids + [k];
          pending := pending - {k};
        }
        r := Some(ids);
      }
    }

    /** The read of `show_buy_lots`: the listed rows, or None when the read
        fails. */
    method SelectHoldings(hostAborts: bool) returns (r: Option<seq<HoldingRow>>)
      ensures r.None? <==> hostAborts || TickersTable !in tables || BuyLotsTable !in tables
      ensures r.Some? ==> r.value == Holdings(tickers, buyLots)
    {
      if hostAborts || TickersTable !in tables || BuyLotsTable !in tables {
        r := None;
      } else {
        r := Some(Holdings(tickers, buyLots));
      }
    }
  }
}
