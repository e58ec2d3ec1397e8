/**
 * The `BuyLots` table class: the bought lots, one row per purchase, with
 * the id of the ticker bought.
 */
module BuyLots {
  import opened Wrappers
  import opened Rows
  import opened Store
  import opened KabuDb

  /** `BuyLots.create_table()`: `CREATE TABLE IF NOT EXISTS buy_lots`, with
      no journal entry. */
  method CreateTable(db: MyKabuDb, now: string, hostAborts: bool)
    requires db.Valid()
    modifies db
    ensures db.Valid()
    ensures db.State() == Run(old(db.State()), CreateIfAbsent(BuyLotsTable), None, now, hostAborts)
    ensures db.State() == if hostAborts then old(db.State()) else old(db.State()).(tables := old(db.tables) + {BuyLotsTable})
  {
    var _ := db.TransactionExecuteSql(CreateIfAbsent(BuyLotsTable), None, now, hostAborts);
  }
}
