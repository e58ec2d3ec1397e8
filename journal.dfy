/**
 * The `Journal` table class: the audit log of every journalled change,
 * one row per entry, with the time of its transaction.
 */
module Journal {
  import opened Wrappers
  import opened Rows
  import opened Store
  import opened KabuDb

  /** `Journal.create_table()`: `CREATE TABLE IF NOT EXISTS journal`. */
  method CreateTable(db: MyKabuDb, now: string, hostAborts: bool)
    requires db.Valid()
    modifies db
    ensures db.Valid()
    ensures db.State() == Run(old(db.State()), CreateIfAbsent(JournalTable), None, now, hostAborts)
    ensures db.State() == if hostAborts then old(db.State()) else old(db.State()).(tables := old(db.tables) + {JournalTable})
  {
    var _ := db.TransactionExecuteSql(CreateIfAbsent(JournalTable), None, now, hostAborts);
  }

  /** `Journal.add(entry)`: a transaction holding only the journal insert;
      it appends exactly one row when it commits and nothing otherwise. */
  method Add(db: MyKabuDb, entry: Entry, now: string, hostAborts: bool) returns (committed: bool)
    requires db.Valid()
    modifies db
    ensures db.Valid()
    ensures committed <==> !hostAborts && JournalTable in old(db.tables)
    ensures committed ==> db.State() == old(db.State()).(
      journal := old(db.journal) + [JournalRow(old(db.journalSeq) + 1, now, entry)],
      journalSeq := old(db.journalSeq) + 1)
    ensures !committed ==> db.State() == old(db.State())
  {
    var snapshot := db.State();
    committed := db.AddTx(entry, now);
    committed := committed && !hostAborts;
    if !committed {
      db.Restore(snapshot);
    } else {
      assert forall i | 0 <= i < |snapshot.journal| :: db.journal[i] == snapshot.journal[i];
    }
  }
}
