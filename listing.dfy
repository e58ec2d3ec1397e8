/**
 * The holdings query of `show_buy_lots`:
 *
 *   SELECT buy_lots.id, tickers.ticker, buy_lots.timestamp, buy_lots.shares,
 *          buy_lots.price_per_share, buy_lots.notes, buy_lots.broker,
 *          buy_lots.shares * buy_lots.price_per_share AS lot_price
 *   FROM buy_lots, tickers WHERE tickers.id = buy_lots.ticker_id
 *   ORDER BY buy_lots.timestamp
 *
 * as a join of the lots (in rowid order) with the tickers map, a projection,
 * and a sort on the timestamp text.
 */
module Listing {
  import opened Wrappers
  import opened Text
  import opened Rows
  import opened Validation

  /** One row of the result, in the column order of the SELECT list. */
  datatype HoldingRow = HoldingRow(
    lotId: int,
    ticker: string,
    timestamp: string,
    shares: string,
    pricePerShare: string,
    notes: string,
    broker: string,
    lotPrice: real)

  // ------------------------------------------------------------ numbers

  function DigitValue(c: char): nat {
    if IsDigit(c) then c as int - '0' as int else 0
  }

  /** The value of a run of decimal digits. */
  function DigitsValue(ds: string): nat {
    if ds == [] then 0 else DigitsValue(ds[..|ds| - 1]) * 10 + DigitValue(ds[|ds| - 1])
  }

  function Pow10(n: nat): (p: nat)
    ensures p >= 1
  {
    if n == 0 then 1 else 10 * Pow10(n - 1)
  }

  /** The value of a number literal `\d+(\.\d*)?`: its integer digits, plus
      its fraction digits over the matching power of ten. */
  function LiteralValue(t: string): (v: real)
    ensures v >= 0.0
  {
    var n := LeadingDigits(t);
    if n < |t| then DigitsValue(t[..n]) as real + Fraction(t[n + 1..])
    else DigitsValue(t) as real
  }

  /** The value of the digits after a decimal point. */
  function Fraction(ds: string): (f: real)
    ensures 0.0 <= f
  {
    DigitsValue(ds) as real / Pow10(|ds|) as real
  }

  /** The number SQLite's arithmetic reads from a stored share count or
      price: the value of the match of `^\d+(\.\d*)?` that validation found,
      and 0 when it has none. Exact: the floating-point rounding of the
      engine is not modelled. */
  function NumericValue(s: string): (v: real)
    ensures v >= 0.0
    ensures !NumberTest(s) ==> v == 0.0
  {
    match NumberPrefixLength(s)
    case None => 0.0
    case Some(k) => LiteralValue(s[..k])
  }

  /** Digits followed by a text that does not start with a digit. */
  lemma {:induction false} LeadingDigitsOf(a: string, t: string)
    requires AllDigits(a) && (t == [] || !IsDigit(t[0]))
    ensures LeadingDigits(a + t) == |a|
  {
    if a != [] {
      assert (a + t)[1..] == a[1..] + t;
      LeadingDigitsOf(a[1..], t);
    } else {
      assert a + t == t;
    }
  }

  /** A whole number `a`, followed by a text that continues neither its
      digits nor with a point, reads as the value of `a`. */
  lemma NumericValueInteger(a: string, rest: string)
    requires a != [] && AllDigits(a)
    requires rest == [] || (!IsDigit(rest[0]) && rest[0] != '.')
    ensures NumericValue(a + rest) == DigitsValue(a) as real
  {
    var s := a + rest;
    LeadingDigitsOf(a, rest);
    assert s[..|a|] == a;
    LeadingDigitsOf(a, []);
    assert a + [] == a;
  }

  /** The match in `a.b` followed by such a text is exactly `a.b`. */
  lemma DecimalPrefix(a: string, b: string, rest: string)
    requires a != [] && AllDigits(a) && AllDigits(b)
    requires rest == [] || !IsDigit(rest[0])
    ensures NumberPrefixLength(a + "." + b + rest) == Some(|a| + 1 + |b|)
    ensures (a + "." + b + rest)[..|a| + 1 + |b|] == a + "." + b
  {
    var s := a + "." + b + rest;
    DecimalDigits(a, b + rest);
    assert s == a + "." + (b + rest);
    LeadingDigitsOf(b, rest);
    PointPrefixLength(s, |a|, |b|);
  }

  /** In `a.t` the leading digits are `a`, followed by the point and `t`. */
  lemma DecimalDigits(a: string, t: string)
    requires AllDigits(a)
    ensures var s := a + "." + t;
      LeadingDigits(s) == |a| && |a| < |s| && s[|a|] == '.' && s[|a| + 1..] == t
  {
    var s := a + "." + t;
    assert s == a + ("." + t);
    LeadingDigitsOf(a, "." + t);
  }

  /** A match whose digits end at a point reaches to the end of the digits
      after the point. */
  lemma PointPrefixLength(s: string, n: nat, f: nat)
    requires 0 < n < |s| && LeadingDigits(s) == n && s[n] == '.'
    requires LeadingDigits(s[n + 1..]) == f
    ensures NumberPrefixLength(s) == Some(n + 1 + f)
  {
  }

  /** The literal `a.b` is worth `a` plus `b` over ten to its length. */
  lemma DecimalLiteralValue(a: string, b: string)
    requires AllDigits(a)
    ensures LiteralValue(a + "." + b) == DigitsValue(a) as real + DigitsValue(b) as real / Pow10(|b|) as real
  {
    var t := a + "." + b;
    assert t == a + ("." + b);
    assert LeadingDigits(t) == |a| by {
      LeadingDigitsOf(a, "." + b);
    }
    assert t[..|a|] == a && t[|a| + 1..] == b;
    assert LiteralValue(t) == DigitsValue(a) as real + Fraction(b);
  }

  /** A decimal `a.b`, followed by a text that does not continue its
      fraction digits, reads as `a` plus `b` over ten to the number of
      fraction digits: `150.25` is 150 + 25/100. */
  lemma NumericValueDecimal(a: string, b: string, rest: string)
    requires a != [] && AllDigits(a) && AllDigits(b)
    requires rest == [] || !IsDigit(rest[0])
    ensures NumericValue(a + "." + b + rest) == DigitsValue(a) as real + DigitsValue(b) as real / Pow10(|b|) as real
  {
    DecimalPrefix(a, b, rest);
    DecimalLiteralValue(a, b);
  }

  // --------------------------------------------------------------- join

  /** `shares * price_per_share` on the two stored texts. */
  function LotPrice(shares: string, price: string): real {
    NumericValue(shares) * NumericValue(price)
  }

  /** The digits of `150.25` and of `10` are worth 150, 25 and 10. */
  lemma DigitsExamples()
    ensures DigitsValue("150") == 150 && DigitsValue("25") == 25 && DigitsValue("10") == 10
  {
    assert "150"[..2] == "15" && "15"[..1] == "1" && "1"[..0] == [];
    assert "25"[..1] == "2" && "2"[..0] == [];
    assert "10"[..1] == "1";
  }

  /** The stored price `150.25` reads as 150.25. */
  lemma DecimalExample()
    ensures NumericValue("150.25") == 150.25
  {
    NumericValueDecimal("150", "25", []);
    assert "150" + "." + "25" + [] == "150.25";
    FractionExample();
    DigitsExamples();
  }

  /** The fraction digits `25` are worth a quarter. */
  lemma FractionExample()
    ensures Fraction("25") == 0.25
  {
    DigitsExamples();
    assert Pow10(|"25"|) == 100;
  }

  /** Ten shares at 150.25 cost 1502.5. */
  lemma LotPriceExample()
    ensures LotPrice("10", "150.25") == 1502.5
  {
    assert NumericValue("10") == 10.0 by {
      DigitsExamples();
      NumericValueInteger("10", []);
      assert "10" + [] == "10";
    }
    DecimalExample();
  }

  /** `lot_price` is the product of the row's own shares and price. */
  predicate Priced(row: HoldingRow) {
    row.lotPrice == LotPrice(row.shares, row.pricePerShare)
  }

  /** A lot joined with the symbol of its ticker, `lot_price` computed. */
  function Project(lot: BuyLot, ticker: string): (row: HoldingRow)
    ensures row.lotId == lot.id && row.ticker == ticker && row.timestamp == lot.timestamp
    ensures row.shares == lot.shares && row.pricePerShare == lot.pricePerShare
    ensures row.notes == lot.notes && row.broker == lot.broker
    ensures Priced(row)
  {
    HoldingRow(lot.id, ticker, lot.timestamp, lot.shares, lot.pricePerShare, lot.notes, lot.broker,
               LotPrice(lot.shares, lot.pricePerShare))
  }

  /** The row a lot contributes, given that its ticker exists. */
  function RowOf(tickers: map<int, TickerRow>, lot: BuyLot): HoldingRow
    requires lot.tickerId in tickers
  {
    Project(lot, tickers[lot.tickerId].ticker)
  }

  /** `FROM buy_lots, tickers WHERE tickers.id = buy_lots.ticker_id`, the lots
      taken in rowid order. */
  function Join(tickers: map<int, TickerRow>, lots: seq<BuyLot>): (r: seq<HoldingRow>)
    ensures |r| <= |lots|
    ensures forall row | row in r ::
      exists i | 0 <= i < |lots| :: lots[i].tickerId in tickers && row == RowOf(tickers, lots[i])
    ensures forall i | 0 <= i < |lots| && lots[i].tickerId in tickers :: RowOf(tickers, lots[i]) in r
    ensures forall row | row in r :: Priced(row)
  {
    if lots == [] then []
    else
      var rest := Join(tickers, lots[1..]);
      assert forall i | 1 <= i < |lots| :: lots[i] == lots[1..][i - 1];
      if lots[0].tickerId in tickers then [RowOf(tickers, lots[0])] + rest else rest
  }

  /** One more lot adds exactly its own row to the join, or nothing when its
      ticker does not exist. */
  lemma {:induction false} JoinAppend(tickers: map<int, TickerRow>, lots: seq<BuyLot>, lot: BuyLot)
    ensures Join(tickers, lots + [lot]) ==
      Join(tickers, lots) + (if lot.tickerId in tickers then [RowOf(tickers, lot)] else [])
  {
    if lots == [] {
      assert lots + [lot] == [lot];
      assert [lot][1..] == [];
    } else {
      assert (lots + [lot])[0] == lots[0];
      assert (lots + [lot])[1..] == lots[1..] + [lot];
      JoinAppend(tickers, lots[1..], lot);
    }
  }

  // --------------------------------------------------------------- sort

  predicate TimestampOrdered(rows: seq<HoldingRow>) {
    forall i, j | 0 <= i < j < |rows| :: LexLe(rows[i].timestamp, rows[j].timestamp)
  }

  /** A row no later than every row of an ordered listing can go first. */
  lemma OrderedCons(row: HoldingRow, rows: seq<HoldingRow>)
    requires TimestampOrdered(rows)
    requires forall x | x in rows :: LexLe(row.timestamp, x.timestamp)
    ensures TimestampOrdered([row] + rows)
  {
    var r := [row] + rows;
    forall i, j | 0 <= i < j < |r| ensures LexLe(r[i].timestamp, r[j].timestamp) {
      if i > 0 {
        assert r[i] == rows[i - 1] && r[j] == rows[j - 1];
      } else {
        assert r[j] == rows[j - 1];
      }
    }
  }

  /** A row no later than the first row of an ordered listing is no later
      than any of its rows. */
  lemma BeforeFirst(row: HoldingRow, rows: seq<HoldingRow>)
    requires TimestampOrdered(rows) && rows != []
    requires LexLe(row.timestamp, rows[0].timestamp)
    ensures forall x | x in rows :: LexLe(row.timestamp, x.timestamp)
  {
    forall x | x in rows ensures LexLe(row.timestamp, x.timestamp) {
      var k :| 0 <= k < |rows| && rows[k] == x;
      if k > 0 {
        LexLeTransitive(row.timestamp, rows[0].timestamp, x.timestamp);
      }
    }
  }

  /** The first row of an ordered listing is no later than any row of the
      rest with one row no earlier than it added. */
  lemma FirstBeforeInserted(rows: seq<HoldingRow>, row: HoldingRow, rest: seq<HoldingRow>)
    requires TimestampOrdered(rows) && rows != []
    requires LexLe(rows[0].timestamp, row.timestamp)
    requires multiset(rest) == multiset(rows[1..]) + multiset{row}
    ensures forall x | x in rest :: LexLe(rows[0].timestamp, x.timestamp)
  {
    forall x | x in rest ensures LexLe(rows[0].timestamp, x.timestamp) {
      assert x in multiset(rest);
      if x != row {
        assert x in multiset(rows[1..]);
        var k :| 0 <= k < |rows[1..]| && rows[1..][k] == x;
        assert rows[k + 1] == x;
      }
    }
  }

  /** Insertion before the first row with a later-or-equal timestamp. */
  function InsertByTimestamp(row: HoldingRow, rows: seq<HoldingRow>): (r: seq<HoldingRow>)
    requires TimestampOrdered(rows)
    ensures TimestampOrdered(r)
    ensures multiset(r) == multiset(rows) + multiset{row}
  {
    if rows == [] then [row]
    else if LexLe(row.timestamp, rows[0].timestamp) then
      BeforeFirst(row, rows);
      OrderedCons(row, rows);
      [row] + rows
    else
      LexLeTotal(row.timestamp, rows[0].timestamp);
      assert TimestampOrdered(rows[1..]) by {
        forall i, j | 0 <= i < j < |rows[1..]|
          ensures LexLe(rows[1..][i].timestamp, rows[1..][j].timestamp)
        {
          assert rows[1..][i] == rows[i + 1] && rows[1..][j] == rows[j + 1];
        }
      }
      var rest := InsertByTimestamp(row, rows[1..]);
      FirstBeforeInserted(rows, row, rest);
      OrderedCons(rows[0], rest);
      assert rows == [rows[0]] + rows[1..];
      [rows[0]] + rest
  }

  /** A stable insertion sort on the timestamp text. */
  function SortByTimestamp(rows: seq<HoldingRow>): (r: seq<HoldingRow>)
    ensures TimestampOrdered(r)
    ensures multiset(r) == multiset(rows)
  {
    if rows == [] then []
    else
      assert rows == [rows[0]] + rows[1..];
      InsertByTimestamp(rows[0], SortByTimestamp(rows[1..]))
  }

  // ------------------------------------------------------------ holdings

  /** The result of the holdings query. Its rows are those of the join,
      each exactly as often, ordered by timestamp. */
  function Holdings(tickers: map<int, TickerRow>, lots: seq<BuyLot>): (r: seq<HoldingRow>)
    ensures TimestampOrdered(r)
    ensures multiset(r) == multiset(Join(tickers, lots))
    ensures |r| <= |lots|
  {
    var j := Join(tickers, lots);
    var r := SortByTimestamp(j);
    assert |r| == |multiset(r)| == |multiset(j)| == |j|;
    r
  }

  /** Sorting keeps exactly the rows of the join. */
  lemma HoldingsMembers(tickers: map<int, TickerRow>, lots: seq<BuyLot>, row: HoldingRow)
    ensures row in Holdings(tickers, lots) <==> row in Join(tickers, lots)
  {
    var h, j := Holdings(tickers, lots), Join(tickers, lots);
    assert row in h <==> row in multiset(h);
    assert row in j <==> row in multiset(j);
  }

  /** A row is listed exactly when it is the row of a lot whose ticker
      exists; a lot whose `ticker_id` names no ticker is dropped, and every
      row's `lot_price` is its shares times its price. */
  lemma HoldingsRows(tickers: map<int, TickerRow>, lots: seq<BuyLot>)
    ensures forall row | row in Holdings(tickers, lots) ::
      exists i | 0 <= i < |lots| :: lots[i].tickerId in tickers && row == RowOf(tickers, lots[i])
    ensures forall i | 0 <= i < |lots| && lots[i].tickerId in tickers :: RowOf(tickers, lots[i]) in Holdings(tickers, lots)
    ensures forall row | row in Holdings(tickers, lots) :: Priced(row)
  {
    var h, j := Holdings(tickers, lots), Join(tickers, lots);
    forall row | row in h
      ensures row in j && Priced(row)
    {
      HoldingsMembers(tickers, lots, row);
    }
    forall i | 0 <= i < |lots| && lots[i].tickerId in tickers
      ensures RowOf(tickers, lots[i]) in h
    {
      HoldingsMembers(tickers, lots, RowOf(tickers, lots[i]));
    }
  }

  /** Recording a lot whose ticker exists adds exactly its row to the
      listing; recording an orphan lot changes nothing. */
  lemma HoldingsAppend(tickers: map<int, TickerRow>, lots: seq<BuyLot>, lot: BuyLot)
    ensures lot.tickerId in tickers ==>
      multiset(Holdings(tickers, lots + [lot])) == multiset(Holdings(tickers, lots)) + multiset{RowOf(tickers, lot)}
    ensures lot.tickerId !in tickers ==>
      multiset(Holdings(tickers, lots + [lot])) == multiset(Holdings(tickers, lots))
  {
    JoinAppend(tickers, lots, lot);
  }

  /** Two lots recorded later-first are listed earlier-first. */
  lemma HoldingsOrderExample(tickers: map<int, TickerRow>, later: BuyLot, earlier: BuyLot)
    requires later.tickerId in tickers && earlier.tickerId in tickers
    requires !LexLe(later.timestamp, earlier.timestamp)
    ensures Holdings(tickers, [later, earlier]) == [RowOf(tickers, earlier), RowOf(tickers, later)]
  {
    var a, b := RowOf(tickers, later), RowOf(tickers, earlier);
    assert [later, earlier][1..] == [earlier];
    assert [earlier][1..] == [];
    assert Join(tickers, [later, earlier]) == [a, b];
    assert SortByTimestamp([b]) == [b];
    assert [a, b][1..] == [b];
    assert [b][1..] == [];
    assert InsertByTimestamp(a, [b]) == [b] + InsertByTimestamp(a, []);
  }
}
