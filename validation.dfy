/**
 * `validateBuyData`: the buy form's fields are trimmed, then the timestamp
 * must match `^\d{4}-\d{2}-\d{2} \d{2}:\d{2}:\d{2}$` and the share count and
 * the price must each match `^\d+(\.\d*)?`, a pattern anchored at the start
 * only. The first check that fails decides the error.
 */
module Validation {
  import opened Wrappers
  import opened Text
  import opened Rows

  /** The raw values of the buy form's input fields. */
  datatype BuyForm = BuyForm(
    timestamp: string,
    shares: string,
    pricePerShare: string,
    notes: string,
    broker: string)

  /** Which check refused the form, with the trimmed value it refused. */
  datatype FormError =
    | InvalidDate(timestamp: string)
    | InvalidShares(shares: string)
    | InvalidPricePerShare(pricePerShare: string)

  // ------------------------------------------------------- the timestamp

  /** One position of a fixed-width pattern: `\d` or a literal character. */
  datatype Atom = Digit | Char(c: char)

  predicate AtomMatches(a: Atom, c: char) {
    match a
    case Digit => IsDigit(c)
    case Char(d) => c == d
  }

  /** `\d{4}-\d{2}-\d{2} \d{2}:\d{2}:\d{2}`, one atom per position. */
  const TimestampPattern: seq<Atom> := [
    Digit, Digit, Digit, Digit, Char('-'), Digit, Digit, Char('-'), Digit, Digit,
    Char(' '), Digit, Digit, Char(':'), Digit, Digit, Char(':'), Digit, Digit]

  /** `^p$`: all of `s`, from its first to its last character, matches `p`. */
  function MatchesWhole(p: seq<Atom>, s: string): (b: bool)
    ensures b <==> |s| == |p| && forall i | 0 <= i < |p| :: AtomMatches(p[i], s[i])
  {
    if p == [] then s == []
    else
      s != [] && AtomMatches(p[0], s[0]) && MatchesWhole(p[1..], s[1..])
  }

  predicate IsTimestamp(s: string) {
    MatchesWhole(TimestampPattern, s)
  }

  /** The timestamp check accepts exactly the texts of the form
      `DDDD-DD-DD DD:DD:DD`, nothing before and nothing after. */
  lemma TimestampShape(s: string)
    ensures IsTimestamp(s) <==>
      && |s| == 19
      && s[4] == '-' && s[7] == '-' && s[10] == ' ' && s[13] == ':' && s[16] == ':'
      && forall i | 0 <= i < 19 && i != 4 && i != 7 && i != 10 && i != 13 && i != 16 :: IsDigit(s[i])
  {
    var p := TimestampPattern;
    assert forall i | 0 <= i < 19 && i != 4 && i != 7 && i != 10 && i != 13 && i != 16 :: p[i] == Digit;
  }

  // ------------------------------------------ the share count and the price

  /** The language of `\d+(\.\d*)?`: digits, then optionally a point and
      more digits. */
  ghost predicate IsNumberLiteral(t: string) {
    exists j | 1 <= j <= |t| :: AllDigits(t[..j]) && (j == |t| || (t[j] == '.' && AllDigits(t[j + 1..])))
  }

  /** The length of the match of `^\d+(\.\d*)?` in `s`, taken greedily as the
      regular expression engine takes it; None when there is no match. */
  function NumberPrefixLength(s: string): (r: Option<nat>)
    ensures r.Some? ==> r.value <= |s| && IsNumberLiteral(s[..r.value])
  {
    var n := LeadingDigits(s);
    if n == 0 then None
    else if n < |s| && s[n] == '.' then
      var f := LeadingDigits(s[n + 1..]);
      assert s[..n + 1 + f][..n] == s[..n];
      assert s[..n + 1 + f][n + 1..] == s[n + 1..][..f];
      Some(n + 1 + f)
    else
      assert s[..n][..n] == s[..n];
      Some(n)
  }

  /** `/^\d+(\.\d*)?/.test(s)`. */
  predicate NumberTest(s: string) {
    NumberPrefixLength(s).Some?
  }

  /** The test succeeds exactly when some prefix of `s` is a number literal,
      and, because nothing anchors the end, exactly when `s` starts with a
      digit: `10abc` passes. */
  lemma NumberTestMeaning(s: string)
    ensures NumberTest(s) <==> exists k | 0 <= k <= |s| :: IsNumberLiteral(s[..k])
    ensures NumberTest(s) <==> |s| > 0 && IsDigit(s[0])
  {
    if |s| > 0 && IsDigit(s[0]) {
      assert AllDigits(s[..1][..1]);
      assert IsNumberLiteral(s[..1]);
    }
    if exists k | 0 <= k <= |s| :: IsNumberLiteral(s[..k]) {
      var k :| 0 <= k <= |s| && IsNumberLiteral(s[..k]);
      var j :| 1 <= j <= k && AllDigits(s[..k][..j]) && (j == k || (s[..k][j] == '.' && AllDigits(s[..k][j + 1..])));
      assert IsDigit(s[..k][..j][0]);
    }
  }

  // -------------------------------------------------------------- the form

  /** `validateBuyData`: the trimmed fields, or the first check that fails. */
  function ValidateBuyData(form: BuyForm): (r: Result<BuyData, FormError>)
    ensures r.Success? <==>
      && IsTimestamp(Trim(form.timestamp))
      && |Trim(form.shares)| > 0 && IsDigit(Trim(form.shares)[0])
      && |Trim(form.pricePerShare)| > 0 && IsDigit(Trim(form.pricePerShare)[0])
    ensures r.Success? ==> r.value == BuyData(
      Trim(form.timestamp), Trim(form.shares), Trim(form.pricePerShare), Trim(form.notes), Trim(form.broker))
    ensures r == Failure(InvalidDate(Trim(form.timestamp))) <==> !IsTimestamp(Trim(form.timestamp))
    ensures r.Failure? && r.error.InvalidShares? <==>
      IsTimestamp(Trim(form.timestamp)) && !NumberTest(Trim(form.shares))
    ensures r.Failure? && r.error.InvalidShares? ==> r.error.shares == Trim(form.shares)
    ensures r.Failure? && r.error.InvalidPricePerShare? <==>
      IsTimestamp(Trim(form.timestamp)) && NumberTest(Trim(form.shares)) && !NumberTest(Trim(form.pricePerShare))
    ensures r.Failure? && r.error.InvalidPricePerShare? ==> r.error.pricePerShare == Trim(form.pricePerShare)
  {
    var timestamp := Trim(form.timestamp);
    var shares := Trim(form.shares);
    var price := Trim(form.pricePerShare);
    NumberTestMeaning(shares);
    NumberTestMeaning(price);
    if !IsTimestamp(timestamp) then Failure(InvalidDate(timestamp))
    else if !NumberTest(shares) then Failure(InvalidShares(shares))
    else if !NumberTest(price) then Failure(InvalidPricePerShare(price))
    else Success(BuyData(timestamp, shares, price, Trim(form.notes), Trim(form.broker)))
  }

  /** `10abc` is not a number literal, yet the unanchored test accepts it. */
  lemma TrailingGarbageAccepted()
    ensures NumberTest("10abc") && !IsNumberLiteral("10abc")
  {
    var t := "10abc";
    NumberTestMeaning(t);
    forall j | 1 <= j <= |t|
      ensures !(AllDigits(t[..j]) && (j == |t| || (t[j] == '.' && AllDigits(t[j + 1..]))))
    {
      if j >= 3 {
        assert t[..j][2] == 'a';
      }
    }
  }
}
