/**
 * Character classes and string operations of the page script: ECMAScript
 * white space and digits, `String.prototype.trim`, upper-casing, a global
 * one-pattern `replace`, and the HTML escaping `sanitizeText` builds from
 * seven of them. Also the byte-wise text order SQLite sorts TEXT values by.
 */
module Text {

  /** `\s` of an ECMAScript regular expression: the WhiteSpace and the
      LineTerminator code points. `String.prototype.trim` strips the same set. */
  predicate IsJsWhitespace(c: char) {
    var n := c as int;
    n == 0x09 || n == 0x0A || n == 0x0B || n == 0x0C || n == 0x0D || n == 0x20
    || n == 0xA0 || n == 0x1680 || 0x2000 <= n <= 0x200A
    || n == 0x2028 || n == 0x2029 || n == 0x202F || n == 0x205F || n == 0x3000 || n == 0xFEFF
  }

  /** `\d`: an ASCII decimal digit. */
  predicate IsDigit(c: char) {
    '0' <= c <= '9'
  }

  predicate AllDigits(s: string) {
    forall i | 0 <= i < |s| :: IsDigit(s[i])
  }

  /** The number of digits `s` starts with. */
  function LeadingDigits(s: string): (n: nat)
    ensures n <= |s| && AllDigits(s[..n])
    ensures n == |s| || !IsDigit(s[n])
  {
    if s != [] && IsDigit(s[0]) then 1 + LeadingDigits(s[1..]) else 0
  }

  // ---------------------------------------------------------------- trim

  predicate AllWhitespace(s: string) {
    forall i | 0 <= i < |s| :: IsJsWhitespace(s[i])
  }

  function TrimStart(s: string): (r: string)
    ensures |r| <= |s| && r == s[|s| - |r|..]
    ensures AllWhitespace(s[..|s| - |r|])
    ensures r != [] ==> !IsJsWhitespace(r[0])
  {
    if s != [] && IsJsWhitespace(s[0]) then
      var r := TrimStart(s[1..]);
      assert s[..|s| - |r|] == [s[0]] + s[1..][..|s| - 1 - |r|];
      r
    else s
  }

  function TrimEnd(s: string): (r: string)
    ensures |r| <= |s| && r == s[..|r|]
    ensures AllWhitespace(s[|r|..])
    ensures r != [] ==> !IsJsWhitespace(r[|r| - 1])
  {
    if s != [] && IsJsWhitespace(s[|s| - 1]) then
      var r := TrimEnd(s[..|s| - 1]);
      assert s[|r|..] == s[..|s| - 1][|r|..] + [s[|s| - 1]];
      r
    else s
  }

  /** `r` is the slice of `s` at `a`, with only white space before and
      after it. */
  predicate BetweenWhitespace(s: string, a: int, r: string) {
    && 0 <= a <= |s| - |r|
    && r == s[a..a + |r|]
    && AllWhitespace(s[..a]) && AllWhitespace(s[a + |r|..])
  }

  /** A suffix `t` of `s` after white space, cut down to a prefix `r`
      before white space, lies between white space in `s`. */
  lemma TrimmedBetween(s: string, t: string, r: string)
    requires |t| <= |s| && t == s[|s| - |t|..] && AllWhitespace(s[..|s| - |t|])
    requires |r| <= |t| && r == t[..|r|] && AllWhitespace(t[|r|..])
    requires t != [] ==> !IsJsWhitespace(t[0])
    ensures BetweenWhitespace(s, |s| - |t|, r)
    ensures r != [] ==> !IsJsWhitespace(r[0])
  {
    var a := |s| - |t|;
    assert s[a + |r|..] == t[|r|..];
    if r != [] {
      assert r[0] == t[0];
    }
  }

  /** `String.prototype.trim`: what is left of `s` between a white-space
      prefix and a white-space suffix, neither of which can be extended. */
  function Trim(s: string): (r: string)
    ensures |r| <= |s|
    ensures exists a :: BetweenWhitespace(s, a, r)
    ensures r != [] ==> !IsJsWhitespace(r[0]) && !IsJsWhitespace(r[|r| - 1])
  {
    var t := TrimStart(s);
    var r := TrimEnd(t);
    TrimmedBetween(s, t, r);
    r
  }

  // ----------------------------------------------------------- upper case

  /** `toUpperCase` restricted to ASCII letters. */
  function UpperChar(c: char): (u: char)
    ensures !('a' <= u <= 'z')
    ensures 'a' <= c <= 'z' ==> u as int == c as int - 32
    ensures !('a' <= c <= 'z') ==> u == c
  {
    if 'a' <= c <= 'z' then (c as int - 32) as char else c
  }

  function ToUpper(s: string): (r: string)
    ensures |r| == |s|
    ensures forall i | 0 <= i < |r| :: r[i] == UpperChar(s[i]) && !('a' <= r[i] <= 'z')
  {
    seq(|s|, i requires 0 <= i < |s| => UpperChar(s[i]))
  }

  // ------------------------------------------------------------- replace

  /** The regular expression of a global `replace`: one literal character
      (`/&/g`) or the class `\s` (`/\s/g`). */
  datatype Pattern = Literal(c: char) | Whitespace

  predicate Matches(p: Pattern, c: char) {
    match p
    case Literal(d) => c == d
    case Whitespace => IsJsWhitespace(c)
  }

  predicate NoneMatch(p: Pattern, s: string) {
    forall i | 0 <= i < |s| :: !Matches(p, s[i])
  }

  /** `s.replace(p, rep)` with the `g` flag, for a one-character pattern and a
      replacement without `$` specials: each matching character, left to
      right, gives way to `rep`. */
  function ReplaceAll(s: string, p: Pattern, rep: string): (r: string)
    ensures NoneMatch(p, rep) ==> NoneMatch(p, r)
    ensures NoneMatch(p, s) ==> r == s
  {
    if s == [] then []
    else (if Matches(p, s[0]) then rep else [s[0]]) + ReplaceAll(s[1..], p, rep)
  }

  lemma {:induction false} ReplaceAllConcat(a: string, b: string, p: Pattern, rep: string)
    ensures ReplaceAll(a + b, p, rep) == ReplaceAll(a, p, rep) + ReplaceAll(b, p, rep)
  {
    if a == [] {
      assert a + b == b;
    } else {
      assert (a + b)[0] == a[0];
      assert (a + b)[1..] == a[1..] + b;
      ReplaceAllConcat(a[1..], b, p, rep);
    }
  }

  // ------------------------------------------------------------ sanitize

  /** The seven global replacements of `sanitizeText`, in the order it applies them. */
  const SanitizeSteps: seq<(Pattern, string)> := [
    (Literal('&'), "&amp;"),
    (Literal('<'), "&lt;"),
    (Literal('>'), "&gt;"),
    (Literal('"'), "&quot;"),
    (Literal('\''), "&apos;"),
    (Literal('\n'), "<br/>"),
    (Whitespace, "&nbsp;")]

  /** `s.replace(p1, r1).replace(p2, r2)...` for the steps in order. */
  function ReplaceChain(steps: seq<(Pattern, string)>, s: string): string {
    if steps == [] then s else ReplaceChain(steps[1..], ReplaceAll(s, steps[0].0, steps[0].1))
  }

  /** Reference definition: what one input character becomes in the output. */
  function EscapeChar(c: char): string {
    if c == '&' then "&amp;"
    else if c == '<' then "&lt;"
    else if c == '>' then "&gt;"
    else if c == '"' then "&quot;"
    else if c == '\'' then "&apos;"
    else if c == '\n' then "<br/>"
    else if IsJsWhitespace(c) then "&nbsp;"
    else [c]
  }

  /** Reference definition: every character escaped on its own, in one pass. */
  function Escape(s: string): string {
    if s == [] then [] else EscapeChar(s[0]) + Escape(s[1..])
  }

  lemma {:induction false} ReplaceChainConcat(steps: seq<(Pattern, string)>, a: string, b: string)
    ensures ReplaceChain(steps, a + b) == ReplaceChain(steps, a) + ReplaceChain(steps, b)
  {
    if steps != [] {
      var (p, rep) := steps[0];
      ReplaceAllConcat(a, b, p, rep);
      ReplaceChainConcat(steps[1..], ReplaceAll(a, p, rep), ReplaceAll(b, p, rep));
    }
  }

  /** A text none of the steps matches passes through them unchanged. */
  lemma {:induction false} ReplaceChainUntouched(steps: seq<(Pattern, string)>, s: string)
    requires forall k | 0 <= k < |steps| :: NoneMatch(steps[k].0, s)
    ensures ReplaceChain(steps, s) == s
  {
    if steps != [] {
      ReplaceChainUntouched(steps[1..], s);
    }
  }

  lemma ReplaceChainSingle(steps: seq<(Pattern, string)>, c: char)
    requires steps != []
    ensures ReplaceChain(steps, [c]) ==
      if Matches(steps[0].0, c) then ReplaceChain(steps[1..], steps[0].1) else ReplaceChain(steps[1..], [c])
  {
    var p, rep := steps[0].0, steps[0].1;
    var x := ReplaceAll([c], p, rep);
    assert x == if Matches(p, c) then rep else [c] by {
      assert [c][1..] == [];
      assert x == (if Matches(p, c) then rep else [c]) + [];
    }
    assert ReplaceChain(steps, [c]) == ReplaceChain(steps[1..], x);
  }

  /** A character the first `k` steps do not match reaches step `k` as it is. */
  lemma {:induction false} ReplaceChainSkip(k: nat, c: char)
    requires k <= |SanitizeSteps|
    requires forall j | 0 <= j < k :: !Matches(SanitizeSteps[j].0, c)
    ensures ReplaceChain(SanitizeSteps, [c]) == ReplaceChain(SanitizeSteps[k..], [c])
  {
    if k > 0 {
      ReplaceChainSkip(k - 1, c);
      ReplaceChainSingle(SanitizeSteps[k - 1..], c);
      assert SanitizeSteps[k - 1..][1..] == SanitizeSteps[k..];
    }
  }

  /** The character step `k` replaces becomes that step's replacement, which
      the later steps leave alone. */
  lemma ReplaceChainHit(k: nat, c: char)
    requires k < |SanitizeSteps|
    requires forall j | 0 <= j < k :: !Matches(SanitizeSteps[j].0, c)
    requires Matches(SanitizeSteps[k].0, c)
    requires forall j | k < j < |SanitizeSteps| :: NoneMatch(SanitizeSteps[j].0, SanitizeSteps[k].1)
    ensures ReplaceChain(SanitizeSteps, [c]) == SanitizeSteps[k].1
  {
    ReplaceChainSkip(k, c);
    ReplaceChainSingle(SanitizeSteps[k..], c);
    assert SanitizeSteps[k..][1..] == SanitizeSteps[k + 1..];
    ReplaceChainUntouched(SanitizeSteps[k + 1..], SanitizeSteps[k].1);
  }

  /** No step matches a character of what an earlier step put in. */
  lemma ReplacementsInert(k: nat)
    requires k < |SanitizeSteps|
    ensures forall j | k < j < |SanitizeSteps| :: NoneMatch(SanitizeSteps[j].0, SanitizeSteps[k].1)
  {
  }

  /** Each entity, and the `<br/>`, that one step produces passes untouched
      through the steps after it, so the chain escapes a character as
      EscapeChar does. */
  lemma ReplaceChainChar(c: char)
    ensures ReplaceChain(SanitizeSteps, [c]) == EscapeChar(c)
  {
    if c == '&' {
      ReplacementsInert(0);
      ReplaceChainHit(0, c);
    } else if c == '<' {
      ReplacementsInert(1);
      ReplaceChainHit(1, c);
    } else if c == '>' {
      ReplacementsInert(2);
      ReplaceChainHit(2, c);
    } else if c == '"' {
      ReplacementsInert(3);
      ReplaceChainHit(3, c);
    } else if c == '\'' {
      ReplacementsInert(4);
      ReplaceChainHit(4, c);
    } else if c == '\n' {
      ReplacementsInert(5);
      ReplaceChainHit(5, c);
    } else if IsJsWhitespace(c) {
      ReplacementsInert(6);
      ReplaceChainHit(6, c);
    } else {
      ReplaceChainSkip(7, c);
    }
  }

  lemma {:induction false} ReplaceChainIsEscape(s: string)
    ensures ReplaceChain(SanitizeSteps, s) == Escape(s)
  {
    if s == [] {
      ReplaceChainUntouched(SanitizeSteps, s);
    } else {
      assert s == [s[0]] + s[1..];
      ReplaceChainConcat(SanitizeSteps, [s[0]], s[1..]);
      ReplaceChainChar(s[0]);
      ReplaceChainIsEscape(s[1..]);
    }
  }

  /** `sanitizeText`: a falsy (empty) argument is returned as it is; any other
      is run through the seven replacements, which together escape each
      character on its own. */
  function SanitizeText(raw: string): (r: string)
    ensures r == Escape(raw)
    ensures r == [] <==> raw == []
  {
    if raw == [] then raw
    else
      ReplaceChainIsEscape(raw);
      assert Escape(raw) == EscapeChar(raw[0]) + Escape(raw[1..]);
      ReplaceChain(SanitizeSteps, raw)
  }

  // -------------------------------------------------- escaping invariants

  /** A character that no longer breaks up the markup: no white space, no quote. */
  predicate Inert(c: char) {
    !IsJsWhitespace(c) && c != '"' && c != '\''
  }

  predicate AllInert(s: string) {
    forall i | 0 <= i < |s| :: Inert(s[i])
  }

  /** Every `<` begins a `<br/>`. */
  predicate AnglesOnlyInBreaks(s: string) {
    forall i | 0 <= i < |s| && s[i] == '<' :: i + 5 <= |s| && s[i..i + 5] == "<br/>"
  }

  lemma {:induction false} EscapeAllInert(s: string)
    ensures AllInert(Escape(s))
  {
    if s != [] {
      EscapeAllInert(s[1..]);
      var h, t := EscapeChar(s[0]), Escape(s[1..]);
      assert AllInert(h);
      assert forall i | |h| <= i < |h + t| :: (h + t)[i] == t[i - |h|];
    }
  }

  lemma AnglesOnlyInBreaksConcat(a: string, b: string)
    requires AnglesOnlyInBreaks(a) && AnglesOnlyInBreaks(b)
    ensures AnglesOnlyInBreaks(a + b)
  {
    var s := a + b;
    forall i | 0 <= i < |s| && s[i] == '<'
      ensures i + 5 <= |s| && s[i..i + 5] == "<br/>"
    {
      if i < |a| {
        assert s[i..i + 5] == a[i..i + 5];
      } else {
        assert s[i] == b[i - |a|];
        assert s[i..i + 5] == b[i - |a|..i - |a| + 5];
      }
    }
  }

  lemma {:induction false} EscapeAnglesOnlyInBreaks(s: string)
    ensures AnglesOnlyInBreaks(Escape(s))
  {
    if s != [] {
      EscapeAnglesOnlyInBreaks(s[1..]);
      var h := EscapeChar(s[0]);
      assert AnglesOnlyInBreaks(h) by {
        if s[0] == '\n' {
          assert h[0..5] == "<br/>";
        }
      }
      AnglesOnlyInBreaksConcat(h, Escape(s[1..]));
    }
  }

  /** No white space and no quote is left in a sanitized text. */
  lemma SanitizeInert(raw: string)
    ensures AllInert(SanitizeText(raw))
  {
    EscapeAllInert(raw);
  }

  /** Every `<` of a sanitized text begins the `<br/>` a newline became. */
  lemma SanitizeAnglesOnlyInBreaks(raw: string)
    ensures AnglesOnlyInBreaks(SanitizeText(raw))
  {
    EscapeAnglesOnlyInBreaks(raw);
  }

  // ---------------------------------------------------------- text order

  /** SQLite's BINARY collation on TEXT: byte-wise comparison of the UTF-8
      encodings, which orders as the code points do; a prefix sorts first. */
  predicate LexLe(a: string, b: string) {
    a == [] || (b != [] && (a[0] < b[0] || (a[0] == b[0] && LexLe(a[1..], b[1..]))))
  }

  lemma {:induction false} LexLeTotal(a: string, b: string)
    ensures LexLe(a, b) || LexLe(b, a)
  {
    if a != [] && b != [] && a[0] == b[0] {
      LexLeTotal(a[1..], b[1..]);
    }
  }

  lemma {:induction false} LexLeTransitive(a: string, b: string, c: string)
    requires LexLe(a, b) && LexLe(b, c)
    ensures LexLe(a, c)
  {
    if a != [] && a[0] == b[0] && b[0] == c[0] {
      LexLeTransitive(a[1..], b[1..], c[1..]);
    }
  }
}
