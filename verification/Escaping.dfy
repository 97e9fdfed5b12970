/**
 Each dialect's quoter and escaper, next to the engine's own lexer for the token it writes. An escaper is right
 when the lexer reads back exactly the value, and stops exactly where the token ends.
 */
module Escaping {
  import opened Common

  /** Python's `s.replace(c, by)` for a one-character pattern. */
  function Replace(s: string, c: char, sub: string): string {
    if s == [] then [] else (if s[0] == c then sub else [s[0]]) + Replace(s[1..], c, sub)
  }

  // ----- the dialects -----

  function DuckDbQuote(ident: string): string {
    "\"" + Replace(ident, '"', "\"\"") + "\""
  }

  function ClickHouseQuote(ident: string): string {
    "`" + Replace(Replace(ident, '\\', "\\\\"), '`', "\\`") + "`"
  }

  function ClickHouseLiteral(value: string): string {
    "'" + Replace(Replace(value, '\\', "\\\\"), '\'', "\\'") + "'"
  }

  /** StarRocks has no way to spell a backtick, so the quoter refuses one. */
  function StarRocksQuote(ident: string): Option<string> {
    if '`' in ident then None else Some("`" + ident + "`")
  }

  // ----- the engines' lexers -----

  datatype Token = Token(text: string, rest: string)

  function ConsToken(c: char, t: Option<Token>): Option<Token> {
    if t.None? then None else Some(Token([c] + t.value.text, t.value.rest))
  }

  /** DuckDB: a doubled quote is a quote, a single one ends the identifier. */
  function LexDoubled(s: string, q: char): Option<Token> {
    if s == [] then None
    else if s[0] != q then ConsToken(s[0], LexDoubled(s[1..], q))
    else if |s| > 1 && s[1] == q then ConsToken(q, LexDoubled(s[2..], q))
    else Some(Token([], s[1..]))
  }

  /** What a backslash and this character stand for in a ClickHouse token. */
  function Unescape(c: char): char {
    match c
    case 'n' => '\n'
    case 't' => '\t'
    case 'r' => '\r'
    case '0' => '\0'
    case 'b' => '\U{8}'
    case 'f' => '\U{c}'
    case 'a' => '\U{7}'
    case 'v' => '\U{b}'
    case _ => c
  }

  /**
   ClickHouse: backslash escapes inside strings and quoted identifiers, and doubling works too. Before some
   characters that form no escape the backslash is kept; which ones, `kept` says.
   */
  function LexEscaped(s: string, q: char, kept: char -> bool): Option<Token> {
    if s == [] then None
    else if s[0] == '\\' then
      if |s| == 1 then None
      else if kept(s[1]) then ConsToken('\\', ConsToken(s[1], LexEscaped(s[2..], q, kept)))
      else ConsToken(Unescape(s[1]), LexEscaped(s[2..], q, kept))
    else if s[0] != q then ConsToken(s[0], LexEscaped(s[1..], q, kept))
    else if |s| > 1 && s[1] == q then ConsToken(q, LexEscaped(s[2..], q, kept))
    else Some(Token([], s[1..]))
  }

  /** A backslash before a backslash or before the closing quote is never kept. */
  predicate ReadsEscapes(kept: char -> bool, q: char) {
    q != '\\' && Unescape(q) == q && !kept('\\') && !kept(q)
  }

  /** StarRocks identifiers end at the first backtick. */
  function LexPlain(s: string, q: char): Option<Token> {
    if s == [] then None
    else if s[0] == q then Some(Token([], s[1..]))
    else ConsToken(s[0], LexPlain(s[1..], q))
  }

  /** The text after a token does not continue it. */
  predicate Ends(suffix: string, q: char) {
    suffix == [] || suffix[0] != q
  }

  // ----- ClickHouse: two passes are one pass, and the lexer undoes it -----

  function EscapeChar(c: char, q: char): string {
    if c == '\\' then "\\\\" else if c == q then ['\\', q] else [c]
  }

  function Escape(s: string, q: char): string {
    if s == [] then [] else EscapeChar(s[0], q) + Escape(s[1..], q)
  }

  lemma {:induction false} ReplaceConcat(a: string, b: string, c: char, sub: string)
    ensures Replace(a + b, c, sub) == Replace(a, c, sub) + Replace(b, c, sub)
  {
    var all := a + b;
    if a == [] {
      assert all == b;
    } else {
      assert all[0] == a[0] && all[1..] == a[1..] + b;
      ReplaceConcat(a[1..], b, c, sub);
      Regroup(if a[0] == c then sub else [a[0]], Replace(a[1..], c, sub), Replace(b, c, sub));
    }
  }

  /** Backslash first, then the quote: the two replacements together escape each character once. */
  lemma {:induction false} TwoPassesAreOne(s: string, q: char)
    requires q != '\\'
    ensures Replace(Replace(s, '\\', "\\\\"), q, ['\\', q]) == Escape(s, q)
  {
    if s != [] {
      TwoPassesAreOne(s[1..], q);
      var head := if s[0] == '\\' then "\\\\" else [s[0]];
      ReplaceConcat(head, Replace(s[1..], '\\', "\\\\"), q, ['\\', q]);
      if s[0] == '\\' {
        assert "\\\\"[1..] == "\\" && "\\"[1..] == "";
        assert Replace("\\\\", q, ['\\', q]) == "\\\\";
      } else {
        assert [s[0]][1..] == [];
        assert Replace([s[0]], q, ['\\', q]) == EscapeChar(s[0], q);
      }
    }
  }

  lemma {:induction false} LexUndoesEscape(s: string, q: char, suffix: string, kept: char -> bool)
    requires ReadsEscapes(kept, q) && Ends(suffix, q)
    ensures LexEscaped(Escape(s, q) + [q] + suffix, q, kept) == Some(Token(s, suffix))
  {
    var text := Escape(s, q) + [q] + suffix;
    if s == [] {
      assert text == [q] + suffix;
      assert text[1..] == suffix;
    } else {
      LexUndoesEscape(s[1..], q, suffix, kept);
      var more := Escape(s[1..], q) + [q] + suffix;
      assert text == EscapeChar(s[0], q) + more;
      if s[0] == '\\' || s[0] == q {
        assert text[0] == '\\' && text[1] == s[0] && text[2..] == more;
      } else {
        assert text[0] == s[0] && text[1..] == more;
      }
      assert [s[0]] + s[1..] == s;
    }
  }

  /** A ClickHouse literal reads back as exactly the value, and the token stops exactly at its closing quote. */
  lemma ClickHouseLiteralFaithful(value: string, suffix: string, kept: char -> bool)
    requires Ends(suffix, '\'') && ReadsEscapes(kept, '\'')
    ensures var text := ClickHouseLiteral(value) + suffix;
            text[0] == '\'' && LexEscaped(text[1..], '\'', kept) == Some(Token(value, suffix))
  {
    TwoPassesAreOne(value, '\'');
    assert ['\\', '\''] == "\\'";
    LexUndoesEscape(value, '\'', suffix, kept);
    assert (ClickHouseLiteral(value) + suffix)[1..] == Escape(value, '\'') + "'" + suffix;
  }

  /** The same for a ClickHouse identifier. */
  lemma ClickHouseQuoteFaithful(ident: string, suffix: string, kept: char -> bool)
    requires Ends(suffix, '`') && ReadsEscapes(kept, '`')
    ensures var text := ClickHouseQuote(ident) + suffix;
            text[0] == '`' && LexEscaped(text[1..], '`', kept) == Some(Token(ident, suffix))
  {
    TwoPassesAreOne(ident, '`');
    assert ['\\', '`'] == "\\`";
    LexUndoesEscape(ident, '`', suffix, kept);
    assert (ClickHouseQuote(ident) + suffix)[1..] == Escape(ident, '`') + "`" + suffix;
  }

  // ----- DuckDB and StarRocks -----

  lemma {:induction false} LexUndoesDoubling(s: string, q: char, suffix: string)
    requires Ends(suffix, q)
    ensures LexDoubled(Replace(s, q, [q, q]) + [q] + suffix, q) == Some(Token(s, suffix))
  {
    var text := Replace(s, q, [q, q]) + [q] + suffix;
    if s == [] {
      assert text == [q] + suffix;
      assert text[1..] == suffix;
    } else {
      LexUndoesDoubling(s[1..], q, suffix);
      var more := Replace(s[1..], q, [q, q]) + [q] + suffix;
      if s[0] == q {
        assert text[0] == q && text[1] == q && text[2..] == more;
      } else {
        assert text[0] == s[0] && text[1..] == more;
      }
      assert [s[0]] + s[1..] == s;
    }
  }

  lemma DuckDbQuoteFaithful(ident: string, suffix: string)
    requires Ends(suffix, '"')
    ensures var text := DuckDbQuote(ident) + suffix;
            text[0] == '"' && LexDoubled(text[1..], '"') == Some(Token(ident, suffix))
  {
    assert ['"', '"'] == "\"\"";
    LexUndoesDoubling(ident, '"', suffix);
    assert (DuckDbQuote(ident) + suffix)[1..] == Replace(ident, '"', "\"\"") + "\"" + suffix;
  }

  lemma {:induction false} LexUndoesPlain(s: string, q: char, suffix: string)
    requires q !in s
    ensures LexPlain(s + [q] + suffix, q) == Some(Token(s, suffix))
  {
    var text := s + [q] + suffix;
    if s == [] {
      assert text[1..] == suffix;
    } else {
      LexUndoesPlain(s[1..], q, suffix);
      assert text[1..] == s[1..] + [q] + suffix;
      assert [s[0]] + s[1..] == s;
    }
  }

  /** StarRocks refuses exactly the identifiers it cannot spell, and spells the others faithfully. */
  lemma StarRocksQuoteFaithful(ident: string, suffix: string)
    ensures StarRocksQuote(ident).None? <==> forall text :: LexPlain(text, '`') != Some(Token(ident, suffix))
    ensures StarRocksQuote(ident).Some? ==>
              var text := StarRocksQuote(ident).value + suffix;
              text[0] == '`' && LexPlain(text[1..], '`') == Some(Token(ident, suffix))
  {
    if '`' in ident {
      forall text
        ensures LexPlain(text, '`') != Some(Token(ident, suffix))
      {
        PlainHasNoQuote(text, '`');
      }
    } else {
      LexUndoesPlain(ident, '`', suffix);
      assert ("`" + ident + "`" + suffix)[1..] == ident + ['`'] + suffix;
    }
  }

  lemma {:induction false} PlainHasNoQuote(text: string, q: char)
    ensures LexPlain(text, q).Some? ==> q !in LexPlain(text, q).value.text
  {
    if text != [] && text[0] != q {
      PlainHasNoQuote(text[1..], q);
    }
  }

  /** Every quoter is injective: two names never share a spelling. */
  lemma QuotersInjective(a: string, b: string)
    ensures DuckDbQuote(a) == DuckDbQuote(b) ==> a == b
    ensures ClickHouseQuote(a) == ClickHouseQuote(b) ==> a == b
    ensures ClickHouseLiteral(a) == ClickHouseLiteral(b) ==> a == b
    ensures StarRocksQuote(a).Some? && StarRocksQuote(a) == StarRocksQuote(b) ==> a == b
  {
    DuckDbQuoteFaithful(a, "");
    DuckDbQuoteFaithful(b, "");
    ClickHouseQuoteFaithful(a, "", c => false);
    ClickHouseQuoteFaithful(b, "", c => false);
    ClickHouseLiteralFaithful(a, "", c => false);
    ClickHouseLiteralFaithful(b, "", c => false);
    StarRocksQuoteFaithful(a, "");
    StarRocksQuoteFaithful(b, "");
  }

  // ----- one engine's rule on another engine -----

  function Backslashes(m: nat): string {
    if m == 0 then [] else ['\\'] + Backslashes(m - 1)
  }

  /** What DuckDB's rule leaves for the lexer after the opening quote. */
  function Doubled(t: string, q: char, suffix: string): string {
    Replace(t, q, [q, q]) + [q] + suffix
  }

  lemma DoubledStep(t: string, q: char, suffix: string)
    requires t != []
    ensures Doubled(t, q, suffix) == (if t[0] == q then [q, q] else [t[0]]) + Doubled(t[1..], q, suffix)
  {
    var head := if t[0] == q then [q, q] else [t[0]];
    Regroup(head, Replace(t[1..], q, [q, q]), [q]);
    Regroup(head, Replace(t[1..], q, [q, q]) + [q], suffix);
  }

  /** Reading a doubled text never yields that text with backslashes in front. */
  lemma {:induction false} CannotGainBackslashes(t: string, q: char, suffix: string, m: nat, kept: char -> bool)
    requires ReadsEscapes(kept, q) && Ends(suffix, q) && m > 0
    ensures var lexed := LexEscaped(Doubled(t, q, suffix), q, kept);
            lexed.Some? ==> lexed.value.text != Backslashes(m) + t
    decreases |t|
  {
    var text := Doubled(t, q, suffix);
    if t == [] {
      assert text == [q] + suffix;
    } else if t[0] != '\\' {
      DoubledStep(t, q, suffix);
      assert (Backslashes(m) + t)[0] == '\\';
      assert text[0] == t[0] && (t[0] == q ==> text[1] == q);
    } else {
      BackslashSwallows(t, q, suffix, m, kept);
    }
  }

  /** A backslash that is not kept takes the next character with it, so the text can only match if that is one too. */
  lemma {:induction false} BackslashSwallows(t: string, q: char, suffix: string, m: nat, kept: char -> bool)
    requires ReadsEscapes(kept, q) && Ends(suffix, q) && t != [] && t[0] == '\\'
    requires m > 0 || |t| == 1 || !kept(t[1])
    ensures var lexed := LexEscaped(Doubled(t, q, suffix), q, kept);
            lexed.Some? ==> lexed.value.text != Backslashes(m) + t
    decreases |t|, 0
  {
    var text := Doubled(t, q, suffix);
    var tail := t[1..];
    DoubledStep(t, q, suffix);
    assert text[0] == '\\' && text[1..] == Doubled(tail, q, suffix);
    assert (Backslashes(m) + t)[0] == '\\';
    if tail == [] {
      assert Doubled(tail, q, suffix) == [q] + suffix;
      assert text[1] == q;
    } else {
      DoubledStep(tail, q, suffix);
      assert text[1] == tail[0];
      if kept(tail[0]) {
        assert (Backslashes(m) + t)[1] == '\\';
      } else if tail[0] == '\\' {
        TwoBackslashes(tail[1..], q, suffix, m, kept);
        assert t == ['\\'] + (['\\'] + tail[1..]);
      }
    }
  }

  lemma {:induction false} TwoBackslashes(rest: string, q: char, suffix: string, m: nat, kept: char -> bool)
    requires ReadsEscapes(kept, q) && Ends(suffix, q)
    ensures var lexed := LexEscaped(Doubled(['\\'] + (['\\'] + rest), q, suffix), q, kept);
            lexed.Some? ==> lexed.value.text != Backslashes(m) + (['\\'] + (['\\'] + rest))
    decreases |rest| + 1
  {
    var t := ['\\'] + (['\\'] + rest);
    var text, more := Doubled(t, q, suffix), Doubled(rest, q, suffix);
    DoubledStep(t, q, suffix);
    assert t[1..] == ['\\'] + rest && t[1..][1..] == rest;
    DoubledStep(t[1..], q, suffix);
    assert text[0] == '\\' && text[1] == '\\' && text[2..] == more;
    CannotGainBackslashes(rest, q, suffix, m + 1, kept);
    var lexed := LexEscaped(text, q, kept);
    if lexed.Some? {
      assert lexed.value.text == ['\\'] + LexEscaped(more, q, kept).value.text;
      BackslashesSplit(m, rest);
      assert lexed.value.text[1..] == LexEscaped(more, q, kept).value.text;
      assert (Backslashes(m) + t)[1..] == Backslashes(m + 1) + rest;
    }
  }

  lemma {:induction false} BackslashesSplit(m: nat, t: string)
    ensures Backslashes(m) + (['\\'] + (['\\'] + t)) == ['\\'] + (Backslashes(m + 1) + t)
  {
    BackslashesCommute(m);
    assert Backslashes(m) + (['\\'] + (['\\'] + t)) == (Backslashes(m) + ['\\']) + (['\\'] + t);
    BackslashesCommute(m + 1);
  }

  lemma {:induction false} BackslashesCommute(m: nat)
    ensures Backslashes(m) + ['\\'] == Backslashes(m + 1)
  {
    if m > 0 {
      BackslashesCommute(m - 1);
    }
  }

  /** Every backslash of the name stands before a character before which the engine keeps it. */
  predicate BackslashesKept(ident: string, kept: char -> bool) {
    forall i :: 0 <= i < |ident| && ident[i] == '\\' ==> i + 1 < |ident| && kept(ident[i + 1])
  }

  lemma BackslashesKeptTail(ident: string, k: nat, kept: char -> bool)
    requires k <= |ident| && forall i :: 0 <= i < k && ident[i] == '\\' ==> i + 1 < |ident| && kept(ident[i + 1])
    ensures BackslashesKept(ident, kept) <==> BackslashesKept(ident[k..], kept)
  {
    var tail := ident[k..];
    assert forall i :: 0 <= i < |tail| ==> tail[i] == ident[i + k];
    if BackslashesKept(tail, kept) {
      forall i | 0 <= i < |ident| && ident[i] == '\\'
        ensures i + 1 < |ident| && kept(ident[i + 1])
      {
        if i >= k {
          assert tail[i - k] == '\\';
        }
      }
    }
  }

  /**
   DuckDB's quoting rule, carried over to ClickHouse, names the intended column exactly when every backslash of
   the name stands where the engine keeps it; for an engine that keeps none, when the name has no backslash.
   */
  lemma DuckDbQuoteOnClickHouse(ident: string, suffix: string, kept: char -> bool)
    requires Ends(suffix, '"') && ReadsEscapes(kept, '"')
    ensures LexEscaped((DuckDbQuote(ident) + suffix)[1..], '"', kept) == Some(Token(ident, suffix))
            <==> BackslashesKept(ident, kept)
  {
    assert ['"', '"'] == "\"\"";
    assert (DuckDbQuote(ident) + suffix)[1..] == Doubled(ident, '"', suffix);
    DoublingReadsBack(ident, '"', suffix, kept);
  }

  lemma {:induction false} DoublingReadsBack(ident: string, q: char, suffix: string, kept: char -> bool)
    requires Ends(suffix, q) && ReadsEscapes(kept, q)
    ensures LexEscaped(Doubled(ident, q, suffix), q, kept) == Some(Token(ident, suffix))
            <==> BackslashesKept(ident, kept)
    decreases |ident|
  {
    var text := Doubled(ident, q, suffix);
    if ident == [] {
      assert text == [q] + suffix;
      assert text[1..] == suffix;
    } else if ident[0] == '\\' && |ident| > 1 && kept(ident[1]) {
      DoubledStep(ident, q, suffix);
      DoubledStep(ident[1..], q, suffix);
      assert ident[1..][1..] == ident[2..];
      assert text[0] == '\\' && text[1] == ident[1] && text[2..] == Doubled(ident[2..], q, suffix);
      DoublingReadsBack(ident[2..], q, suffix, kept);
      BackslashesKeptTail(ident, 2, kept);
      TwoReadBack(LexEscaped(Doubled(ident[2..], q, suffix), q, kept), ident, suffix);
    } else if ident[0] == '\\' {
      BackslashSwallows(ident, q, suffix, 0, kept);
      assert Backslashes(0) + ident == ident;
    } else {
      DoubledStep(ident, q, suffix);
      var more := Doubled(ident[1..], q, suffix);
      DoublingReadsBack(ident[1..], q, suffix, kept);
      BackslashesKeptTail(ident, 1, kept);
      if ident[0] == q {
        assert text[0] == q && text[1] == q && text[2..] == more;
      } else {
        assert text[0] == ident[0] && text[1..] == more;
      }
      OneReadBack(LexEscaped(more, q, kept), ident, suffix);
    }
  }

  lemma OneReadBack(rest: Option<Token>, ident: string, suffix: string)
    requires ident != []
    ensures ConsToken(ident[0], rest) == Some(Token(ident, suffix)) <==> rest == Some(Token(ident[1..], suffix))
  {
    assert ident == [ident[0]] + ident[1..];
    if rest.Some? && [ident[0]] + rest.value.text == ident {
      assert rest.value.text == ident[1..];
    }
  }

  lemma TwoReadBack(rest: Option<Token>, ident: string, suffix: string)
    requires |ident| > 1
    ensures ConsToken(ident[0], ConsToken(ident[1], rest)) == Some(Token(ident, suffix))
            <==> rest == Some(Token(ident[2..], suffix))
  {
    OneReadBack(rest, ident[1..], suffix);
    OneReadBack(ConsToken(ident[1], rest), ident, suffix);
    assert ident[1..][1..] == ident[2..];
  }

  /** The case the source names: quoted DuckDB's way, the column a\`b is read as the different column a`b. */
  lemma QuotingNamesTheWrongColumn(kept: char -> bool)
    requires ReadsEscapes(kept, '"') && !kept('`')
    ensures LexEscaped(DuckDbQuote("a\\`b")[1..], '"', kept) == Some(Token("a`b", ""))
  {
    var text := DuckDbQuote("a\\`b")[1..];
    assert Replace("a\\`b", '"', "\"\"") == "a\\`b" by {
      assert "a\\`b"[1..] == "\\`b" && "\\`b"[1..] == "`b" && "`b"[1..] == "b" && "b"[1..] == "";
      assert Replace("b", '"', "\"\"") == "b" && Replace("`b", '"', "\"\"") == "`b";
      assert Replace("\\`b", '"', "\"\"") == "\\`b";
    }
    assert text == "a\\`b\"";
    assert text[1..] == "\\`b\"" && text[1..][2..] == "b\"" && "b\""[1..] == "\"" && "\""[1..] == "";
    assert ['b'] + "" == "b" && ['`'] + "b" == "`b" && ['a'] + "`b" == "a`b";
    assert LexEscaped("\"", '"', kept) == Some(Token("", ""));
    assert LexEscaped("b\"", '"', kept) == Some(Token("b", ""));
    assert LexEscaped("\\`b\"", '"', kept) == Some(Token("`b", ""));
  }
}
