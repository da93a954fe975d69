/**
  What the tokenizer promises: how runs, separators, quotes and escapes turn
  into tokens, when it fails, and a printer it inverts.
 */
module LexerProperties {
  import opened Results
  import opened Lexer

  /** A character the scanner only buffers: outside quotes, separators are not ordinary. */
  predicate Ordinary(c: char, quoting: bool) {
    c != '"' && c != '\\' && (quoting || !IsSeparator(c))
  }

  predicate OrdinaryRun(input: string, i: nat, k: nat, quoting: bool)
    requires i <= k <= |input|
  {
    forall j | i <= j < k :: Ordinary(input[j], quoting)
  }

  /** A slice equal to a concatenation splits into slices equal to its parts. */
  lemma SplitSlice(input: string, i: nat, a: string, b: string)
    requires i + |a| + |b| <= |input|
    requires input[i..i + |a| + |b|] == a + b
    ensures input[i..i + |a|] == a
    ensures input[i + |a|..i + |a| + |b|] == b
  {
    assert input[i..i + |a|] == input[i..i + |a| + |b|][..|a|];
    assert input[i + |a|..i + |a| + |b|] == input[i..i + |a| + |b|][|a|..];
  }

  lemma SplitSuffix(input: string, i: nat, a: string, b: string)
    requires i <= |input| && input[i..] == a + b
    ensures i + |a| <= |input|
    ensures input[i..i + |a|] == a
    ensures input[i + |a|..] == b
  {
    assert input[i..i + |a|] == input[i..][..|a|];
    assert input[i + |a|..] == input[i..][|a|..];
  }

  /** A run of ordinary characters is copied into the buffer unchanged. */
  lemma {:induction false} ScanRun(input: string, i: nat, k: nat, buf: string, quoting: bool)
    requires i <= k <= |input|
    requires OrdinaryRun(input, i, k, quoting)
    ensures Scan(input, i, buf, quoting, false) == Scan(input, k, buf + input[i..k], quoting, false)
    decreases k - i
  {
    if i == k {
      assert buf + input[i..k] == buf;
    } else {
      ScanRun(input, i + 1, k, buf + [input[i]], quoting);
      assert buf + [input[i]] + input[i + 1..k] == buf + input[i..k];
    }
  }

  /** Outside quotes, a separator met with an empty buffer is a `Char` token of its own. */
  lemma SeparatorAlone(input: string, cursor: nat)
    requires cursor < |input| && IsSeparator(input[cursor])
    ensures Next(input, cursor) == Success(Step(CharTok(input[cursor]), cursor + 1))
  {
  }

  /**
    A non-empty unquoted run ends at a separator: the run is a `String`, the
    separator is left unconsumed, and the next call returns it as a `Char`.
   */
  lemma RunThenSeparator(input: string, cursor: nat, k: nat)
    requires cursor < k < |input|
    requires OrdinaryRun(input, cursor, k, false) && IsSeparator(input[k])
    ensures Next(input, cursor) == Success(Step(StringTok(input[cursor..k]), k))
    ensures Next(input, k) == Success(Step(CharTok(input[k]), k + 1))
  {
    ScanRun(input, cursor, k, [], false);
    assert [] + input[cursor..k] == input[cursor..k];
  }

  /** At the end of the input a non-empty unquoted run is flushed as a `String`. */
  lemma RunToEnd(input: string, cursor: nat)
    requires cursor < |input|
    requires OrdinaryRun(input, cursor, |input|, false)
    ensures Next(input, cursor) == Success(Step(StringTok(input[cursor..]), |input|))
    ensures Next(input, |input|) == Success(Step(EofTok, |input|))
  {
    ScanRun(input, cursor, |input|, [], false);
    assert [] + input[cursor..|input|] == input[cursor..];
  }

  /**
    An unquoted run followed by a quoted run is one `String` token: the opening
    quote does not flush, separators inside the quotes are plain text, and the
    closing quote ends the token even when nothing was buffered.
   */
  lemma QuotedString(input: string, cursor: nat, a: nat, b: nat)
    requires cursor <= a < b < |input|
    requires OrdinaryRun(input, cursor, a, false) && input[a] == '"'
    requires OrdinaryRun(input, a + 1, b, true) && input[b] == '"'
    ensures Next(input, cursor) == Success(Step(StringTok(input[cursor..a] + input[a + 1..b]), b + 1))
  {
    ScanRun(input, cursor, a, [], false);
    assert [] + input[cursor..a] == input[cursor..a];
    ScanRun(input, a + 1, b, input[cursor..a], true);
  }

  /**
    The escape table: what a backslash followed by a character adds to the
    buffer, outside and inside quotes. A character missing from the table is
    an invalid escape.
   */
  function EscapeTable(quoting: bool): map<char, string> {
    if quoting then map['\\' := "\\\\", '"' := "\"", ',' := "\\,"]
    else map['\\' := "\\", '=' := "=", ';' := ";", ',' := ","]
  }

  lemma EscapeFollowsTable(input: string, i: nat, buf: string, quoting: bool)
    requires i < |input|
    ensures Scan(input, i, buf, quoting, true) ==
              if input[i] in EscapeTable(quoting)
              then Scan(input, i + 1, buf + EscapeTable(quoting)[input[i]], quoting, false)
              else Failure(InvalidEscape(input[i]))
  {
    var c := input[i];
    if quoting {
      assert c in EscapeTable(quoting) <==> c == '\\' || c == '"' || c == ',';
    } else {
      assert c in EscapeTable(quoting) <==> c == '\\' || IsSeparator(c);
    }
  }

  /** A backslash and an escapable character add the character's table entry to the buffer. */
  lemma EscapeStep(input: string, i: nat, buf: string, quoting: bool)
    requires i + 1 < |input| && input[i] == '\\' && input[i + 1] in EscapeTable(quoting)
    ensures Scan(input, i, buf, quoting, false) ==
              Scan(input, i + 2, buf + EscapeTable(quoting)[input[i + 1]], quoting, false)
  {
    assert Scan(input, i, buf, quoting, false) == Scan(input, i + 1, buf, quoting, true);
    EscapeFollowsTable(input, i + 1, buf, quoting);
  }

  /** Once inside quotes, an input with no further quote character cannot be tokenized. */
  lemma {:induction false} ScanNoClosingQuote(input: string, i: nat, buf: string, escaping: bool)
    requires i <= |input|
    requires forall j | i <= j < |input| :: input[j] != '"'
    ensures Scan(input, i, buf, true, escaping).Failure?
    decreases |input| - i
  {
    if i < |input| {
      var c := input[i];
      if escaping {
        if c == '\\' {
          ScanNoClosingQuote(input, i + 1, buf + ['\\', '\\'], false);
        } else if c == ',' {
          ScanNoClosingQuote(input, i + 1, buf + ['\\', c], false);
        }
      } else if c == '\\' {
        ScanNoClosingQuote(input, i + 1, buf, true);
      } else {
        ScanNoClosingQuote(input, i + 1, buf + [c], false);
      }
    }
  }

  /** A call that opens a quote which is never closed fails. */
  lemma UnterminatedQuote(input: string, cursor: nat, a: nat)
    requires cursor <= a < |input|
    requires OrdinaryRun(input, cursor, a, false) && input[a] == '"'
    requires forall j | a < j < |input| :: input[j] != '"'
    ensures Next(input, cursor).Failure?
    ensures TokenizeFrom(input, cursor).Failure?
  {
    ScanRun(input, cursor, a, [], false);
    assert [] + input[cursor..a] == input[cursor..a];
    ScanNoClosingQuote(input, a + 1, input[cursor..a], false);
  }

  /**
    Before the only quote character of an input free of backslashes, every
    call either fails or returns a token without reaching the quote.
   */
  lemma {:induction false} ScanBeforeLoneQuote(input: string, i: nat, buf: string, a: nat)
    requires i <= a < |input| && input[a] == '"'
    requires forall j | i <= j < |input| :: input[j] != '\\' && (j != a ==> input[j] != '"')
    ensures var r := Scan(input, i, buf, false, false);
              r.Failure? || (r.value.token != EofTok && r.value.cursor <= a)
    decreases a - i
  {
    if i == a {
      ScanNoClosingQuote(input, a + 1, buf, false);
    } else if !IsSeparator(input[i]) {
      ScanBeforeLoneQuote(input, i + 1, buf + [input[i]], a);
    }
  }

  /** An input holding exactly one quote character and no backslash cannot be tokenized. */
  lemma {:induction false} LoneQuoteFails(input: string, cursor: nat, a: nat)
    requires cursor <= a < |input| && input[a] == '"'
    requires forall j | cursor <= j < |input| :: input[j] != '\\' && (j != a ==> input[j] != '"')
    ensures TokenizeFrom(input, cursor).Failure?
    decreases a - cursor
  {
    ScanBeforeLoneQuote(input, cursor, [], a);
    var r := Next(input, cursor);
    if r.Success? {
      LoneQuoteFails(input, r.value.cursor, a);
    }
  }

  /** Input that ends right after a backslash fails with the missing-escape error. */
  lemma DanglingEscape(input: string, cursor: nat)
    requires cursor < |input| && input[|input| - 1] == '\\'
    requires OrdinaryRun(input, cursor, |input| - 1, false)
    ensures Next(input, cursor) == Failure(MissingEscape)
  {
    ScanRun(input, cursor, |input| - 1, [], false);
    assert [] + input[cursor..|input| - 1] == input[cursor..|input| - 1];
  }

  /** The concatenated texts of a token sequence. */
  function Texts(ts: seq<Token>): string {
    if |ts| == 0 then [] else Text(ts[0]) + Texts(ts[1..])
  }

  /**
    Without quotes and backslashes every call succeeds and its token's text
    is exactly the input it consumed (after what was already buffered).
   */
  lemma {:induction false} ScanPlainText(input: string, i: nat, buf: string)
    requires i <= |input|
    requires forall j | i <= j < |input| :: input[j] != '"' && input[j] != '\\'
    ensures var r := Scan(input, i, buf, false, false);
              r.Success? && Text(r.value.token) == buf + input[i..r.value.cursor]
    decreases |input| - i
  {
    if i == |input| {
      assert buf + input[i..i] == buf;
    } else if IsSeparator(input[i]) {
      assert buf + input[i..i] == buf;
      assert [] + input[i..i + 1] == [input[i]];
    } else {
      ScanPlainText(input, i + 1, buf + [input[i]]);
      var r := Scan(input, i + 1, buf + [input[i]], false, false);
      assert buf + [input[i]] + input[i + 1..r.value.cursor] == buf + input[i..r.value.cursor];
    }
  }

  /** One round of the pull loop: a non-EOF token is followed by the tokens of the rest. */
  lemma TokenizeStep(input: string, cursor: nat, t: Token, next: nat)
    requires cursor <= |input|
    requires Next(input, cursor) == Success(Step(t, next)) && t != EofTok
    ensures next <= |input|
    ensures TokenizeFrom(input, cursor) == Prepend([t], TokenizeFrom(input, next))
    ensures TokenizeFrom(input, cursor).Success? <==> TokenizeFrom(input, next).Success?
    ensures TokenizeFrom(input, next).Success? ==>
              TokenizeFrom(input, cursor).value == [t] + TokenizeFrom(input, next).value
  {
  }

  /** Without quotes and backslashes a call succeeds and returns the text it consumed. */
  lemma NextPlainText(input: string, cursor: nat) returns (t: Token, next: nat)
    requires cursor <= |input|
    requires forall j | cursor <= j < |input| :: input[j] != '"' && input[j] != '\\'
    ensures cursor <= next <= |input|
    ensures Next(input, cursor) == Success(Step(t, next))
    ensures Text(t) == input[cursor..next]
  {
    ScanPlainText(input, cursor, []);
    t, next := Next(input, cursor).value.token, Next(input, cursor).value.cursor;
    assert [] + input[cursor..next] == input[cursor..next];
  }

  /** The pull loop stops at the EOF token, which only the end of the input yields. */
  lemma TokenizeEnd(input: string, cursor: nat)
    requires cursor <= |input|
    requires Next(input, cursor).Success? && Next(input, cursor).value.token == EofTok
    ensures cursor == |input|
    ensures TokenizeFrom(input, cursor).Success? && TokenizeFrom(input, cursor).value == [EofTok]
  {
  }

  /** For input with no quote and no backslash, the tokens spell the input back. */
  lemma {:induction false} TokenizeConcat(input: string, cursor: nat)
    requires cursor <= |input|
    requires forall j | cursor <= j < |input| :: input[j] != '"' && input[j] != '\\'
    ensures TokenizeFrom(input, cursor).Success?
    ensures Texts(TokenizeFrom(input, cursor).value) == input[cursor..]
    decreases |input| - cursor
  {
    var t, next := NextPlainText(input, cursor);
    if t != EofTok {
      TokenizeStep(input, cursor, t, next);
      TokenizeConcat(input, next);
      var rest := TokenizeFrom(input, next).value;
      TextsCons(t, rest);
      SliceJoin(input, cursor, next);
      calc {
        Texts(TokenizeFrom(input, cursor).value);
        Texts([t] + rest);
        Text(t) + Texts(rest);
        input[cursor..next] + input[next..];
        input[cursor..];
      }
    } else {
      TokenizeEnd(input, cursor);
      TextsCons(EofTok, []);
      calc {
        Texts(TokenizeFrom(input, cursor).value);
        Texts([EofTok] + []);
        [];
        input[cursor..];
      }
    }
  }

  lemma SliceJoin(s: string, a: nat, b: nat)
    requires a <= b <= |s|
    ensures s[a..b] + s[b..] == s[a..]
  {
  }

  lemma TextsCons(t: Token, rest: seq<Token>)
    ensures Texts([t] + rest) == Text(t) + Texts(rest)
  {
    assert ([t] + rest)[1..] == rest;
  }

  // ---- unquoted text read back ----

  /** A non-empty word the scanner buffers outside quotes: no separator, quote or backslash. */
  predicate PlainWord(w: string) {
    |w| > 0 && forall j | 0 <= j < |w| :: Ordinary(w[j], false)
  }

  /**
    Tokens that can be written without quotes or escapes: words and
    separators, never two words in a row (they would run together), no EOF.
   */
  predicate PlainTokens(ts: seq<Token>) {
    && (forall j | 0 <= j < |ts| :: ts[j].StringTok? ==> PlainWord(ts[j].text))
    && (forall j | 0 <= j < |ts| :: ts[j].CharTok? ==> IsSeparator(ts[j].sep))
    && (forall j | 0 <= j < |ts| :: ts[j] != EofTok)
    && (forall j | 0 < j < |ts| :: ts[j].StringTok? ==> !ts[j - 1].StringTok?)
  }

  lemma PlainTail(ts: seq<Token>)
    requires |ts| > 0 && PlainTokens(ts)
    ensures PlainTokens(ts[1..])
  {
    var tail := ts[1..];
    assert forall j | 0 <= j < |tail| :: tail[j] == ts[j + 1];
  }

  /** A plain word found at `i` is an ordinary run there. */
  lemma WordRun(input: string, i: nat, w: string)
    requires PlainWord(w) && i + |w| <= |input| && input[i..i + |w|] == w
    ensures OrdinaryRun(input, i, i + |w|, false)
  {
    forall j | i <= j < i + |w| ensures Ordinary(input[j], false) {
      assert input[j] == input[i..i + |w|][j - i];
    }
  }

  /** Where a token's text was found, and what follows it. */
  lemma PlainSplit(input: string, cursor: nat, ts: seq<Token>)
    requires |ts| > 0 && cursor <= |input| && input[cursor..] == Texts(ts)
    ensures cursor + |Text(ts[0])| <= |input|
    ensures input[cursor..cursor + |Text(ts[0])|] == Text(ts[0])
    ensures input[cursor + |Text(ts[0])|..] == Texts(ts[1..])
  {
    TextsCons(ts[0], ts[1..]);
    assert [ts[0]] + ts[1..] == ts;
    SplitSuffix(input, cursor, Text(ts[0]), Texts(ts[1..]));
  }

  /** The first character after a word, when a separator token follows it. */
  lemma SeparatorAfter(input: string, k: nat, ts: seq<Token>)
    requires |ts| > 0 && ts[0].CharTok? && k <= |input| && input[k..] == Texts(ts)
    ensures k < |input| && input[k] == ts[0].sep
  {
    TextsCons(ts[0], ts[1..]);
    assert [ts[0]] + ts[1..] == ts;
    assert input[k..][0] == ts[0].sep;
  }

  /** A plain word ended by a separator or by the end of the input is one `String`. */
  lemma NextPlainWord(input: string, cursor: nat, w: string)
    requires PlainWord(w) && cursor + |w| <= |input| && input[cursor..cursor + |w|] == w
    requires cursor + |w| == |input| || IsSeparator(input[cursor + |w|])
    ensures Next(input, cursor) == Success(Step(StringTok(w), cursor + |w|))
  {
    WordRun(input, cursor, w);
    if cursor + |w| == |input| {
      RunToEnd(input, cursor);
      assert input[cursor..] == input[cursor..cursor + |w|];
    } else {
      RunThenSeparator(input, cursor, cursor + |w|);
    }
  }

  /** A word in a plain token sequence is followed by a separator, if by anything. */
  lemma AfterWord(ts: seq<Token>)
    requires |ts| > 1 && PlainTokens(ts) && ts[0].StringTok?
    ensures ts[1].CharTok?
  {
    assert ts[1] != EofTok && ts[0].StringTok?;
  }

  lemma PlainWordHead(input: string, cursor: nat, ts: seq<Token>)
    requires |ts| > 0 && PlainTokens(ts) && ts[0].StringTok?
    requires cursor + |ts[0].text| <= |input| && input[cursor..cursor + |ts[0].text|] == ts[0].text
    requires input[cursor + |ts[0].text|..] == Texts(ts[1..])
    ensures Next(input, cursor) == Success(Step(ts[0], cursor + |ts[0].text|))
  {
    var next := cursor + |ts[0].text|;
    if |ts| > 1 {
      AfterWord(ts);
      SeparatorAfter(input, next, ts[1..]);
    } else {
      assert |Texts(ts[1..])| == 0;
    }
    NextPlainWord(input, cursor, ts[0].text);
  }

  /** What a plain token sequence says about its first token. */
  lemma PlainFirst(ts: seq<Token>)
    requires |ts| > 0 && PlainTokens(ts)
    ensures ts[0] != EofTok
    ensures ts[0].CharTok? ==> IsSeparator(ts[0].sep)
  {
  }

  /** A separator found at `cursor` is read as its `Char` token. */
  lemma SeparatorHead(input: string, cursor: nat, c: char)
    requires IsSeparator(c) && cursor + 1 <= |input| && input[cursor..cursor + 1] == [c]
    ensures Next(input, cursor) == Success(Step(CharTok(c), cursor + 1))
  {
    assert input[cursor] == input[cursor..cursor + 1][0];
    SeparatorAlone(input, cursor);
  }

  /** The head of a plain token sequence is read back by one call. */
  lemma PlainHead(input: string, cursor: nat, ts: seq<Token>)
    requires |ts| > 0 && PlainTokens(ts)
    requires cursor <= |input| && input[cursor..] == Texts(ts)
    ensures cursor + |Text(ts[0])| <= |input| && ts[0] != EofTok
    ensures Next(input, cursor) == Success(Step(ts[0], cursor + |Text(ts[0])|))
    ensures input[cursor + |Text(ts[0])|..] == Texts(ts[1..])
  {
    PlainSplit(input, cursor, ts);
    PlainFirst(ts);
    if ts[0].CharTok? {
      SeparatorHead(input, cursor, ts[0].sep);
    } else {
      PlainWordHead(input, cursor, ts);
    }
  }

  lemma {:induction false} TokenizePlainFrom(input: string, cursor: nat, ts: seq<Token>)
    requires PlainTokens(ts)
    requires cursor <= |input| && input[cursor..] == Texts(ts)
    ensures TokenizeFrom(input, cursor) == Success(ts + [EofTok])
    decreases |ts|
  {
    if |ts| == 0 {
      assert |input[cursor..]| == 0;
      TokenizeEnd(input, cursor);
      assert ts + [EofTok] == [EofTok];
    } else {
      var next := cursor + |Text(ts[0])|;
      PlainHead(input, cursor, ts);
      TokenizeStep(input, cursor, ts[0], next);
      PlainTail(ts);
      TokenizePlainFrom(input, next, ts[1..]);
      ConsEof(ts);
    }
  }

  /**
    The converse of `TokenizeConcat`: words and separators written out
    without quotes tokenize back to themselves.
   */
  lemma TokenizePlain(ts: seq<Token>)
    requires PlainTokens(ts)
    ensures TokenizeFrom(Texts(ts), 0) == Success(ts + [EofTok])
  {
    TokenizePlainFrom(Texts(ts), 0, ts);
  }

  // ---- a printer the tokenizer inverts ----

  /** Quoted-string escaping: a quote character becomes `\"`. */
  function QuoteEscape(s: string): string {
    if |s| == 0 then [] else (if s[0] == '"' then ['\\', '"'] else [s[0]]) + QuoteEscape(s[1..])
  }

  /** A `String` token is printed quoted, a `Char` token as its separator. */
  function RenderToken(t: Token): string {
    match t
    case StringTok(s) => ['"'] + QuoteEscape(s) + ['"']
    case CharTok(c) => [c]
    case EofTok => []
  }

  function Render(ts: seq<Token>): string {
    if |ts| == 0 then [] else RenderToken(ts[0]) + Render(ts[1..])
  }

  /**
    Tokens the printer can express: inside quotes a lone backslash cannot be
    produced, and a `Char` token is always a separator.
   */
  predicate Renderable(t: Token) {
    match t
    case StringTok(s) => '\\' !in s
    case CharTok(c) => IsSeparator(c)
    case EofTok => false
  }

  lemma QuotedCharStep(input: string, i: nat, buf: string)
    requires i < |input| && Ordinary(input[i], true)
    ensures Scan(input, i, buf, true, false) == Scan(input, i + 1, buf + [input[i]], true, false)
  {
  }

  lemma EscapedQuoteStep(input: string, i: nat, buf: string)
    requires i + 1 < |input| && input[i] == '\\' && input[i + 1] == '"'
    ensures Scan(input, i, buf, true, false) == Scan(input, i + 2, buf + ['"'], true, false)
  {
    assert Scan(input, i, buf, true, false) == Scan(input, i + 1, buf, true, true);
  }

  /** The first character of an escaped quoted string is read back. */
  lemma QuoteEscapedHead(input: string, i: nat, buf: string, s: string) returns (m: nat)
    requires |s| > 0 && forall j | 0 <= j < |s| :: s[j] != '\\'
    requires i + |QuoteEscape(s)| <= |input|
    requires input[i..i + |QuoteEscape(s)|] == QuoteEscape(s)
    ensures m + |QuoteEscape(s[1..])| == i + |QuoteEscape(s)|
    ensures input[m..m + |QuoteEscape(s[1..])|] == QuoteEscape(s[1..])
    ensures Scan(input, i, buf, true, false) == Scan(input, m, buf + [s[0]], true, false)
  {
    var head := if s[0] == '"' then ['\\', '"'] else [s[0]];
    var e := QuoteEscape(s[1..]);
    assert QuoteEscape(s) == head + e;
    m := i + |head|;
    SplitSlice(input, i, head, e);
    if s[0] == '"' {
      assert input[i] == input[i..m][0] && input[i + 1] == input[i..m][1];
      EscapedQuoteStep(input, i, buf);
    } else {
      assert input[i] == input[i..m][0];
      QuotedCharStep(input, i, buf);
    }
  }

  lemma {:induction false} ScanQuoteEscaped(input: string, i: nat, buf: string, s: string)
    requires forall j | 0 <= j < |s| :: s[j] != '\\'
    requires i + |QuoteEscape(s)| <= |input|
    requires input[i..i + |QuoteEscape(s)|] == QuoteEscape(s)
    ensures Scan(input, i, buf, true, false) == Scan(input, i + |QuoteEscape(s)|, buf + s, true, false)
    decreases |s|
  {
    if |s| == 0 {
      assert buf + s == buf;
    } else {
      var m := QuoteEscapedHead(input, i, buf, s);
      ScanQuoteEscaped(input, m, buf + [s[0]], s[1..]);
      AppendHead(buf, s);
    }
  }

  lemma AppendHead(buf: string, s: string)
    requires |s| > 0
    ensures buf + [s[0]] + s[1..] == buf + s
  {
  }

  /** A printed token, wherever it appears, is read back as that token. */
  lemma NextRendered(input: string, cursor: nat, t: Token)
    requires Renderable(t)
    requires cursor + |RenderToken(t)| <= |input|
    requires input[cursor..cursor + |RenderToken(t)|] == RenderToken(t)
    ensures Next(input, cursor) == Success(Step(t, cursor + |RenderToken(t)|))
  {
    if t.StringTok? {
      NoBackslash(t.text);
      QuotedFrame(input, cursor, QuoteEscape(t.text));
      NextQuoted(input, cursor, t.text);
    } else {
      assert input[cursor] == input[cursor..cursor + 1][0];
    }
  }

  lemma NoBackslash(s: string)
    requires '\\' !in s
    ensures forall j | 0 <= j < |s| :: s[j] != '\\'
  {
    forall j | 0 <= j < |s| ensures s[j] != '\\' { assert s[j] in s; }
  }

  lemma NextQuoted(input: string, cursor: nat, s: string)
    requires forall j | 0 <= j < |s| :: s[j] != '\\'
    requires cursor + |QuoteEscape(s)| + 2 <= |input|
    requires input[cursor] == '"' && input[cursor + 1 + |QuoteEscape(s)|] == '"'
    requires input[cursor + 1..cursor + 1 + |QuoteEscape(s)|] == QuoteEscape(s)
    ensures Next(input, cursor) == Success(Step(StringTok(s), cursor + |QuoteEscape(s)| + 2))
  {
    var end := cursor + 1 + |QuoteEscape(s)|;
    calc {
      Next(input, cursor);
      Scan(input, cursor, [], false, false);
      { OpenQuoteStep(input, cursor); }
      Scan(input, cursor + 1, [], true, false);
      { ScanQuotedBody(input, cursor + 1, s); }
      Scan(input, end, s, true, false);
      { CloseQuoteStep(input, end, s); }
      Success(Step(StringTok(s), end + 1));
    }
  }

  lemma ScanQuotedBody(input: string, i: nat, s: string)
    requires forall j | 0 <= j < |s| :: s[j] != '\\'
    requires i + |QuoteEscape(s)| <= |input|
    requires input[i..i + |QuoteEscape(s)|] == QuoteEscape(s)
    ensures Scan(input, i, [], true, false) == Scan(input, i + |QuoteEscape(s)|, s, true, false)
  {
    ScanQuoteEscaped(input, i, [], s);
    assert [] + s == s;
  }

  /** The characters of a quoted frame `"e"` found at `cursor`. */
  lemma QuotedFrame(input: string, cursor: nat, e: string)
    requires cursor + |e| + 2 <= |input|
    requires input[cursor..cursor + |e| + 2] == ['"'] + e + ['"']
    ensures input[cursor] == '"' && input[cursor + 1 + |e|] == '"'
    ensures input[cursor + 1..cursor + 1 + |e|] == e
  {
    var end := cursor + 1 + |e|;
    SplitSlice(input, cursor, ['"'] + e, ['"']);
    SplitSlice(input, cursor, ['"'], e);
    assert input[cursor] == input[cursor..cursor + 1][0];
    assert input[end] == input[end..end + 1][0];
  }

  lemma OpenQuoteStep(input: string, i: nat)
    requires i < |input| && input[i] == '"'
    ensures Scan(input, i, [], false, false) == Scan(input, i + 1, [], true, false)
  {
  }

  lemma CloseQuoteStep(input: string, i: nat, buf: string)
    requires i < |input| && input[i] == '"'
    ensures Scan(input, i, buf, true, false) == Success(Step(StringTok(buf), i + 1))
  {
  }

  /** Tokenizing a printed token sequence gives the tokens back, then EOF. */
  lemma {:induction false} TokenizeRendered(input: string, cursor: nat, ts: seq<Token>)
    requires forall t | t in ts :: Renderable(t)
    requires cursor <= |input| && input[cursor..] == Render(ts)
    ensures TokenizeFrom(input, cursor).Success?
    ensures TokenizeFrom(input, cursor).value == ts + [EofTok]
    decreases |ts|
  {
    if |ts| == 0 {
      assert |input[cursor..]| == 0;
      TokenizeEnd(input, cursor);
      assert ts + [EofTok] == [EofTok];
    } else {
      var next := cursor + |RenderToken(ts[0])|;
      RenderedHead(input, cursor, ts);
      TokenizeStep(input, cursor, ts[0], next);
      TokenizeRendered(input, next, ts[1..]);
      ConsEof(ts);
    }
  }

  lemma ConsEof(ts: seq<Token>)
    requires |ts| > 0
    ensures [ts[0]] + (ts[1..] + [EofTok]) == ts + [EofTok]
  {
  }

  lemma RenderedHead(input: string, cursor: nat, ts: seq<Token>)
    requires |ts| > 0 && forall t | t in ts :: Renderable(t)
    requires cursor <= |input| && input[cursor..] == Render(ts)
    ensures cursor + |RenderToken(ts[0])| <= |input|
    ensures ts[0] != EofTok
    ensures Next(input, cursor) == Success(Step(ts[0], cursor + |RenderToken(ts[0])|))
    ensures input[cursor + |RenderToken(ts[0])|..] == Render(ts[1..])
    ensures forall t | t in ts[1..] :: Renderable(t)
  {
    RenderCons(ts);
    SplitSuffix(input, cursor, RenderToken(ts[0]), Render(ts[1..]));
    NextRendered(input, cursor, ts[0]);
  }

  lemma RenderCons(ts: seq<Token>)
    requires |ts| > 0 && forall t | t in ts :: Renderable(t)
    ensures Render(ts) == RenderToken(ts[0]) + Render(ts[1..])
    ensures Renderable(ts[0]) && forall t | t in ts[1..] :: Renderable(t)
  {
    assert ts[0] in ts;
    assert forall t | t in ts[1..] :: t in ts;
  }

  lemma TokenizeRender(ts: seq<Token>)
    requires forall t | t in ts :: Renderable(t)
    ensures TokenizeFrom(Render(ts), 0) == Success(ts + [EofTok])
  {
    TokenizeRendered(Render(ts), 0, ts);
  }
}
