/**
  The header tokenizer (`xfccLexer` in lexer.go).

  The Go lexer pulls runes from a reader and keeps an accumulation buffer; a
  call to `Next` returns one token. Here the input is a whole string and a
  call is a pure function of `(input, cursor)`: the returned `Step` carries
  the token and the cursor the next call starts from. The reader's
  `UnreadRune` push-back becomes "return without advancing the cursor".
 */
module Lexer {
  import opened Results

  /** The separator set the lexer is built with (`Lex`). */
  const Separators: string := "=;,"

  predicate IsSeparator(c: char) {
    c in Separators
  }

  /** The three token kinds of `Symbols`: `String`, `Char` and `EOF`. */
  datatype Token =
    | StringTok(text: string)
    | CharTok(sep: char)
    | EofTok

  /** The token's `Value`: what participle compares literals against. */
  function Text(t: Token): string {
    match t
    case StringTok(s) => s
    case CharTok(c) => [c]
    case EofTok => []
  }

  datatype LexError =
    | InvalidEscape(c: char)   // a backslash followed by a character the escape table rejects
    | MissingEndQuote          // end of input inside a quoted run
    | MissingEscape            // end of input right after a backslash

  /** One token and the cursor just past the input it consumed. */
  datatype Step = Step(token: Token, cursor: nat)

  /** What one character does to the state of a call to `Next`. */
  datatype Action =
    | Continue(buf: string, quoting: bool, escaping: bool)   // keep reading
    | Emit(token: Token, consumed: bool)                     // return a token; when not consumed, the character is pushed back
    | Fail(error: LexError)

  /**
    One round of the read loop of `Next`: the character `c` met with buffer
    `buf` and the flags `quoting` and `escaping`.
   */
  function Feed(c: char, buf: string, quoting: bool, escaping: bool): (a: Action)
    // a token is returned only outside an escape, and inside quotes only by the closing quote
    ensures a.Emit? ==> !escaping && (quoting ==> c == '"')
    // a pushed-back character is a separator ending a non-empty unquoted run
    ensures a.Emit? && !a.consumed ==> a.token == StringTok(buf) && buf != [] && IsSeparator(c)
    // a Char token is a separator met with an empty buffer
    ensures a.Emit? && a.token.CharTok? ==> buf == [] && a.consumed && IsSeparator(c) && a.token.sep == c
    // an empty String token comes from a closing quote
    ensures a.Emit? && a.token == StringTok([]) ==> c == '"' && a.consumed
    ensures a.Emit? ==> a.token != EofTok
    // after a character the state is no longer fresh: something is buffered or a flag is set
    ensures a.Continue? ==> a.buf != [] || a.quoting || a.escaping
  {
    if escaping then
      if c == '\\' then Continue(buf + (if quoting then ['\\', '\\'] else ['\\']), quoting, false)
      else if quoting && c == '"' then Continue(buf + [c], quoting, false)
      else if quoting && c == ',' then Continue(buf + ['\\', c], quoting, false)
      else if !quoting && IsSeparator(c) then Continue(buf + [c], quoting, false)
      else Fail(InvalidEscape(c))
    else if c == '\\' then
      Continue(buf, quoting, true)
    else if c == '"' then
      if quoting then Emit(StringTok(buf), true)
      else Continue(buf, true, false)
    else if !quoting && IsSeparator(c) then
      if |buf| > 0 then Emit(StringTok(buf), false)
      else Emit(CharTok(c), true)
    else
      Continue(buf + [c], quoting, false)
  }

  /** What `Next` does when the reader reports the end of the input. */
  function Finish(buf: string, quoting: bool, escaping: bool): (r: Result<Token, LexError>)
    ensures r.Success? <==> !quoting && !escaping
    ensures r.Success? ==> (r.value == EofTok <==> buf == [])
    ensures r.Success? && r.value != EofTok ==> r.value == StringTok(buf)
  {
    if quoting then Failure(MissingEndQuote)
    else if escaping then Failure(MissingEscape)
    else if |buf| > 0 then Success(StringTok(buf))
    else Success(EofTok)
  }

  /**
    The rest of a call to `Next` from position `i`, with the call's local
    state: the buffer and the two flags.
   */
  function Scan(input: string, i: nat, buf: string, quoting: bool, escaping: bool): (r: Result<Step, LexError>)
    requires i <= |input|
    ensures r.Success? ==> i <= r.value.cursor <= |input|
    // a token that consumes nothing is the pushed-back flush of a non-empty buffer, or EOF
    ensures r.Success? && r.value.cursor == i && r.value.token != EofTok ==>
              r.value.token == StringTok(buf) && buf != []
    // EOF only comes from a fresh state at the end of the input
    ensures r.Success? && r.value.token == EofTok ==>
              i == |input| && buf == [] && !quoting && !escaping
    // a Char token is a separator met first, in a fresh state
    ensures r.Success? && r.value.token.CharTok? ==>
              && buf == [] && !quoting && !escaping
              && r.value.cursor == i + 1
              && IsSeparator(input[i]) && r.value.token.sep == input[i]
    // an empty String token is produced only by a closing quote
    ensures r.Success? && r.value.token == StringTok([]) ==>
              0 < r.value.cursor && input[r.value.cursor - 1] == '"'
    decreases |input| - i
  {
    if i == |input| then
      match Finish(buf, quoting, escaping)
      case Failure(e) => Failure(e)
      case Success(t) => Success(Step(t, i))
    else
      match Feed(input[i], buf, quoting, escaping)
      case Continue(buf', quoting', escaping') => Scan(input, i + 1, buf', quoting', escaping')
      case Emit(t, consumed) => Success(Step(t, if consumed then i + 1 else i))
      case Fail(e) => Failure(e)
  }

  /** `xfccLexer.Next`: both flags and the buffer start out clear on every call. */
  function Next(input: string, cursor: nat): (r: Result<Step, LexError>)
    requires cursor <= |input|
    ensures cursor == |input| ==> r == Success(Step(EofTok, cursor))
    ensures r.Success? ==> cursor <= r.value.cursor <= |input|
    ensures r.Success? ==> (r.value.token == EofTok <==> cursor == |input|)
    ensures r.Success? && r.value.token != EofTok ==> cursor < r.value.cursor
    ensures r.Success? && r.value.token.CharTok? ==>
              r.value.cursor == cursor + 1 && r.value.token.sep == input[cursor] && IsSeparator(input[cursor])
    ensures r.Success? && r.value.token == StringTok([]) ==> input[r.value.cursor - 1] == '"'
  {
    Scan(input, cursor, [], false, false)
  }

  /**
    The token stream participle pulls from the lexer: `Next` called until it
    returns EOF, the first error aborting the whole run.
   */
  function TokenizeFrom(input: string, cursor: nat): (r: Result<seq<Token>, LexError>)
    requires cursor <= |input|
    ensures r.Success? ==> 0 < |r.value| <= |input| - cursor + 1
    ensures r.Success? ==> r.value[|r.value| - 1] == EofTok
    ensures r.Success? ==> forall j | 0 <= j < |r.value| - 1 :: r.value[j] != EofTok
    ensures r.Success? && (forall j | cursor <= j < |input| :: input[j] != '"') ==>
              StringTok([]) !in r.value
    decreases |input| - cursor
  {
    match Next(input, cursor)
    case Failure(e) => Failure(e)
    case Success(Step(t, next)) =>
      if t == EofTok then Success([EofTok])
      else
        match TokenizeFrom(input, next)
        case Failure(e) => Failure(e)
        case Success(rest) => Success([t] + rest)
  }

  /** Prefixes the tokens already read to the outcome of reading the rest. */
  function Prepend(acc: seq<Token>, rest: Result<seq<Token>, LexError>): Result<seq<Token>, LexError> {
    match rest
    case Failure(e) => Failure(e)
    case Success(ts) => Success(acc + ts)
  }

  /** The pull loop itself, with the cursor as the only state carried between calls. */
  method Tokenize(input: string) returns (r: Result<seq<Token>, LexError>)
    ensures r == TokenizeFrom(input, 0)
    ensures r.Success? ==> r.value[|r.value| - 1] == EofTok && |r.value| <= |input| + 1
  {
    var cursor := 0;
    var acc: seq<Token> := [];
    assert TokenizeFrom(input, 0).Success? ==>
             [] + TokenizeFrom(input, 0).value == TokenizeFrom(input, 0).value;
    while true
      invariant cursor <= |input|
      invariant TokenizeFrom(input, 0) == Prepend(acc, TokenizeFrom(input, cursor))
      decreases |input| - cursor
    {
      var step := Next(input, cursor);
      if step.Failure? {
        return Failure(step.error);
      }
      var t := step.value.token;
      if t == EofTok {
        return Success(acc + [EofTok]);
      }
      ghost var rest := TokenizeFrom(input, step.value.cursor);
      if rest.Success? {
        assert acc + ([t] + rest.value) == (acc + [t]) + rest.value;
      }
      acc := acc + [t];
      cursor := step.value.cursor;
    }
  }
}
