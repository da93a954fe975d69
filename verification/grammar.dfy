/**
  The token grammar of parser.go, written out by hand as an LL(1)
  recursive-descent parser over the lexer's token stream.

  The source declares it as struct tags:

      certs         := ( certFields ( ',' certFields )* )?
      certFields    := ( field ( ';' field )* )?
      subjectFields := ( field ( ',' field )* )?
      field         := @String '=' ( @String )?

  A header holding a group that matches no field is rejected: every group
  of the model holds at least one field.

  A literal such as `'='` is untyped, so it matches any token whose text
  is `=`; a capture `@String` matches only a `String` token. A root
  production must be followed by the end of the token stream.
 */
module Grammar {
  import opened Results
  import opened Lexer

  /** A `key=value` pair; an absent value is the empty string. */
  datatype Field = Field(key: string, value: string)

  /** The token the parser stopped at. */
  datatype GrammarError =
    | ExpectedKey(found: Token)       // a field must start with a String token
    | ExpectedEquals(found: Token)    // a key must be followed by '='
    | UnexpectedToken(found: Token)   // a token follows a complete root production

  /** A parsed value and the tokens still to be read. */
  datatype Parsed<+T> = Parsed(value: T, rest: seq<Token>)

  /** The next token; an exhausted stream reads as EOF. */
  function Peek(ts: seq<Token>): Token {
    if |ts| > 0 then ts[0] else EofTok
  }

  /** Whether token `t` matches the untyped literal `c`. */
  predicate IsLiteral(t: Token, c: char) {
    Text(t) == [c]
  }

  /** `rest` is what remains of `ts` after a non-empty prefix was read. */
  predicate ProperSuffix(rest: seq<Token>, ts: seq<Token>) {
    |rest| < |ts| && rest == ts[|ts| - |rest|..]
  }

  lemma SuffixAfterDelimiter(c: seq<Token>, b: seq<Token>, a: seq<Token>)
    requires |b| > 0 && ProperSuffix(b, a) && ProperSuffix(c, b[1..])
    ensures ProperSuffix(c, a)
  {
  }

  lemma NonEmptyCons(g: seq<Field>, gs: seq<seq<Field>>)
    requires |g| > 0 && forall i | 0 <= i < |gs| :: |gs[i]| > 0
    ensures forall i | 0 <= i < |[g] + gs| :: |([g] + gs)[i]| > 0
  {
  }

  /** `field := @String '=' ( @String )?` */
  function ParseField(ts: seq<Token>): (r: Result<Parsed<Field>, GrammarError>)
    // a key String followed by an '=' is all a field needs
    ensures r.Success? <==> |ts| >= 2 && ts[0].StringTok? && IsLiteral(ts[1], '=')
    ensures !Peek(ts).StringTok? ==> r == Failure(ExpectedKey(Peek(ts)))
    ensures r.Success? ==> r.value.value.key == ts[0].text && ProperSuffix(r.value.rest, ts)
    // the value is the String right after '=', if there is one, and "" otherwise
    ensures r.Success? && |ts| > 2 && ts[2].StringTok? ==>
              r.value.value.value == ts[2].text && r.value.rest == ts[3..]
    ensures r.Success? && !(|ts| > 2 && ts[2].StringTok?) ==>
              r.value.value.value == "" && r.value.rest == ts[2..]
  {
    if !Peek(ts).StringTok? then Failure(ExpectedKey(Peek(ts)))
    else if !IsLiteral(Peek(ts[1..]), '=') then Failure(ExpectedEquals(Peek(ts[1..])))
    else if Peek(ts[2..]).StringTok? then Success(Parsed(Field(ts[0].text, ts[2].text), ts[3..]))
    else Success(Parsed(Field(ts[0].text, ""), ts[2..]))
  }

  /** `field ( d field )*`: one or more fields joined by the delimiter `d`. */
  function ParseFieldList(ts: seq<Token>, d: char): (r: Result<Parsed<seq<Field>>, GrammarError>)
    ensures !Peek(ts).StringTok? ==> r.Failure?
    ensures r.Success? ==> |r.value.value| > 0 && ProperSuffix(r.value.rest, ts)
    // the list stops only where no delimiter follows
    ensures r.Success? ==> !IsLiteral(Peek(r.value.rest), d)
    decreases |ts|
  {
    var f :- ParseField(ts);
    if IsLiteral(Peek(f.rest), d) then
      var more :- ParseFieldList(f.rest[1..], d);
      SuffixAfterDelimiter(more.rest, f.rest, ts);
      Success(Parsed([f.value] + more.value, more.rest))
    else
      Success(Parsed([f.value], f.rest))
  }

  /** `certFields ( ',' certFields )*`, each group a `;`-joined field list. */
  function ParseGroupList(ts: seq<Token>): (r: Result<Parsed<seq<seq<Field>>>, GrammarError>)
    ensures !Peek(ts).StringTok? ==> r.Failure?
    ensures r.Success? ==> |r.value.value| > 0 && ProperSuffix(r.value.rest, ts)
    ensures r.Success? ==> forall i | 0 <= i < |r.value.value| :: |r.value.value[i]| > 0
    ensures r.Success? ==> !IsLiteral(Peek(r.value.rest), ',')
    decreases |ts|
  {
    var g :- ParseFieldList(ts, ';');
    if IsLiteral(Peek(g.rest), ',') then
      var more :- ParseGroupList(g.rest[1..]);
      SuffixAfterDelimiter(more.rest, g.rest, ts);
      NonEmptyCons(g.value, more.value);
      Success(Parsed([g.value] + more.value, more.rest))
    else
      Success(Parsed([g.value], g.rest))
  }

  /** A root production must be followed by EOF. */
  function ExpectEnd<T>(p: Parsed<T>): (r: Result<T, GrammarError>)
    ensures r.Success? <==> Peek(p.rest) == EofTok
    ensures r.Success? ==> r.value == p.value
  {
    if Peek(p.rest) == EofTok then Success(p.value) else Failure(UnexpectedToken(Peek(p.rest)))
  }

  /**
    The `certs` root: either nothing at all, or groups of fields. The
    optional part is entered exactly when the first token can start a field.
   */
  function ParseHeaderTokens(ts: seq<Token>): (r: Result<seq<seq<Field>>, GrammarError>)
    ensures Peek(ts) == EofTok ==> r == Success([])
    ensures Peek(ts).CharTok? ==> r.Failure?
    ensures r.Success? ==> forall i | 0 <= i < |r.value| :: |r.value[i]| > 0
    ensures r.Success? && |r.value| > 0 ==> ts[0].StringTok?
  {
    if Peek(ts).StringTok? then
      var p :- ParseGroupList(ts);
      ExpectEnd(p)
    else
      ExpectEnd(Parsed([], ts))
  }

  /** The `subjectFields` root: fields joined by `,`. */
  function ParseSubjectTokens(ts: seq<Token>): (r: Result<seq<Field>, GrammarError>)
    ensures Peek(ts) == EofTok ==> r == Success([])
    ensures Peek(ts).CharTok? ==> r.Failure?
    ensures r.Success? && |r.value| > 0 ==> ts[0].StringTok?
  {
    if Peek(ts).StringTok? then
      var p :- ParseFieldList(ts, ',');
      ExpectEnd(p)
    else
      ExpectEnd(Parsed([], ts))
  }
}
