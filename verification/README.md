# xfccparser in Dafny

A model of the Go package `xfccparser`. It parses Envoy's
`x-forwarded-client-cert` (XFCC) header into a list of client certificates.
The header is a `,`-separated list of groups. Each group is a `;`-separated
list of `Key=Value` fields. A value may be quoted, and inside it a backslash
escapes the separators and the quote. One field, `Subject`, holds a
distinguished name of its own: a `,`-separated list of `Key=Value` components.

The pipeline has three stages, and each stage is one module with a
properties module beside it.

- **Tokenizer** (`Lexer`, `LexerProperties`), from `xfccLexer.Next` in
  lexer.go. A call reads characters from a cursor with two flags, `quoting`
  and `escaping`, and returns one `String`, `Char` or `EOF` token. The reader
  is replaced by `(input, cursor)`: a call returns the token and the cursor
  where the next call starts. The reader's `UnreadRune` becomes "return
  without advancing". `TokenizeFrom` is the token stream participle pulls
  from the lexer; the method `Tokenize` is the same pull loop written as a
  loop.
- **Grammar** (`Grammar`, `GrammarProperties`), from the participle struct
  tags in parser.go:126-145, written out as a recursive-descent parser.
  `GrammarProperties` defines a printer for field groups and proves the
  parser reads its output back.
- **Mapper** (`Xfcc`, `XfccProperties`), from `ParseXFCCHeader`,
  `ParseSubject` and `parseRawXFCCHeader`. Each record is a left fold over
  its fields. `XfccProperties` states each fold's result directly: `Collected`
  and `CollectedCert` say the lists keep every value in order and the scalars
  keep the last value.

Three further modules state the whole pipeline's result on families of inputs:

- `Serialize` writes as a fully quoted header any cert list whose values
  contain no backslash and whose subject components contain no quote either.
  It proves that `ParseXFCCHeader` returns the list.
- `PlainText` covers headers and subjects written without quotes.
- `NestedEscape` covers the escaped comma inside a quoted subject.

`Examples` holds concrete inputs, most of them from the package's test table.

`Results` holds the `Option` and `Result` types the model uses for the
error paths.

## Model

| member | source | states |
|---|---|---|
| Lexer.Feed | lexer.go:76-115 | One character of the read loop. A token is returned only outside an escape, and inside quotes only by the closing quote. A character is pushed back only when it is a separator that ends a non-empty unquoted run. A `Char` token is a separator met with an empty buffer. An empty `String` comes only from a closing quote. |
| Lexer.Finish | lexer.go:118-129 | End of input succeeds exactly when neither flag is set. It returns `EOF` exactly when the buffer is empty; otherwise it flushes the buffer as a `String`. |
| Lexer.Scan | lexer.go:67-129 | The rest of one call, from the state of one point in it. The cursor never moves back. A token that consumes nothing is the flush of a non-empty buffer or `EOF`. `EOF` comes only from a clear state at the end of the input. A `Char` token is the separator read first from a clear state. |
| Lexer.Next | lexer.go:50-130 | One call with fresh flags and an empty buffer. It returns `EOF` exactly at the end of the input. Every other token advances the cursor. A `Char` token is the one separator at the cursor. |
| Lexer.TokenizeFrom | lexer.go:50-130 | The stream of calls up to `EOF`. It ends in exactly one `EOF` and holds at most one token per input character plus `EOF`. Input with no quote yields no empty `String`. |
| Lexer.Tokenize | lexer.go:50-130 | The pull loop gives the same stream as `TokenizeFrom`, carrying only the cursor between calls. |
| LexerProperties.ScanRun | lexer.go:113-115 | A run of ordinary characters is appended to the buffer unchanged. |
| LexerProperties.SeparatorAlone | lexer.go:104-112 | A separator met with an empty buffer is returned alone as a `Char` token. |
| LexerProperties.RunThenSeparator | lexer.go:104-110 | An unquoted run ended by a separator is returned as a `String` without the separator. The next call returns the separator as a `Char`. |
| LexerProperties.RunToEnd | lexer.go:125-129 | An unquoted run that reaches the end is flushed as a `String`, and the call after it returns `EOF`. |
| LexerProperties.QuotedString | lexer.go:97-103 | Opening a quote does not flush the run before it. The closing quote returns the run and the quoted text as one `String`. |
| LexerProperties.EscapeFollowsTable | lexer.go:76-94 | The character after a backslash is looked up in a table that depends on `quoting`. Inside quotes, `\\` stays two backslashes, `\"` is a quote and `\,` stays `\,`. Outside quotes, `\\` is one backslash and `\=`, `\;`, `\,` are the bare separators. Any other character fails with `InvalidEscape`. |
| LexerProperties.EscapeStep | lexer.go:76-96 | A backslash and a character from the table take two positions and append that table entry to the buffer. |
| LexerProperties.UnterminatedQuote | lexer.go:118-120 | An opening quote, after an unquoted ordinary run, with no later quote character anywhere in the input makes the call and the whole stream fail. |
| LexerProperties.LoneQuoteFails | lexer.go:97-120 | One quote and no backslash in the rest of the input: the stream fails. |
| LexerProperties.DanglingEscape | lexer.go:121-123 | Outside quotes, a backslash that ends the input after an ordinary run fails with `MissingEscape`. Inside quotes the source reports `MissingEndQuote` first, and this lemma does not cover that case. |
| LexerProperties.TokenizeConcat | lexer.go:104-129 | Without quotes or backslashes the stream always succeeds, and its token texts concatenate back to the input. |
| LexerProperties.TokenizePlain | lexer.go:104-129 | Words of ordinary characters and separators, with no two words adjacent, tokenize back to exactly themselves followed by `EOF`. |
| LexerProperties.TokenizeRender | lexer.go:76-103 | Tokens whose `String`s hold no backslash and whose `Char`s are separators, printed with every `String` quoted and its quotes escaped, tokenize back to themselves followed by `EOF`. |
| Grammar.ParseField | parser.go:134-137 | A field succeeds exactly when a `String` is followed by a token whose text is `=`. The key is that `String`. The value is the next `String` when there is one, and `""` otherwise. Any other first token fails with `ExpectedKey`. |
| Grammar.ParseFieldList | parser.go:130-132 | One or more fields joined by the delimiter. The list stops only where no delimiter follows, and it consumes input. |
| Grammar.ParseGroupList | parser.go:126-128 | One or more groups joined by `,`, each a non-empty `;`-joined field list. The list stops only where no `,` follows. |
| Grammar.ExpectEnd | parser.go:139 | A root production succeeds exactly when `EOF` follows it. |
| Grammar.ParseHeaderTokens | parser.go:126-128 | A stream that is only `EOF` is no groups at all. A stream starting with a separator fails. Every group produced holds a field. The last two follow from the model's choice that a group is never empty; see `Grammar.ParseGroupList` under Left out. |
| Grammar.ParseSubjectTokens | parser.go:141-143 | A stream that is only `EOF` is no fields. A stream starting with a separator fails. Fields produced start with a `String`. |
| GrammarProperties.ParsePrintedFields | parser.go:130-137 | A printed non-empty field list, followed by a token that stops it, parses back to exactly those fields. |
| GrammarProperties.ParsePrintedGroups | parser.go:126-137 | Printed non-empty groups, followed by a token that stops them, parse back to exactly those groups. |
| GrammarProperties.ParsePrintedHeader | parser.go:126-139 | Every list of non-empty groups, printed and ended by `EOF`, parses back to itself. |
| GrammarProperties.ParsePrintedSubject | parser.go:141-145 | Every field list, printed with `,` and ended by `EOF`, parses back to itself as a subject. |
| Xfcc.Lex | parser.go:117-120 | The tokenizer run over the whole string. It fails only with a `LexFailure`. |
| Xfcc.LiftGrammar | parser.go:117-120 | A grammar outcome is kept, and a grammar error is wrapped as `GrammarFailure`. |
| Xfcc.ApplyNameField | parser.go:85-106 | A subject component is applied exactly when its key is one of the nine known keys. Any other key fails with `UnknownSubjectComponent` for that key. |
| Xfcc.FoldName | parser.go:84-107 | The subject loop fails only on a component outside the known keys. |
| Xfcc.ParseSubject | parser.go:73-110 | The empty subject is absent, not an error. A non-empty subject that parses is present. Failures are lexical, grammatical or an unknown component. |
| Xfcc.ApplyCertField | parser.go:43-64 | A header field is applied exactly when its key is one of the seven known keys, and for `Subject` its value parses. An unknown key fails with `UnknownCertField` for that key and cert. A bad subject fails with `InvalidSubject`, carrying the cert index and the subject's own error. |
| Xfcc.FoldCert | parser.go:42-65 | The field loop of cert `index` fails only with an unknown key or an invalid subject, both naming `index`. |
| Xfcc.MapGroups | parser.go:38-67 | One cert per group. |
| Xfcc.ParseRawXFCCHeader | parser.go:113-123 | The empty header is no groups. Every group produced holds a field. Failures are lexical or grammatical only. |
| Xfcc.ParseXFCCHeader | parser.go:28-70 | The empty header is no certs. On success the header's raw groups parse, and there is one cert per raw group. |
| XfccProperties.FoldNameSpec | parser.go:84-107 | The subject loop succeeds exactly when every key is known. Its result is `Collected`: every list component collects its values in field order, and `CN` and `SERIALNUMBER` keep their last value. |
| XfccProperties.FoldCertSpec | parser.go:42-65 | The field loop succeeds exactly when every field is accepted. Its result is `CollectedCert`: `URI` and `DNS` collect their values in order, the scalars keep their last value, and the subject is the parse of the last `Subject` value. |
| XfccProperties.SubjectResets | parser.go:52-57 | When the last `Subject` value is empty, the cert has no subject, even after an earlier `Subject` set one. |
| XfccProperties.LastMember | parser.go:42-65 | The value a scalar keeps belongs to a field of the group with that key. |
| XfccProperties.MapGroupsSpec | parser.go:38-67 | The outer loop succeeds exactly when every group folds. Cert `i` is the fold of group `i`, numbered from the start index. |
| XfccProperties.MapGroupsOf | parser.go:38-67 | When every group folds to the matching cert, the outer loop returns exactly those certs. |
| XfccProperties.EmptyHeaderShortcut | parser.go:113-116 | The empty string tokenizes to `EOF` alone, which the model's grammars read as no groups and no fields. So the early return for `""` agrees with the general path of this model. That agreement rests on the model's choice that a group is never empty. If a group could be empty, `""` could read as one empty group, which the early return at parser.go:114-116 avoids. |
| XfccProperties.NonEmptyHeaderHasCert | parser.go:29-38 | A non-empty header that parses yields at least one cert. |
| XfccProperties.HeaderCerts | parser.go:28-70 | The header parses exactly when its raw groups parse and every field of every group is accepted. Cert `i` is then `CollectedCert` of raw group `i`. |
| Serialize.FoldNameFields | parser.go:84-107 | Every name is the result of the subject loop on its own field list. |
| Serialize.ParseSubjectText | parser.go:73-110 | Every name whose components hold no backslash or quote is read back from its quoted subject text. |
| Serialize.FoldCertFields | parser.go:42-65 | Every cert with a representable subject is the result of the field loop on its own field list. |
| Serialize.ParseHeaderText | parser.go:28-70 | Every list of representable certs is read back from its quoted header text: `ParseXFCCHeader` inverts the serializer. |
| PlainText.PlainSubject | parser.go:73-110 | An unquoted subject parses exactly when every component key is known. Its name is `Collected` of the components. |
| PlainText.PlainRawHeader | parser.go:113-123 | An unquoted header reads back as exactly its groups. |
| PlainText.PlainHeader | parser.go:28-70 | An unquoted header parses exactly when every field is accepted. It yields one cert per group, cert `i` being `CollectedCert` of group `i`. |
| NestedEscape.ScanEscapedComma | lexer.go:89-90 | Outside quotes `\,` is a plain comma inside a run: `O=a\,b` reads `a,b` as one `String`. |
| NestedEscape.ParseEscapedSubject | parser.go:73-110 | The subject `O=a\,b` is one organization `a,b`. |
| NestedEscape.RawEscapedHeader | lexer.go:86-88 | Inside quotes `\,` is kept as `\,`, so the raw `Subject` value is the subject text itself. |
| NestedEscape.TwoLevelEscape | parser_test.go:22-31 | The header `Subject="O=a\,b"` yields one cert whose subject has the single organization `a,b`. |
| Examples.QuoteJoinsRun | lexer.go:97-103 | `ab"cd"` is the single `String` `abcd`. |
| Examples.KeyWithoutEquals | parser_test.go:43 | `Hash` fails in the grammar because no `=` follows the key. |
| Examples.SecondKeyWithoutEquals | parser_test.go:44 | `Hash=;Hash` fails in the grammar: the first field's empty value is accepted, and the second key has no `=`. |
| Examples.ComponentWithoutEquals | parser_test.go:86 | The subject `C` fails in the grammar because no `=` follows the key. |
| Examples.EmptyCountry | parser.go:86-87 | The subject `C=` is a name whose country list holds one empty string. |
| Examples.TrailingComma | parser.go:126-132 | `a=b,` ends in an empty group; the model rejects it with `ExpectedKey(EOF)` (a modelling choice, see Left out). |
| Examples.LeadingComma | parser.go:126-128 | `,` cannot start a group, so the root rejects it with `UnexpectedToken(',')` (a modelling choice, see Left out). |

## Left out

- Token positions (`Pos`, `x.start`, `x.pos`) are not modelled. They only label tokens and error messages.
- Error messages are modelled as error constructors, not formatted text. Wrapping, such as "invalid subject in client cert %d", keeps the cert index and the cause.
- Reader I/O errors (lexer.go:71-73, 106-108) are not modelled: the input is an in-memory string, so neither `ReadRune` nor `UnreadRune` can fail.
- Participle is not part of this model. Its behaviour is modelled as follows:
  - literals such as `'='` match any token with that text;
  - `@String` matches only `String` tokens;
  - a root production must be followed by `EOF`;
  - an absent `(@String)?` leaves the value `""`.
- Grammar.ParseGroupList: a group must hold at least one field, as the header format requires. The `( … )?` around a group's fields at parser.go:131 would allow an empty group. The model does not drop an empty group; it rejects the whole header:
  - `a=b,` and `Hash=a,` end in an empty group and fail with `ExpectedKey(EOF)` (`Examples.TrailingComma`);
  - `a=b,,c=d` fails with `ExpectedKey` at the second `,`;
  - `,` and `,Hash=a` start with a separator, so the groups are never entered, and the root fails with `UnexpectedToken(',')` (`Examples.LeadingComma`).
- Xfcc.Name models only the nine `pkix.Name` fields that `ParseSubject` sets. The other fields of `pkix.Name` are always zero here.
- The header-name constant `ForwardedClientCertHeader` (parser.go:12) is data with no behaviour and is not modelled.
- Go's nil and empty slices are not distinguished: both are the empty sequence. Likewise a nil `*pkix.Name` is `None`, and a nil `[]*ClientCert` is `[]`.
- Serialize.ParseHeaderText: values containing a backslash are outside the round trip. The serializer escapes only quotes, and a backslash cannot be written inside a quoted value, so a value may not contain one. A quote inside a subject component cannot be written either, since its escape would be a backslash in the outer header value.
- NestedEscape.TwoLevelEscape: proves the escaped comma for a header whose only field is a subject with a single `O` component, `Subject="O=a\,b"`, for any unquoted words `a` and `b`. It does not cover the whole multi-field header of parser_test.go:22. `PlainText` and `Serialize` cover the other fields of such a header in general, and `FoldNameSpec` covers the other subject components.
- The tokenizer runs on `char`s. Go reads runes, and the model does not encode or decode UTF-8.
- Test-table entries that disagree with the code are stated as the code behaves, not as the tests expect:
  - parser_test.go:32 sets a `SubjectRaw` field, which `ClientCert` (parser.go:16-24) does not have.
  - parser_test.go:87 expects `C=` to fail, but the code accepts it as an empty country. `Examples.EmptyCountry` proves this.
  - parser_test.go:89-90 expect `CN="random"` and `CN="random=hello"` to fail. The quoted value is a single `String` token, so both are accepted.
