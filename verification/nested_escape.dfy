/**
  Two levels of escaping. A subject travels as a quoted header value, so it
  is tokenized twice: inside the header's quotes `\,` is kept as the two
  characters `\,`, and when the subject itself is tokenized that unquoted
  `\,` becomes a plain comma inside one component value.
 */
module NestedEscape {
  import opened Results
  import opened Lexer
  import opened LexerProperties
  import opened Grammar
  import opened GrammarProperties
  import opened Xfcc

  /** A subject whose organization is `a`, an escaped comma, then `b`. */
  function EscapedSubject(a: string, b: string): string {
    "O=" + a + "\\," + b
  }

  /** That subject as the quoted value of a header's `Subject` field. */
  function EscapedHeader(a: string, b: string): string {
    "Subject=\"" + EscapedSubject(a, b) + "\""
  }

  /** A word the scanner buffers inside quotes. */
  predicate QuotedWord(w: string) {
    forall j | 0 <= j < |w| :: Ordinary(w[j], true)
  }

  lemma QuotedRun(input: string, i: nat, w: string)
    requires QuotedWord(w) && i + |w| <= |input| && input[i..i + |w|] == w
    ensures OrdinaryRun(input, i, i + |w|, true)
  {
    forall j | i <= j < i + |w| ensures Ordinary(input[j], true) {
      assert input[j] == input[i..i + |w|][j - i];
    }
  }

  lemma LiteralWords()
    ensures PlainWord("O") && PlainWord("Subject")
    ensures EscapeTable(false)[','] == "," && EscapeTable(true)[','] == "\\,"
  {
  }

  // ---- the subject, tokenized on its own ----

  /** Where the parts of `EscapedSubject(a, b)` lie. */
  lemma SubjectLayout(a: string, b: string)
    ensures var v, k := EscapedSubject(a, b), 2 + |a|;
      && |v| == k + 2 + |b|
      && v[0..1] == "O" && v[1] == '='
      && v[2..k] == a && v[k] == '\\' && v[k + 1] == ','
      && v[k + 2..k + 2 + |b|] == b
  {
    var v, k := EscapedSubject(a, b), 2 + |a|;
    assert v == ("O=" + a + "\\,") + b;
    assert v == ("O=" + a) + ("\\," + b);
    assert v[2..k] == ("O=" + a)[2..];
  }

  /** Outside quotes the escaped comma joins the two words into one value. */
  lemma ScanEscapedComma(a: string, b: string)
    requires PlainWord(a) && PlainWord(b)
    ensures Next(EscapedSubject(a, b), 2) == Success(Step(StringTok(a + "," + b), |EscapedSubject(a, b)|))
  {
    var v, k := EscapedSubject(a, b), 2 + |a|;
    SubjectLayout(a, b);
    LiteralWords();
    WordRun(v, 2, a);
    WordRun(v, k + 2, b);
    calc {
      Next(v, 2);
      Scan(v, 2, [], false, false);
      { ScanRun(v, 2, k, [], false); assert [] + v[2..k] == a; }
      Scan(v, k, a, false, false);
      { EscapeStep(v, k, a, false); }
      Scan(v, k + 2, a + ",", false, false);
      { ScanRun(v, k + 2, |v|, a + ",", false); assert v[k + 2..|v|] == b; }
      Scan(v, |v|, a + "," + b, false, false);
      Success(Step(StringTok(a + "," + b), |v|));
    }
  }

  /** The subject reads as one `O` component whose value holds a plain comma. */
  lemma SubjectTokens(a: string, b: string)
    requires PlainWord(a) && PlainWord(b)
    ensures TokenizeFrom(EscapedSubject(a, b), 0) ==
              Success([StringTok("O"), CharTok('='), StringTok(a + "," + b), EofTok])
  {
    var v := EscapedSubject(a, b);
    SubjectLayout(a, b);
    LiteralWords();
    ScanEscapedComma(a, b);
    NextPlainWord(v, 0, "O");
    SeparatorAlone(v, 1);
    TokenizeEnd(v, |v|);
    TokenizeStep(v, 2, StringTok(a + "," + b), |v|);
    TokenizeStep(v, 1, CharTok('='), 2);
    TokenizeStep(v, 0, StringTok("O"), 1);
    assert [StringTok("O")] + ([CharTok('=')] + ([StringTok(a + "," + b)] + [EofTok]))
        == [StringTok("O"), CharTok('='), StringTok(a + "," + b), EofTok];
  }

  /** The component value keeps the comma and loses the backslash. */
  lemma ParseEscapedSubject(a: string, b: string)
    requires PlainWord(a) && PlainWord(b)
    ensures ParseSubject(EscapedSubject(a, b)) == Success(Some(EmptyName.(organization := [a + "," + b])))
  {
    var f := Field("O", a + "," + b);
    SubjectTokens(a, b);
    assert PrintFields([f], ',') + [EofTok] == [StringTok("O"), CharTok('='), StringTok(a + "," + b), EofTok];
    ParsePrintedSubject([f]);
    OneComponent(f);
    assert EscapedSubject(a, b) != "";
  }

  lemma OneComponent(f: Field)
    requires f.key == "O"
    ensures FoldName([f], EmptyName) == Success(EmptyName.(organization := [f.value]))
  {
    assert [f][1..] == [];
    assert ApplyNameField(EmptyName, f) == Success(EmptyName.(organization := [] + [f.value]));
    assert [] + [f.value] == [f.value];
  }

  // ---- the header carrying the subject ----

  /** Where the parts of `EscapedHeader(a, b)` lie. */
  lemma HeaderLayout(a: string, b: string)
    ensures var h, v := EscapedHeader(a, b), EscapedSubject(a, b);
      && |h| == |v| + 10
      && h[0..7] == "Subject" && h[7] == '=' && h[8] == '"'
      && h[9..11 + |a|] == "O=" + a && h[11 + |a|] == '\\' && h[12 + |a|] == ','
      && h[13 + |a|..13 + |a| + |b|] == b && h[9 + |v|] == '"'
  {
    var h, v := EscapedHeader(a, b), EscapedSubject(a, b);
    assert h == ("Subject=\"" + "O=" + a) + ("\\," + b + "\"");
    assert h == ("Subject=\"" + "O=" + a + "\\,") + (b + "\"");
    assert h[9..11 + |a|] == ("Subject=\"" + "O=" + a)[9..];
  }

  /** The opening quote, then the quoted run up to the backslash. */
  lemma ScanQuotedPrefix(a: string, b: string)
    requires PlainWord(a)
    ensures 11 + |a| <= |EscapedHeader(a, b)|
    ensures Next(EscapedHeader(a, b), 8) == Scan(EscapedHeader(a, b), 11 + |a|, "O=" + a, true, false)
  {
    var h, m := EscapedHeader(a, b), 11 + |a|;
    HeaderLayout(a, b);
    assert QuotedWord("O=" + a);
    QuotedRun(h, 9, "O=" + a);
    calc {
      Next(h, 8);
      Scan(h, 8, [], false, false);
      { OpenQuoteStep(h, 8); }
      Scan(h, 9, [], true, false);
      { ScanRun(h, 9, m, [], true); assert [] + h[9..m] == "O=" + a; }
      Scan(h, m, "O=" + a, true, false);
    }
  }

  /** The escaped comma is kept as `\,`, then the rest of the run and the closing quote. */
  lemma ScanQuotedRest(a: string, b: string)
    requires PlainWord(b)
    ensures 11 + |a| <= |EscapedHeader(a, b)|
    ensures Scan(EscapedHeader(a, b), 11 + |a|, "O=" + a, true, false) ==
              Success(Step(StringTok(EscapedSubject(a, b)), |EscapedHeader(a, b)|))
  {
    var h, v, m := EscapedHeader(a, b), EscapedSubject(a, b), 11 + |a|;
    HeaderLayout(a, b);
    LiteralWords();
    assert QuotedWord(b);
    QuotedRun(h, m + 2, b);
    calc {
      Scan(h, m, "O=" + a, true, false);
      { EscapeStep(h, m, "O=" + a, true); }
      Scan(h, m + 2, "O=" + a + "\\,", true, false);
      { ScanRun(h, m + 2, m + 2 + |b|, "O=" + a + "\\,", true); }
      Scan(h, m + 2 + |b|, v, true, false);
      { CloseQuoteStep(h, m + 2 + |b|, v); }
      Success(Step(StringTok(v), |h|));
    }
  }

  /** Inside the quotes the escaped comma is kept as `\,`: the value is the subject text. */
  lemma ScanQuotedSubject(a: string, b: string)
    requires PlainWord(a) && PlainWord(b)
    ensures Next(EscapedHeader(a, b), 8) == Success(Step(StringTok(EscapedSubject(a, b)), |EscapedHeader(a, b)|))
  {
    ScanQuotedPrefix(a, b);
    ScanQuotedRest(a, b);
  }

  lemma HeaderTokens(a: string, b: string)
    requires PlainWord(a) && PlainWord(b)
    ensures TokenizeFrom(EscapedHeader(a, b), 0) ==
              Success([StringTok("Subject"), CharTok('='), StringTok(EscapedSubject(a, b)), EofTok])
  {
    var h, v := EscapedHeader(a, b), EscapedSubject(a, b);
    HeaderLayout(a, b);
    LiteralWords();
    ScanQuotedSubject(a, b);
    NextPlainWord(h, 0, "Subject");
    SeparatorAlone(h, 7);
    TokenizeEnd(h, |h|);
    TokenizeStep(h, 8, StringTok(v), |h|);
    TokenizeStep(h, 7, CharTok('='), 8);
    TokenizeStep(h, 0, StringTok("Subject"), 7);
    assert [StringTok("Subject")] + ([CharTok('=')] + ([StringTok(v)] + [EofTok]))
        == [StringTok("Subject"), CharTok('='), StringTok(v), EofTok];
  }

  /** The raw header keeps the backslash: its one field is the subject text itself. */
  lemma RawEscapedHeader(a: string, b: string)
    requires PlainWord(a) && PlainWord(b)
    ensures ParseRawXFCCHeader(EscapedHeader(a, b)) == Success([[Field("Subject", EscapedSubject(a, b))]])
  {
    var g := [Field("Subject", EscapedSubject(a, b))];
    HeaderTokens(a, b);
    assert PrintGroups([g]) + [EofTok] ==
             [StringTok("Subject"), CharTok('='), StringTok(EscapedSubject(a, b)), EofTok];
    ParsePrintedHeader([g]);
  }

  /**
    The whole header: one cert whose subject has the single organization
    `a,b` — the comma escaped for the subject survives both tokenizations.
   */
  lemma TwoLevelEscape(a: string, b: string)
    requires PlainWord(a) && PlainWord(b)
    ensures ParseXFCCHeader(EscapedHeader(a, b)) ==
              Success([EmptyCert.(subject := Some(EmptyName.(organization := [a + "," + b])))])
  {
    RawEscapedHeader(a, b);
    ParseEscapedSubject(a, b);
    SubjectOnly(EscapedSubject(a, b), Some(EmptyName.(organization := [a + "," + b])));
  }

  /** A group holding one subject field is a cert with only that subject. */
  lemma SubjectOnly(v: string, s: Option<Name>)
    requires ParseSubject(v) == Success(s)
    ensures MapGroups([[Field("Subject", v)]], 0) == Success([EmptyCert.(subject := s)])
  {
    var g := [Field("Subject", v)];
    assert g[1..] == [];
    assert ApplyCertField(EmptyCert, g[0], 0) == Success(EmptyCert.(subject := s));
    assert FoldCert(g, EmptyCert, 0) == Success(EmptyCert.(subject := s));
    var gs: seq<seq<Field>> := [g];
    assert |gs[1..]| == 0;
    assert [EmptyCert.(subject := s)] + [] == [EmptyCert.(subject := s)];
  }
}
