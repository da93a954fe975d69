/**
  Concrete inputs, most of them from the library's own test table, each
  derived from the general lemmas about the tokenizer and the grammar.
 */
module Examples {
  import opened Results
  import opened Lexer
  import opened LexerProperties
  import opened Grammar
  import opened Xfcc

  /** An opening quote does not flush the run before it: `ab"cd"` is one `String`. */
  lemma QuoteJoinsRun()
    ensures TokenizeFrom("ab\"cd\"", 0) == Success([StringTok("abcd"), EofTok])
  {
    var s := "ab\"cd\"";
    QuotedString(s, 0, 2, 5);
    assert s[0..2] + s[3..5] == "abcd";
    TokenizeStep(s, 0, StringTok("abcd"), 6);
    TokenizeEnd(s, 6);
    assert [StringTok("abcd")] + [EofTok] == [StringTok("abcd"), EofTok];
  }

  /** A key with no `=` is rejected by the grammar. */
  lemma KeyWithoutEquals()
    ensures ParseXFCCHeader("Hash") == Failure(GrammarFailure(ExpectedEquals(EofTok)))
  {
    var s := "Hash";
    RunToEnd(s, 0);
    assert s[0..] == "Hash";
    TokenizeStep(s, 0, StringTok("Hash"), 4);
    TokenizeEnd(s, 4);
    assert [StringTok("Hash")] + [EofTok] == [StringTok("Hash"), EofTok];
  }

  lemma SecondKeyTokens()
    ensures TokenizeFrom("Hash=;Hash", 0) ==
              Success([StringTok("Hash")] + ([CharTok('=')] + ([CharTok(';')] + ([StringTok("Hash")] + [EofTok]))))
  {
    var s := "Hash=;Hash";
    RunThenSeparator(s, 0, 4);
    SeparatorAlone(s, 5);
    RunToEnd(s, 6);
    assert s[0..4] == "Hash" && s[6..] == "Hash";
    TokenizeEnd(s, 10);
    TokenizeStep(s, 6, StringTok("Hash"), 10);
    TokenizeStep(s, 5, CharTok(';'), 6);
    TokenizeStep(s, 4, CharTok('='), 5);
    TokenizeStep(s, 0, StringTok("Hash"), 4);
  }

  lemma Display5(a: Token, b: Token, c: Token, d: Token, e: Token)
    ensures [a] + ([b] + ([c] + ([d] + [e]))) == [a, b, c, d, e]
  {
  }

  lemma SecondKeyRejected()
    ensures ParseHeaderTokens([StringTok("Hash"), CharTok('='), CharTok(';'), StringTok("Hash"), EofTok])
            == Failure(ExpectedEquals(EofTok))
  {
  }

  /** An empty value is accepted, but the second field of `Hash=;Hash` lacks its `=`. */
  lemma SecondKeyWithoutEquals()
    ensures ParseXFCCHeader("Hash=;Hash") == Failure(GrammarFailure(ExpectedEquals(EofTok)))
  {
    SecondKeyTokens();
    Display5(StringTok("Hash"), CharTok('='), CharTok(';'), StringTok("Hash"), EofTok);
    SecondKeyRejected();
  }

  /** The subject `C` lacks its `=`. */
  lemma ComponentWithoutEquals()
    ensures ParseSubject("C") == Failure(GrammarFailure(ExpectedEquals(EofTok)))
  {
    var s := "C";
    RunToEnd(s, 0);
    assert s[0..] == "C";
    TokenizeStep(s, 0, StringTok("C"), 1);
    TokenizeEnd(s, 1);
    assert [StringTok("C")] + [EofTok] == [StringTok("C"), EofTok];
  }

  lemma EmptyCountryTokens()
    ensures TokenizeFrom("C=", 0) == Success([StringTok("C")] + ([CharTok('=')] + [EofTok]))
  {
    var s := "C=";
    RunThenSeparator(s, 0, 1);
    assert s[0..1] == "C";
    TokenizeEnd(s, 2);
    TokenizeStep(s, 1, CharTok('='), 2);
    TokenizeStep(s, 0, StringTok("C"), 1);
  }

  lemma EmptyCountryFields()
    ensures ParseSubjectTokens([StringTok("C"), CharTok('='), EofTok]) == Success([Field("C", "")])
  {
  }

  lemma EmptyCountryName()
    ensures FoldName([Field("C", "")], EmptyName) == Success(EmptyName.(country := [""]))
  {
    assert [Field("C", "")][1..] == [];
    assert [] + [""] == [""];
  }

  /** `C=` is a country with an empty value, not an error. */
  lemma EmptyCountry()
    ensures ParseSubject("C=") == Success(Some(EmptyName.(country := [""])))
  {
    EmptyCountryTokens();
    assert [StringTok("C")] + ([CharTok('=')] + [EofTok]) == [StringTok("C"), CharTok('='), EofTok];
    EmptyCountryFields();
    EmptyCountryName();
  }
  lemma TrailingCommaTokens()
    ensures TokenizeFrom("a=b,", 0) ==
              Success([StringTok("a")] + ([CharTok('=')] + ([StringTok("b")] + ([CharTok(',')] + [EofTok]))))
  {
    var s := "a=b,";
    RunThenSeparator(s, 0, 1);
    RunThenSeparator(s, 2, 3);
    assert s[0..1] == "a" && s[2..3] == "b";
    TokenizeEnd(s, 4);
    TokenizeStep(s, 3, CharTok(','), 4);
    TokenizeStep(s, 2, StringTok("b"), 3);
    TokenizeStep(s, 1, CharTok('='), 2);
    TokenizeStep(s, 0, StringTok("a"), 1);
  }

  lemma TrailingCommaRejected()
    ensures ParseHeaderTokens([StringTok("a"), CharTok('='), StringTok("b"), CharTok(','), EofTok])
            == Failure(ExpectedKey(EofTok))
  {
  }

  /** A `,` must be followed by another group: `a=b,` ends in an empty group and is rejected. */
  lemma TrailingComma()
    ensures ParseXFCCHeader("a=b,") == Failure(GrammarFailure(ExpectedKey(EofTok)))
  {
    TrailingCommaTokens();
    Display5(StringTok("a"), CharTok('='), StringTok("b"), CharTok(','), EofTok);
    TrailingCommaRejected();
  }

  /** A header starting with `,` never enters the groups, and the root rejects the `,`. */
  lemma LeadingComma()
    ensures ParseXFCCHeader(",") == Failure(GrammarFailure(UnexpectedToken(CharTok(','))))
  {
    var s := ",";
    SeparatorAlone(s, 0);
    TokenizeStep(s, 0, CharTok(','), 1);
    TokenizeEnd(s, 1);
    assert [CharTok(',')] + [EofTok] == [CharTok(','), EofTok];
  }
}
