/**
  Headers and subjects written without quotes or escapes, the way most of
  the library's own examples are written: `k=v` pairs joined by `;` and `,`.
  Such text tokenizes to exactly the printed token stream, so the whole
  pipeline reduces to the folds of `XfccProperties`.
 */
module PlainText {
  import opened Results
  import opened Lexer
  import opened LexerProperties
  import opened Grammar
  import opened GrammarProperties
  import opened Xfcc
  import opened XfccProperties

  /** A field that can be written bare: a plain key, and a plain value or none. */
  predicate PlainField(f: Field) {
    PlainWord(f.key) && (f.value == [] || PlainWord(f.value))
  }

  predicate PlainFields(fs: seq<Field>) {
    forall i | 0 <= i < |fs| :: PlainField(fs[i])
  }

  predicate PlainGroups(gs: seq<seq<Field>>) {
    forall i | 0 <= i < |gs| :: PlainFields(gs[i])
  }

  /** The text of fields joined by `d`: `k=v`, or `k=` for an empty value. */
  function FieldsText(fs: seq<Field>, d: char): string {
    Texts(PrintFields(fs, d))
  }

  /** The text of a header: groups of `;`-joined fields, joined by `,`. */
  function PlainHeaderText(gs: seq<seq<Field>>): string {
    Texts(PrintGroups(gs))
  }

  /** Joining two plain token sequences is plain unless two words meet. */
  lemma PlainJoin(a: seq<Token>, b: seq<Token>)
    requires PlainTokens(a) && PlainTokens(b)
    requires |a| > 0 && |b| > 0 ==> !(a[|a| - 1].StringTok? && b[0].StringTok?)
    ensures PlainTokens(a + b)
  {
    var ab := a + b;
    forall j | 0 < j < |ab| && ab[j].StringTok? ensures !ab[j - 1].StringTok? {
      if j < |a| {
        assert ab[j] == a[j] && ab[j - 1] == a[j - 1];
      } else if j > |a| {
        assert ab[j] == b[j - |a|] && ab[j - 1] == b[j - 1 - |a|];
      } else {
        assert ab[j] == b[0] && ab[j - 1] == a[|a| - 1];
      }
    }
    forall j | 0 <= j < |ab| ensures ab[j] == if j < |a| then a[j] else b[j - |a|] {
    }
  }

  lemma PlainPrintedField(f: Field)
    requires PlainField(f)
    ensures PlainTokens(PrintField(f))
    ensures PrintField(f)[0] == StringTok(f.key)
  {
    var ts := PrintField(f);
    if f.value == [] {
      assert ts == [StringTok(f.key), CharTok('=')];
    } else {
      assert ts == [StringTok(f.key), CharTok('='), StringTok(f.value)];
    }
  }

  lemma PlainFieldsTail(fs: seq<Field>)
    requires |fs| > 0 && PlainFields(fs)
    ensures PlainField(fs[0]) && PlainFields(fs[1..])
  {
    assert forall i | 0 <= i < |fs[1..]| :: fs[1..][i] == fs[i + 1];
  }

  /** Printed plain fields are plain tokens, starting with the first key. */
  lemma {:induction false} PlainPrintedFields(fs: seq<Field>, d: char)
    requires IsSeparator(d) && PlainFields(fs)
    ensures PlainTokens(PrintFields(fs, d))
    ensures |fs| > 0 ==> PrintFields(fs, d)[0] == StringTok(fs[0].key)
    decreases |fs|
  {
    if |fs| == 1 {
      PlainPrintedField(fs[0]);
    } else if |fs| > 1 {
      PlainFieldsTail(fs);
      PlainPrintedField(fs[0]);
      PlainPrintedFields(fs[1..], d);
      var head := PrintField(fs[0]) + [CharTok(d)];
      PlainJoin(PrintField(fs[0]), [CharTok(d)]);
      PlainJoin(head, PrintFields(fs[1..], d));
      assert PrintFields(fs, d) == head + PrintFields(fs[1..], d);
    }
  }

  lemma PlainGroupsTail(gs: seq<seq<Field>>)
    requires |gs| > 0 && PlainGroups(gs)
    ensures PlainFields(gs[0]) && PlainGroups(gs[1..])
  {
    assert forall i | 0 <= i < |gs[1..]| :: gs[1..][i] == gs[i + 1];
  }

  lemma {:induction false} PlainPrintedGroups(gs: seq<seq<Field>>)
    requires PlainGroups(gs)
    ensures PlainTokens(PrintGroups(gs))
    decreases |gs|
  {
    if |gs| == 1 {
      PlainPrintedFields(gs[0], ';');
    } else if |gs| > 1 {
      PlainGroupsTail(gs);
      PlainPrintedFields(gs[0], ';');
      PlainPrintedGroups(gs[1..]);
      var head := PrintFields(gs[0], ';') + [CharTok(',')];
      PlainJoin(PrintFields(gs[0], ';'), [CharTok(',')]);
      PlainJoin(head, PrintGroups(gs[1..]));
      assert PrintGroups(gs) == head + PrintGroups(gs[1..]);
    }
  }

  /** A text whose first token is a word is not the empty string. */
  lemma WordFirst(ts: seq<Token>)
    requires |ts| > 0 && ts[0].StringTok? && PlainWord(ts[0].text)
    ensures Texts(ts) != ""
  {
    TextsCons(ts[0], ts[1..]);
    assert [ts[0]] + ts[1..] == ts;
  }

  /**
    A bare subject parses exactly when every component is known, into the
    name `Collected` describes: lists in order, `CN` and `SERIALNUMBER` last.
   */
  lemma PlainSubject(fs: seq<Field>)
    requires |fs| > 0 && PlainFields(fs)
    ensures ParseSubject(FieldsText(fs, ',')).Success? <==> KnownComponents(fs)
    ensures ParseSubject(FieldsText(fs, ',')).Success? ==>
              ParseSubject(FieldsText(fs, ',')) == Success(Some(Collected(fs, EmptyName)))
  {
    var ts := PrintFields(fs, ',');
    PlainPrintedFields(fs, ',');
    WordFirst(ts);
    TokenizePlain(ts);
    ParsePrintedSubject(fs);
    FoldNameSpec(fs, EmptyName);
  }

  /** A bare header reads back as its groups. */
  lemma PlainRawHeader(gs: seq<seq<Field>>)
    requires NonEmptyGroups(gs) && PlainGroups(gs)
    ensures ParseRawXFCCHeader(PlainHeaderText(gs)) == Success(gs)
  {
    PlainPrintedGroups(gs);
    TokenizePlain(PrintGroups(gs));
    ParsePrintedHeader(gs);
  }

  /**
    A bare header yields one cert per group exactly when every field of
    every group is accepted, cert `i` being the one group `i` describes.
   */
  lemma PlainHeader(gs: seq<seq<Field>>)
    requires NonEmptyGroups(gs) && PlainGroups(gs)
    ensures ParseXFCCHeader(PlainHeaderText(gs)).Success? <==> forall i | 0 <= i < |gs| :: AcceptedFields(gs[i])
    ensures ParseXFCCHeader(PlainHeaderText(gs)).Success? ==>
              && |ParseXFCCHeader(PlainHeaderText(gs)).value| == |gs|
              && forall i | 0 <= i < |gs| :: ParseXFCCHeader(PlainHeaderText(gs)).value[i] == CollectedCert(gs[i], EmptyCert)
  {
    PlainRawHeader(gs);
    HeaderCerts(PlainHeaderText(gs));
  }
}
