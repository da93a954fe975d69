/**
  A printer for the token grammar and the proof that the parser reads its
  output back: every list of non-empty field groups is the parse of some
  token stream, and that stream is the printed one.
 */
module GrammarProperties {
  import opened Results
  import opened Lexer
  import opened Grammar

  /** A field as tokens; an empty value is printed by leaving it out. */
  function PrintField(f: Field): seq<Token> {
    [StringTok(f.key), CharTok('=')] + (if f.value == [] then [] else [StringTok(f.value)])
  }

  /** Fields joined by the delimiter `d`. */
  function PrintFields(fs: seq<Field>, d: char): seq<Token>
    decreases |fs|
  {
    if |fs| == 0 then []
    else if |fs| == 1 then PrintField(fs[0])
    else PrintField(fs[0]) + [CharTok(d)] + PrintFields(fs[1..], d)
  }

  /** Groups of `;`-joined fields, joined by `,`. */
  function PrintGroups(gs: seq<seq<Field>>): seq<Token>
    decreases |gs|
  {
    if |gs| == 0 then []
    else if |gs| == 1 then PrintFields(gs[0], ';')
    else PrintFields(gs[0], ';') + [CharTok(',')] + PrintGroups(gs[1..])
  }

  predicate NonEmptyGroups(gs: seq<seq<Field>>) {
    forall i | 0 <= i < |gs| :: |gs[i]| > 0
  }

  /** A token that can follow a field without being read as part of it. */
  predicate Stops(t: Token) {
    !t.StringTok?
  }

  lemma PrintFieldsCons(fs: seq<Field>, d: char, rest: seq<Token>)
    requires |fs| > 1
    ensures PrintFields(fs, d) + rest == PrintField(fs[0]) + ([CharTok(d)] + (PrintFields(fs[1..], d) + rest))
  {
  }

  lemma PrintGroupsCons(gs: seq<seq<Field>>, rest: seq<Token>)
    requires |gs| > 1
    ensures PrintGroups(gs) + rest == PrintFields(gs[0], ';') + ([CharTok(',')] + (PrintGroups(gs[1..]) + rest))
  {
  }

  lemma ConsTail<T>(xs: seq<T>)
    requires |xs| > 0
    ensures [xs[0]] + xs[1..] == xs
  {
  }

  lemma DropHead(t: Token, rest: seq<Token>)
    ensures ([t] + rest)[1..] == rest && Peek([t] + rest) == t
  {
  }

  lemma {:induction false} ParsePrintedField(f: Field, rest: seq<Token>)
    requires f.value == [] ==> Stops(Peek(rest))
    ensures ParseField(PrintField(f) + rest).Success?
    ensures ParseField(PrintField(f) + rest).value == Parsed(f, rest)
  {
    var ts := PrintField(f) + rest;
    assert ts[0] == StringTok(f.key) && ts[1] == CharTok('=');
    if f.value == [] {
      assert ts[2..] == rest;
    } else {
      assert ts[2] == StringTok(f.value) && ts[3..] == rest;
    }
  }

  lemma FieldListOne(ts: seq<Token>, d: char, f: Field, rest: seq<Token>)
    requires ParseField(ts).Success? && ParseField(ts).value == Parsed(f, rest)
    requires !IsLiteral(Peek(rest), d)
    ensures ParseFieldList(ts, d).Success? && ParseFieldList(ts, d).value == Parsed([f], rest)
  {
  }

  lemma FieldListCons(ts: seq<Token>, d: char, f: Field, tail: seq<Token>, fs: seq<Field>, rest: seq<Token>)
    requires ParseField(ts).Success? && ParseField(ts).value == Parsed(f, [CharTok(d)] + tail)
    requires ParseFieldList(tail, d).Success? && ParseFieldList(tail, d).value == Parsed(fs, rest)
    ensures ParseFieldList(ts, d).Success? && ParseFieldList(ts, d).value == Parsed([f] + fs, rest)
  {
    DropHead(CharTok(d), tail);
  }

  /** Printed fields followed by anything that ends the list parse back. */
  lemma {:induction false} ParsePrintedFields(fs: seq<Field>, d: char, rest: seq<Token>)
    requires |fs| > 0
    requires Stops(Peek(rest)) && !IsLiteral(Peek(rest), d)
    ensures ParseFieldList(PrintFields(fs, d) + rest, d).Success?
    ensures ParseFieldList(PrintFields(fs, d) + rest, d).value == Parsed(fs, rest)
    decreases |fs|
  {
    if |fs| == 1 {
      ParsePrintedField(fs[0], rest);
      FieldListOne(PrintFields(fs, d) + rest, d, fs[0], rest);
      assert fs == [fs[0]];
    } else {
      var tail := PrintFields(fs[1..], d) + rest;
      PrintFieldsCons(fs, d, rest);
      ParsePrintedField(fs[0], [CharTok(d)] + tail);
      ParsePrintedFields(fs[1..], d, rest);
      FieldListCons(PrintField(fs[0]) + ([CharTok(d)] + tail), d, fs[0], tail, fs[1..], rest);
      ConsTail(fs);
    }
  }

  lemma GroupListOne(ts: seq<Token>, g: seq<Field>, rest: seq<Token>)
    requires ParseFieldList(ts, ';').Success? && ParseFieldList(ts, ';').value == Parsed(g, rest)
    requires !IsLiteral(Peek(rest), ',')
    ensures ParseGroupList(ts).Success? && ParseGroupList(ts).value == Parsed([g], rest)
  {
  }

  lemma GroupListCons(ts: seq<Token>, g: seq<Field>, tail: seq<Token>, gs: seq<seq<Field>>, rest: seq<Token>)
    requires ParseFieldList(ts, ';').Success? && ParseFieldList(ts, ';').value == Parsed(g, [CharTok(',')] + tail)
    requires ParseGroupList(tail).Success? && ParseGroupList(tail).value == Parsed(gs, rest)
    ensures ParseGroupList(ts).Success? && ParseGroupList(ts).value == Parsed([g] + gs, rest)
  {
    DropHead(CharTok(','), tail);
  }

  lemma TailGroups(gs: seq<seq<Field>>)
    requires |gs| > 0 && NonEmptyGroups(gs)
    ensures |gs[0]| > 0 && NonEmptyGroups(gs[1..])
  {
    forall i | 0 <= i < |gs[1..]| ensures |gs[1..][i]| > 0 { assert gs[1..][i] == gs[i + 1]; }
  }

  lemma {:induction false} ParsePrintedGroups(gs: seq<seq<Field>>, rest: seq<Token>)
    requires |gs| > 0 && NonEmptyGroups(gs)
    requires Stops(Peek(rest)) && !IsLiteral(Peek(rest), ';') && !IsLiteral(Peek(rest), ',')
    ensures ParseGroupList(PrintGroups(gs) + rest).Success?
    ensures ParseGroupList(PrintGroups(gs) + rest).value == Parsed(gs, rest)
    decreases |gs|
  {
    TailGroups(gs);
    if |gs| == 1 {
      ParsePrintedFields(gs[0], ';', rest);
      GroupListOne(PrintGroups(gs) + rest, gs[0], rest);
      assert gs == [gs[0]];
    } else {
      var tail := PrintGroups(gs[1..]) + rest;
      PrintGroupsCons(gs, rest);
      ParsePrintedFields(gs[0], ';', [CharTok(',')] + tail);
      ParsePrintedGroups(gs[1..], rest);
      GroupListCons(PrintFields(gs[0], ';') + ([CharTok(',')] + tail), gs[0], tail, gs[1..], rest);
      ConsTail(gs);
    }
  }

  lemma PrintedFieldsStart(fs: seq<Field>, d: char, rest: seq<Token>)
    requires |fs| > 0
    ensures Peek(PrintFields(fs, d) + rest) == StringTok(fs[0].key)
  {
  }

  /** The `certs` root reads back every printed list of non-empty groups. */
  lemma ParsePrintedHeader(gs: seq<seq<Field>>)
    requires NonEmptyGroups(gs)
    ensures ParseHeaderTokens(PrintGroups(gs) + [EofTok]) == Success(gs)
  {
    if |gs| > 0 {
      assert |gs[0]| > 0;
      PrintedFieldsStart(gs[0], ';', if |gs| == 1 then [EofTok] else [CharTok(',')] + PrintGroups(gs[1..]) + [EofTok]);
      ParsePrintedGroups(gs, [EofTok]);
    }
  }

  /** The `subjectFields` root reads back every printed field list. */
  lemma ParsePrintedSubject(fs: seq<Field>)
    ensures ParseSubjectTokens(PrintFields(fs, ',') + [EofTok]) == Success(fs)
  {
    if |fs| > 0 {
      PrintedFieldsStart(fs, ',', [EofTok]);
      ParsePrintedFields(fs, ',', [EofTok]);
    }
  }
}
