/**
  What the folds of parser.go compute, stated against reference
  definitions that do not follow the fold: `ValuesOf` collects the values
  of one key front to back, `Last` searches for a key back to front.
 */
module XfccProperties {
  import opened Results
  import opened Lexer
  import opened Grammar
  import opened Xfcc

  /** The values of every field with key `k`, in field order. */
  function ValuesOf(fs: seq<Field>, k: string): seq<string>
    decreases |fs|
  {
    if |fs| == 0 then []
    else (if fs[0].key == k then [fs[0].value] else []) + ValuesOf(fs[1..], k)
  }

  /** The value of the last field with key `k`, if there is one. */
  function Last(fs: seq<Field>, k: string): Option<string>
    decreases |fs|
  {
    if |fs| == 0 then None
    else if fs[|fs| - 1].key == k then Some(fs[|fs| - 1].value)
    else Last(fs[..|fs| - 1], k)
  }

  /** The last value of `k`, or `d` when no field has key `k`. */
  function LastOr(fs: seq<Field>, k: string, d: string): string {
    match Last(fs, k)
    case None => d
    case Some(v) => v
  }

  /** `Last` seen from the front: a later occurrence hides an earlier one. */
  lemma {:induction false} LastCons(fs: seq<Field>, k: string)
    requires |fs| > 0
    ensures Last(fs, k) == if Last(fs[1..], k).Some? then Last(fs[1..], k)
                           else if fs[0].key == k then Some(fs[0].value)
                           else None
    decreases |fs|
  {
    if |fs| > 1 {
      var init := fs[..|fs| - 1];
      assert fs[1..][..|fs[1..]| - 1] == init[1..];
      assert fs[1..][|fs[1..]| - 1] == fs[|fs| - 1];
      if fs[|fs| - 1].key != k {
        LastCons(init, k);
      }
    }
  }

  lemma LastOrCons(fs: seq<Field>, k: string, d: string)
    requires |fs| > 0
    ensures LastOr(fs, k, d) == LastOr(fs[1..], k, if fs[0].key == k then fs[0].value else d)
  {
    LastCons(fs, k);
  }

  lemma ValuesOfCons(fs: seq<Field>, k: string, acc: seq<string>)
    requires |fs| > 0
    ensures acc + ValuesOf(fs, k) == (acc + (if fs[0].key == k then [fs[0].value] else [])) + ValuesOf(fs[1..], k)
  {
  }

  predicate KnownComponents(fs: seq<Field>) {
    forall i | 0 <= i < |fs| :: fs[i].key in SubjectKeys
  }

  lemma KnownTail(fs: seq<Field>)
    requires |fs| > 0
    ensures KnownComponents(fs) <==> fs[0].key in SubjectKeys && KnownComponents(fs[1..])
  {
    if fs[0].key in SubjectKeys && KnownComponents(fs[1..]) {
      forall i | 0 <= i < |fs| ensures fs[i].key in SubjectKeys {
        if i > 0 { assert fs[i] == fs[1..][i - 1]; }
      }
    }
  }

  /** `acc` extended with the value of `f` when its key is `k`. */
  function Appended(acc: seq<string>, f: Field, k: string): seq<string> {
    acc + (if f.key == k then [f.value] else [])
  }

  /** `d` replaced by the value of `f` when its key is `k`. */
  function Overwritten(d: string, f: Field, k: string): string {
    if f.key == k then f.value else d
  }

  /**
    The name the subject fields `fs` describe, starting from `n`: the list
    components collect their values in order, and `CN` and `SERIALNUMBER`
    keep the last one.
   */
  function Collected(fs: seq<Field>, n: Name): Name {
    Name(
      n.country + ValuesOf(fs, "C"),
      n.organization + ValuesOf(fs, "O"),
      n.organizationalUnit + ValuesOf(fs, "OU"),
      LastOr(fs, "CN", n.commonName),
      LastOr(fs, "SERIALNUMBER", n.serialNumber),
      n.locality + ValuesOf(fs, "L"),
      n.province + ValuesOf(fs, "ST"),
      n.streetAddress + ValuesOf(fs, "STREET"),
      n.postalCode + ValuesOf(fs, "POSTALCODE"))
  }

  /** One known component changes exactly the field its key names. */
  lemma ApplyNameStep(n: Name, f: Field)
    requires f.key in SubjectKeys
    ensures ApplyNameField(n, f) == Success(Name(
              Appended(n.country, f, "C"),
              Appended(n.organization, f, "O"),
              Appended(n.organizationalUnit, f, "OU"),
              Overwritten(n.commonName, f, "CN"),
              Overwritten(n.serialNumber, f, "SERIALNUMBER"),
              Appended(n.locality, f, "L"),
              Appended(n.province, f, "ST"),
              Appended(n.streetAddress, f, "STREET"),
              Appended(n.postalCode, f, "POSTALCODE")))
  {
    AppendedOther(n.country, f, "C");
    AppendedOther(n.organization, f, "O");
    AppendedOther(n.organizationalUnit, f, "OU");
    AppendedOther(n.locality, f, "L");
    AppendedOther(n.province, f, "ST");
    AppendedOther(n.streetAddress, f, "STREET");
    AppendedOther(n.postalCode, f, "POSTALCODE");
  }

  lemma AppendedOther(acc: seq<string>, f: Field, k: string)
    ensures f.key != k ==> Appended(acc, f, k) == acc
    ensures f.key == k ==> Appended(acc, f, k) == acc + [f.value]
  {
    if f.key != k {
      assert acc + [] == acc;
    }
  }

  lemma CollectedCons(fs: seq<Field>, n: Name)
    requires |fs| > 0 && fs[0].key in SubjectKeys
    ensures Collected(fs, n) == Collected(fs[1..], ApplyNameField(n, fs[0]).value)
  {
    ApplyNameStep(n, fs[0]);
    ValuesOfCons(fs, "C", n.country);
    ValuesOfCons(fs, "O", n.organization);
    ValuesOfCons(fs, "OU", n.organizationalUnit);
    ValuesOfCons(fs, "L", n.locality);
    ValuesOfCons(fs, "ST", n.province);
    ValuesOfCons(fs, "STREET", n.streetAddress);
    ValuesOfCons(fs, "POSTALCODE", n.postalCode);
    LastOrCons(fs, "CN", n.commonName);
    LastOrCons(fs, "SERIALNUMBER", n.serialNumber);
  }

  lemma FoldNameCons(fs: seq<Field>, n: Name)
    requires |fs| > 0
    ensures FoldName(fs, n) == if fs[0].key in SubjectKeys then FoldName(fs[1..], ApplyNameField(n, fs[0]).value)
                               else Failure(UnknownSubjectComponent(fs[0].key))
  {
  }

  /** `ParseSubject`'s loop succeeds exactly when every component is known, with the name `Collected` describes. */
  lemma {:induction false} FoldNameSpec(fs: seq<Field>, n: Name)
    ensures FoldName(fs, n).Success? <==> KnownComponents(fs)
    ensures FoldName(fs, n).Success? ==> FoldName(fs, n).value == Collected(fs, n)
    decreases |fs|
  {
    if |fs| == 0 {
      assert ValuesOf(fs, "C") == [] && Last(fs, "CN") == None;
      assert Collected(fs, n) == n;
    } else {
      KnownTail(fs);
      FoldNameCons(fs, n);
      if fs[0].key in SubjectKeys {
        var m := ApplyNameField(n, fs[0]).value;
        FoldNameSpec(fs[1..], m);
        CollectedCons(fs, n);
      }
    }
  }

  /** A field the header loop accepts: a known key, and a subject that parses. */
  predicate AcceptedField(f: Field) {
    f.key in CertKeys && (f.key == "Subject" ==> ParseSubject(f.value).Success?)
  }

  predicate AcceptedFields(fs: seq<Field>) {
    forall i | 0 <= i < |fs| :: AcceptedField(fs[i])
  }

  lemma AcceptedTail(fs: seq<Field>)
    requires |fs| > 0
    ensures AcceptedFields(fs) <==> AcceptedField(fs[0]) && AcceptedFields(fs[1..])
  {
    if AcceptedField(fs[0]) && AcceptedFields(fs[1..]) {
      forall i | 0 <= i < |fs| ensures AcceptedField(fs[i]) {
        if i > 0 { assert fs[i] == fs[1..][i - 1]; }
      }
    }
  }

  /** The last field with key `k` is a field of `fs`. */
  lemma {:induction false} LastMember(fs: seq<Field>, k: string)
    ensures Last(fs, k).Some? ==> Field(k, Last(fs, k).value) in fs
    decreases |fs|
  {
    if |fs| > 0 && fs[|fs| - 1].key != k {
      LastMember(fs[..|fs| - 1], k);
    }
  }

  /** The subject the last `Subject` field sets, or `d` when there is none. */
  function LastSubject(fs: seq<Field>, d: Option<Name>): Option<Name>
    requires AcceptedFields(fs)
  {
    LastMember(fs, "Subject");
    match Last(fs, "Subject")
    case None => d
    case Some(v) => ParseSubject(v).value
  }

  /**
    The cert the header fields `fs` describe, starting from `c`: `URI` and
    `DNS` collect their values in order, the other keys keep the last value,
    the subject being the parse of the last `Subject` value.
   */
  function CollectedCert(fs: seq<Field>, c: ClientCert): ClientCert
    requires AcceptedFields(fs)
  {
    ClientCert(
      LastOr(fs, "By", c.forwardedBy),
      LastOr(fs, "Hash", c.hash),
      LastOr(fs, "Cert", c.cert),
      LastOr(fs, "Chain", c.chain),
      LastSubject(fs, c.subject),
      c.uri + ValuesOf(fs, "URI"),
      c.dns + ValuesOf(fs, "DNS"))
  }

  /** One accepted field changes exactly the field its key names. */
  lemma ApplyCertStep(c: ClientCert, f: Field, index: nat)
    requires AcceptedField(f)
    ensures ApplyCertField(c, f, index) == Success(ClientCert(
              Overwritten(c.forwardedBy, f, "By"),
              Overwritten(c.hash, f, "Hash"),
              Overwritten(c.cert, f, "Cert"),
              Overwritten(c.chain, f, "Chain"),
              if f.key == "Subject" then ParseSubject(f.value).value else c.subject,
              Appended(c.uri, f, "URI"),
              Appended(c.dns, f, "DNS")))
  {
    AppendedOther(c.uri, f, "URI");
    AppendedOther(c.dns, f, "DNS");
  }

  lemma LastSubjectCons(fs: seq<Field>, d: Option<Name>)
    requires |fs| > 0 && AcceptedFields(fs)
    ensures AcceptedFields(fs[1..]) && AcceptedField(fs[0])
    ensures LastSubject(fs, d) ==
              LastSubject(fs[1..], if fs[0].key == "Subject" then ParseSubject(fs[0].value).value else d)
  {
    AcceptedTail(fs);
    LastCons(fs, "Subject");
  }

  lemma CollectedCertCons(fs: seq<Field>, c: ClientCert, index: nat)
    requires |fs| > 0 && AcceptedFields(fs)
    ensures AcceptedField(fs[0]) && AcceptedFields(fs[1..])
    ensures CollectedCert(fs, c) == CollectedCert(fs[1..], ApplyCertField(c, fs[0], index).value)
  {
    AcceptedTail(fs);
    ApplyCertStep(c, fs[0], index);
    ValuesOfCons(fs, "URI", c.uri);
    ValuesOfCons(fs, "DNS", c.dns);
    LastOrCons(fs, "By", c.forwardedBy);
    LastOrCons(fs, "Hash", c.hash);
    LastOrCons(fs, "Cert", c.cert);
    LastOrCons(fs, "Chain", c.chain);
    LastSubjectCons(fs, c.subject);
  }

  lemma FoldCertCons(fs: seq<Field>, c: ClientCert, index: nat)
    requires |fs| > 0
    ensures !AcceptedField(fs[0]) ==> FoldCert(fs, c, index).Failure?
    ensures AcceptedField(fs[0]) ==> FoldCert(fs, c, index) == FoldCert(fs[1..], ApplyCertField(c, fs[0], index).value, index)
  {
  }

  /**
    The header loop for one cert succeeds exactly when every field is
    accepted, and then builds the cert `CollectedCert` describes.
   */
  lemma {:induction false} FoldCertSpec(fs: seq<Field>, c: ClientCert, index: nat)
    ensures FoldCert(fs, c, index).Success? <==> AcceptedFields(fs)
    ensures FoldCert(fs, c, index).Success? ==> AcceptedFields(fs) && FoldCert(fs, c, index).value == CollectedCert(fs, c)
    decreases |fs|
  {
    if |fs| == 0 {
      assert ValuesOf(fs, "URI") == [] && Last(fs, "By") == None;
      assert CollectedCert(fs, c) == c;
    } else {
      AcceptedTail(fs);
      FoldCertCons(fs, c, index);
      if AcceptedField(fs[0]) {
        FoldCertSpec(fs[1..], ApplyCertField(c, fs[0], index).value, index);
        if AcceptedFields(fs) {
          CollectedCertCons(fs, c, index);
        }
      }
    }
  }

  /** A later `Subject=` (empty value) clears a subject set before it. */
  lemma SubjectResets(fs: seq<Field>, c: ClientCert, index: nat)
    requires FoldCert(fs, c, index).Success?
    requires Last(fs, "Subject") == Some("")
    ensures FoldCert(fs, c, index).value.subject == None
  {
    FoldCertSpec(fs, c, index);
  }

  lemma MapGroupsCons(gs: seq<seq<Field>>, index: nat)
    requires |gs| > 0
    ensures MapGroups(gs, index).Success? <==>
              FoldCert(gs[0], EmptyCert, index).Success? && MapGroups(gs[1..], index + 1).Success?
    ensures MapGroups(gs, index).Success? ==>
              MapGroups(gs, index).value == [FoldCert(gs[0], EmptyCert, index).value] + MapGroups(gs[1..], index + 1).value
  {
  }

  /** The cert numbered `index + i` folded from group `i`. */
  predicate GroupFolds(gs: seq<seq<Field>>, index: nat, i: int)
    requires 0 <= i < |gs|
  {
    FoldCert(gs[i], EmptyCert, index + i).Success?
  }

  /**
    One cert per group, in group order, numbered from `index`; a single
    failing group fails the whole map.
   */
  lemma {:induction false} MapGroupsSpec(gs: seq<seq<Field>>, index: nat)
    ensures MapGroups(gs, index).Success? <==> forall i | 0 <= i < |gs| :: GroupFolds(gs, index, i)
    ensures MapGroups(gs, index).Success? ==>
              forall i | 0 <= i < |gs| :: FoldCert(gs[i], EmptyCert, index + i) == Success(MapGroups(gs, index).value[i])
    decreases |gs|
  {
    if |gs| > 0 {
      MapGroupsCons(gs, index);
      MapGroupsSpec(gs[1..], index + 1);
      forall i | 1 <= i < |gs|
        ensures GroupFolds(gs, index, i) == GroupFolds(gs[1..], index + 1, i - 1)
        ensures FoldCert(gs[i], EmptyCert, index + i) == FoldCert(gs[1..][i - 1], EmptyCert, index + 1 + (i - 1))
      {
        assert gs[1..][i - 1] == gs[i];
      }
      if forall i | 0 <= i < |gs| :: GroupFolds(gs, index, i) {
        var tail, next := gs[1..], index + 1;
        assert GroupFolds(gs, index, 0);
        forall i | 0 <= i < |tail| ensures GroupFolds(tail, next, i) {
          assert GroupFolds(gs, index, i + 1);
        }
      }
    }
  }

  /** Groups that fold one by one into the certs `cs` map to `cs`. */
  lemma {:induction false} MapGroupsOf(gs: seq<seq<Field>>, cs: seq<ClientCert>, index: nat)
    requires |gs| == |cs|
    requires forall i | 0 <= i < |gs| :: FoldCert(gs[i], EmptyCert, index + i) == Success(cs[i])
    ensures MapGroups(gs, index) == Success(cs)
    decreases |gs|
  {
    if |gs| > 0 {
      assert FoldCert(gs[0], EmptyCert, index) == Success(cs[0]);
      forall i | 0 <= i < |gs[1..]| ensures FoldCert(gs[1..][i], EmptyCert, index + 1 + i) == Success(cs[1..][i]) {
        assert FoldCert(gs[i + 1], EmptyCert, index + (i + 1)) == Success(cs[i + 1]);
      }
      MapGroupsOf(gs[1..], cs[1..], index + 1);
      MapGroupsCons(gs, index);
      assert [cs[0]] + cs[1..] == cs;
    }
  }

  /** A non-empty input always starts with a real token. */
  lemma NonEmptyInputHasToken(s: string)
    requires s != "" && TokenizeFrom(s, 0).Success?
    ensures TokenizeFrom(s, 0).value[0] != EofTok
  {
  }

  /** The empty-header shortcut agrees with parsing the empty token stream. */
  lemma EmptyHeaderShortcut()
    ensures Lex("").Success? && Lex("").value == [EofTok]
    ensures LiftGrammar(ParseHeaderTokens(Lex("").value)) == ParseRawXFCCHeader("")
    ensures LiftGrammar(ParseSubjectTokens(Lex("").value)) == Success([])
  {
  }

  /** A non-empty header that parses holds at least one cert. */
  lemma NonEmptyHeaderHasCert(header: string)
    requires header != "" && ParseXFCCHeader(header).Success?
    ensures |ParseXFCCHeader(header).value| > 0
  {
    NonEmptyInputHasToken(header);
  }

  /** `ParseXFCCHeader` in terms of the raw groups: cert `i` is what group `i` describes. */
  lemma HeaderCerts(header: string)
    ensures ParseXFCCHeader(header).Success? <==>
              ParseRawXFCCHeader(header).Success?
              && forall i | 0 <= i < |ParseRawXFCCHeader(header).value| :: AcceptedFields(ParseRawXFCCHeader(header).value[i])
    ensures ParseXFCCHeader(header).Success? ==>
              forall i | 0 <= i < |ParseXFCCHeader(header).value| ::
                && AcceptedFields(ParseRawXFCCHeader(header).value[i])
                && ParseXFCCHeader(header).value[i] == CollectedCert(ParseRawXFCCHeader(header).value[i], EmptyCert)
  {
    var raw := ParseRawXFCCHeader(header);
    if raw.Success? {
      var gs := raw.value;
      MapGroupsSpec(gs, 0);
      forall i | 0 <= i < |gs|
        ensures GroupFolds(gs, 0, i) <==> AcceptedFields(gs[i])
        ensures GroupFolds(gs, 0, i) ==> FoldCert(gs[i], EmptyCert, i).value == CollectedCert(gs[i], EmptyCert)
      {
        FoldCertSpec(gs[i], EmptyCert, i);
      }
    }
  }
}
