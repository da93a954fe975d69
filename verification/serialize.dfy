/**
  A serializer for client certificates and the proof that
  `ParseXFCCHeader` inverts it on every representable list of certs.

  Every value is written as a quoted string. A subject is written as its
  own field list, quoted inside the header, so its quotes reach the header
  tokenizer escaped as `\"` and come back out as quotes. The serializer
  escapes only quotes, and a backslash cannot be written inside a quoted
  value, so a value may not contain one; a name component may not contain
  a quote either, since its escape would be a backslash in the outer value.
 */
module Serialize {
  import opened Results
  import opened Lexer
  import opened LexerProperties
  import opened Grammar
  import opened GrammarProperties
  import opened Xfcc
  import opened XfccProperties

  /** One field with key `k` per value, in order. */
  function Each(k: string, vs: seq<string>): (fs: seq<Field>)
    ensures |fs| == |vs|
    ensures forall i | 0 <= i < |fs| :: fs[i] == Field(k, vs[i])
    decreases |vs|
  {
    if |vs| == 0 then [] else [Field(k, vs[0])] + Each(k, vs[1..])
  }

  // ---- subject ----

  /** The list-valued components: their fields append. */
  const ListComponents: set<string> := {"C", "O", "OU", "L", "ST", "STREET", "POSTALCODE"}

  /** `n` with the values `vs` appended to the list component `k`. */
  function AddComponents(n: Name, k: string, vs: seq<string>): Name {
    if k == "C" then n.(country := n.country + vs)
    else if k == "O" then n.(organization := n.organization + vs)
    else if k == "OU" then n.(organizationalUnit := n.organizationalUnit + vs)
    else if k == "L" then n.(locality := n.locality + vs)
    else if k == "ST" then n.(province := n.province + vs)
    else if k == "STREET" then n.(streetAddress := n.streetAddress + vs)
    else if k == "POSTALCODE" then n.(postalCode := n.postalCode + vs)
    else n
  }

  /** The subject fields of a name: both scalars first, then every list value. */
  function NameFields(n: Name): seq<Field> {
    [Field("CN", n.commonName), Field("SERIALNUMBER", n.serialNumber)]
    + Each("C", n.country)
    + Each("O", n.organization)
    + Each("OU", n.organizationalUnit)
    + Each("L", n.locality)
    + Each("ST", n.province)
    + Each("STREET", n.streetAddress)
    + Each("POSTALCODE", n.postalCode)
  }

  lemma {:induction false} FoldNameAppend(a: seq<Field>, b: seq<Field>, n: Name)
    ensures FoldName(a + b, n) == match FoldName(a, n)
                                  case Failure(e) => Failure(e)
                                  case Success(m) => FoldName(b, m)
    decreases |a|
  {
    if |a| == 0 {
      assert a + b == b;
    } else {
      assert (a + b)[0] == a[0] && (a + b)[1..] == a[1..] + b;
      if ApplyNameField(n, a[0]).Success? {
        FoldNameAppend(a[1..], b, ApplyNameField(n, a[0]).value);
      }
    }
  }

  lemma {:induction false} FoldNameEach(k: string, vs: seq<string>, n: Name)
    requires k in ListComponents
    ensures FoldName(Each(k, vs), n) == Success(AddComponents(n, k, vs))
    decreases |vs|
  {
    if |vs| == 0 {
      assert n.country + vs == n.country;
      assert n.organization + vs == n.organization;
      assert n.organizationalUnit + vs == n.organizationalUnit;
      assert n.locality + vs == n.locality;
      assert n.province + vs == n.province;
      assert n.streetAddress + vs == n.streetAddress;
      assert n.postalCode + vs == n.postalCode;
    } else {
      var m := AddComponents(n, k, [vs[0]]);
      assert Each(k, vs)[0] == Field(k, vs[0]) && Each(k, vs)[1..] == Each(k, vs[1..]);
      assert ApplyNameField(n, Field(k, vs[0])) == Success(m);
      FoldNameEach(k, vs[1..], m);
      AddComponentsTwice(n, k, [vs[0]], vs[1..]);
      assert [vs[0]] + vs[1..] == vs;
    }
  }

  lemma AddComponentsTwice(n: Name, k: string, a: seq<string>, b: seq<string>)
    ensures AddComponents(AddComponents(n, k, a), k, b) == AddComponents(n, k, a + b)
  {
    assert n.country + a + b == n.country + (a + b);
    assert n.organization + a + b == n.organization + (a + b);
    assert n.organizationalUnit + a + b == n.organizationalUnit + (a + b);
    assert n.locality + a + b == n.locality + (a + b);
    assert n.province + a + b == n.province + (a + b);
    assert n.streetAddress + a + b == n.streetAddress + (a + b);
    assert n.postalCode + a + b == n.postalCode + (a + b);
  }

  /** One list segment appended to a fold that succeeded so far. */
  lemma FoldNameThen(a: seq<Field>, n: Name, m: Name, k: string, vs: seq<string>)
    requires k in ListComponents && FoldName(a, n) == Success(m)
    ensures FoldName(a + Each(k, vs), n) == Success(AddComponents(m, k, vs))
  {
    FoldNameAppend(a, Each(k, vs), n);
    FoldNameEach(k, vs, m);
  }

  /** The two scalar fields set `CN` and `SERIALNUMBER`. */
  function ScalarsOf(n: Name): Name {
    EmptyName.(commonName := n.commonName, serialNumber := n.serialNumber)
  }

  lemma FoldNameScalars(n: Name)
    ensures FoldName([Field("CN", n.commonName), Field("SERIALNUMBER", n.serialNumber)], EmptyName) == Success(ScalarsOf(n))
  {
    var s0 := [Field("CN", n.commonName), Field("SERIALNUMBER", n.serialNumber)];
    var m := EmptyName.(commonName := n.commonName);
    assert s0[1..] == [Field("SERIALNUMBER", n.serialNumber)] && s0[1..][1..] == [];
    assert ApplyNameField(EmptyName, s0[0]) == Success(m);
    assert FoldName(s0, EmptyName) == FoldName(s0[1..], m);
    assert ApplyNameField(m, s0[1..][0]) == Success(ScalarsOf(n));
    assert FoldName(s0[1..], m) == FoldName([], ScalarsOf(n));
  }

  /** Appending every list component to the scalars rebuilds the name. */
  lemma AddAllComponents(n: Name)
    ensures AddComponents(AddComponents(AddComponents(AddComponents(AddComponents(AddComponents(AddComponents(
              ScalarsOf(n), "C", n.country), "O", n.organization), "OU", n.organizationalUnit), "L", n.locality),
              "ST", n.province), "STREET", n.streetAddress), "POSTALCODE", n.postalCode) == n
  {
    assert [] + n.country == n.country;
    assert [] + n.organization == n.organization;
    assert [] + n.organizationalUnit == n.organizationalUnit;
    assert [] + n.locality == n.locality;
    assert [] + n.province == n.province;
    assert [] + n.streetAddress == n.streetAddress;
    assert [] + n.postalCode == n.postalCode;
  }

  /** Reading the fields of a name gives the name back. */
  lemma FoldNameFields(n: Name)
    ensures FoldName(NameFields(n), EmptyName) == Success(n)
  {
    var s0 := [Field("CN", n.commonName), Field("SERIALNUMBER", n.serialNumber)];
    var m0 := ScalarsOf(n);
    FoldNameScalars(n);
    var s1 := s0 + Each("C", n.country);
    var m1 := AddComponents(m0, "C", n.country);
    FoldNameThen(s0, EmptyName, m0, "C", n.country);
    var s2 := s1 + Each("O", n.organization);
    var m2 := AddComponents(m1, "O", n.organization);
    FoldNameThen(s1, EmptyName, m1, "O", n.organization);
    var s3 := s2 + Each("OU", n.organizationalUnit);
    var m3 := AddComponents(m2, "OU", n.organizationalUnit);
    FoldNameThen(s2, EmptyName, m2, "OU", n.organizationalUnit);
    var s4 := s3 + Each("L", n.locality);
    var m4 := AddComponents(m3, "L", n.locality);
    FoldNameThen(s3, EmptyName, m3, "L", n.locality);
    var s5 := s4 + Each("ST", n.province);
    var m5 := AddComponents(m4, "ST", n.province);
    FoldNameThen(s4, EmptyName, m4, "ST", n.province);
    var s6 := s5 + Each("STREET", n.streetAddress);
    var m6 := AddComponents(m5, "STREET", n.streetAddress);
    FoldNameThen(s5, EmptyName, m5, "STREET", n.streetAddress);
    FoldNameThen(s6, EmptyName, m6, "POSTALCODE", n.postalCode);
    AddAllComponents(n);
  }

  // ---- subject text ----

  /** A name component the subject printer can write: no backslash, no quote. */
  predicate QuotableComponent(s: string) {
    '\\' !in s && '"' !in s
  }

  predicate QuotableComponents(vs: seq<string>) {
    forall i | 0 <= i < |vs| :: QuotableComponent(vs[i])
  }

  predicate RepresentableName(n: Name) {
    && QuotableComponents(n.country)
    && QuotableComponents(n.organization)
    && QuotableComponents(n.organizationalUnit)
    && QuotableComponent(n.commonName)
    && QuotableComponent(n.serialNumber)
    && QuotableComponents(n.locality)
    && QuotableComponents(n.province)
    && QuotableComponents(n.streetAddress)
    && QuotableComponents(n.postalCode)
  }

  /** The subject value written for a name: its fields joined by `,`, every string quoted. */
  function SubjectText(n: Name): string {
    Render(PrintFields(NameFields(n), ','))
  }

  /** A field whose key and value both satisfy `QuotableComponent`. */
  predicate QuotableField(f: Field) {
    QuotableComponent(f.key) && QuotableComponent(f.value)
  }

  lemma QuotableEach(k: string, vs: seq<string>)
    requires QuotableComponent(k) && QuotableComponents(vs)
    ensures forall f | f in Each(k, vs) :: QuotableField(f)
  {
  }

  lemma QuotableAppend(a: seq<Field>, b: seq<Field>)
    requires forall f | f in a :: QuotableField(f)
    requires forall f | f in b :: QuotableField(f)
    ensures forall f | f in a + b :: QuotableField(f)
  {
  }

  lemma ComponentKeysQuotable()
    ensures QuotableComponent("C") && QuotableComponent("O") && QuotableComponent("OU")
    ensures QuotableComponent("L") && QuotableComponent("ST") && QuotableComponent("STREET") && QuotableComponent("POSTALCODE")
  {
  }

  lemma QuotableScalars(n: Name)
    requires QuotableComponent(n.commonName) && QuotableComponent(n.serialNumber)
    ensures forall f | f in [Field("CN", n.commonName), Field("SERIALNUMBER", n.serialNumber)] :: QuotableField(f)
  {
    assert QuotableComponent("CN") && QuotableComponent("SERIALNUMBER");
  }

  lemma QuotableNameFields(n: Name)
    requires RepresentableName(n)
    ensures forall f | f in NameFields(n) :: QuotableField(f)
  {
    var s0 := [Field("CN", n.commonName), Field("SERIALNUMBER", n.serialNumber)];
    ComponentKeysQuotable();
    QuotableScalars(n);
    QuotableEach("C", n.country);
    QuotableAppend(s0, Each("C", n.country));
    var s1 := s0 + Each("C", n.country);
    QuotableEach("O", n.organization);
    QuotableAppend(s1, Each("O", n.organization));
    var s2 := s1 + Each("O", n.organization);
    QuotableEach("OU", n.organizationalUnit);
    QuotableAppend(s2, Each("OU", n.organizationalUnit));
    var s3 := s2 + Each("OU", n.organizationalUnit);
    QuotableEach("L", n.locality);
    QuotableAppend(s3, Each("L", n.locality));
    var s4 := s3 + Each("L", n.locality);
    QuotableEach("ST", n.province);
    QuotableAppend(s4, Each("ST", n.province));
    var s5 := s4 + Each("ST", n.province);
    QuotableEach("STREET", n.streetAddress);
    QuotableAppend(s5, Each("STREET", n.streetAddress));
    var s6 := s5 + Each("STREET", n.streetAddress);
    QuotableEach("POSTALCODE", n.postalCode);
    QuotableAppend(s6, Each("POSTALCODE", n.postalCode));
  }

  /** The tokens a field list is printed as, when no string needs escaping. */
  predicate QuotableToken(t: Token) {
    match t
    case StringTok(s) => QuotableComponent(s)
    case CharTok(c) => IsSeparator(c)
    case EofTok => false
  }

  lemma {:induction false} QuotablePrintedFields(fs: seq<Field>, d: char)
    requires IsSeparator(d) && forall f | f in fs :: QuotableField(f)
    ensures forall t | t in PrintFields(fs, d) :: QuotableToken(t)
    decreases |fs|
  {
    if |fs| > 1 {
      assert fs[0] in fs;
      assert forall f | f in fs[1..] :: f in fs;
      QuotablePrintedFields(fs[1..], d);
    } else if |fs| == 1 {
      assert fs[0] in fs;
    }
  }

  lemma {:induction false} QuoteEscapeQuotable(s: string)
    requires QuotableComponent(s)
    ensures QuoteEscape(s) == s
    decreases |s|
  {
    if |s| > 0 {
      assert s[0] in s;
      assert forall c | c in s[1..] :: c in s;
      QuoteEscapeQuotable(s[1..]);
      assert [s[0]] + s[1..] == s;
    }
  }

  /** Printed quotable tokens hold no backslash. */
  lemma {:induction false} RenderQuotable(ts: seq<Token>)
    requires forall t | t in ts :: QuotableToken(t)
    ensures '\\' !in Render(ts)
    decreases |ts|
  {
    if |ts| > 0 {
      assert ts[0] in ts;
      assert forall t | t in ts[1..] :: t in ts;
      RenderQuotable(ts[1..]);
      match ts[0]
      case StringTok(s) => QuoteEscapeQuotable(s);
      case CharTok(c) =>
      case EofTok =>
    }
  }

  lemma QuotableRenderable(ts: seq<Token>)
    requires forall t | t in ts :: QuotableToken(t)
    ensures forall t | t in ts :: Renderable(t)
  {
  }

  /** A subject text carries no backslash, so it can itself be quoted in the header. */
  lemma SubjectTextQuotable(n: Name)
    requires RepresentableName(n)
    ensures '\\' !in SubjectText(n)
    ensures SubjectText(n) != ""
  {
    QuotableNameFields(n);
    var ts := PrintFields(NameFields(n), ',');
    QuotablePrintedFields(NameFields(n), ',');
    RenderQuotable(ts);
    assert ts[0] == StringTok("CN");
  }

  /** `ParseSubject` reads back the subject text of every representable name. */
  lemma ParseSubjectText(n: Name)
    requires RepresentableName(n)
    ensures ParseSubject(SubjectText(n)) == Success(Some(n))
  {
    var fs := NameFields(n);
    var ts := PrintFields(fs, ',');
    SubjectTextQuotable(n);
    QuotableNameFields(n);
    QuotablePrintedFields(fs, ',');
    QuotableRenderable(ts);
    TokenizeRender(ts);
    ParsePrintedSubject(fs);
    FoldNameFields(n);
  }

  // ---- certs ----

  /** A header value the printer can write: no backslash. */
  predicate QuotableValue(s: string) {
    '\\' !in s
  }

  predicate QuotableValues(vs: seq<string>) {
    forall i | 0 <= i < |vs| :: QuotableValue(vs[i])
  }

  /** No subject, or one whose name can be written as subject text. */
  predicate RepresentableSubject(s: Option<Name>) {
    s.Some? ==> RepresentableName(s.value)
  }

  /** A cert whose every value can be written into a header and read back. */
  predicate RepresentableCert(c: ClientCert) {
    && QuotableValue(c.forwardedBy)
    && QuotableValue(c.hash)
    && QuotableValue(c.cert)
    && QuotableValue(c.chain)
    && RepresentableSubject(c.subject)
    && QuotableValues(c.uri)
    && QuotableValues(c.dns)
  }

  /** The `Subject` field of a cert: left out when there is no subject. */
  function SubjectFields(s: Option<Name>): seq<Field> {
    match s
    case None => []
    case Some(n) => [Field("Subject", SubjectText(n))]
  }

  /** The header fields of a cert: the scalars, the subject, then every `URI` and `DNS` value. */
  function CertFields(c: ClientCert): seq<Field> {
    [Field("By", c.forwardedBy), Field("Hash", c.hash), Field("Cert", c.cert), Field("Chain", c.chain)]
    + SubjectFields(c.subject)
    + Each("URI", c.uri)
    + Each("DNS", c.dns)
  }

  /** One group per cert, in order. */
  function CertGroups(cs: seq<ClientCert>): (gs: seq<seq<Field>>)
    ensures |gs| == |cs|
    decreases |cs|
  {
    if |cs| == 0 then [] else [CertFields(cs[0])] + CertGroups(cs[1..])
  }

  /** The header value for a list of certs. */
  function HeaderText(cs: seq<ClientCert>): string {
    Render(PrintGroups(CertGroups(cs)))
  }

  /** `c` with the values `vs` appended to its `URI` or `DNS` list. */
  function AddNames(c: ClientCert, k: string, vs: seq<string>): ClientCert {
    if k == "URI" then c.(uri := c.uri + vs)
    else if k == "DNS" then c.(dns := c.dns + vs)
    else c
  }

  lemma {:induction false} FoldCertAppend(a: seq<Field>, b: seq<Field>, c: ClientCert, index: nat)
    ensures FoldCert(a + b, c, index) == match FoldCert(a, c, index)
                                         case Failure(e) => Failure(e)
                                         case Success(m) => FoldCert(b, m, index)
    decreases |a|
  {
    if |a| == 0 {
      assert a + b == b;
    } else {
      assert (a + b)[0] == a[0] && (a + b)[1..] == a[1..] + b;
      if ApplyCertField(c, a[0], index).Success? {
        FoldCertAppend(a[1..], b, ApplyCertField(c, a[0], index).value, index);
      }
    }
  }

  lemma {:induction false} FoldCertEach(k: string, vs: seq<string>, c: ClientCert, index: nat)
    requires k == "URI" || k == "DNS"
    ensures FoldCert(Each(k, vs), c, index) == Success(AddNames(c, k, vs))
    decreases |vs|
  {
    if |vs| == 0 {
      assert c.uri + vs == c.uri && c.dns + vs == c.dns;
    } else {
      var m := AddNames(c, k, [vs[0]]);
      var fs := Each(k, vs);
      assert fs[0] == Field(k, vs[0]) && fs[1..] == Each(k, vs[1..]);
      ApplyNamesStep(c, k, vs[0], index);
      FoldCertStep(fs, c, m, index);
      FoldCertEach(k, vs[1..], m, index);
      AddNamesTwice(c, k, [vs[0]], vs[1..]);
      assert [vs[0]] + vs[1..] == vs;
    }
  }

  lemma ApplyNamesStep(c: ClientCert, k: string, v: string, index: nat)
    requires k == "URI" || k == "DNS"
    ensures ApplyCertField(c, Field(k, v), index) == Success(AddNames(c, k, [v]))
  {
  }

  lemma FoldCertStep(fs: seq<Field>, c: ClientCert, m: ClientCert, index: nat)
    requires |fs| > 0 && ApplyCertField(c, fs[0], index) == Success(m)
    ensures FoldCert(fs, c, index) == FoldCert(fs[1..], m, index)
  {
  }

  lemma AddNamesTwice(c: ClientCert, k: string, a: seq<string>, b: seq<string>)
    ensures AddNames(AddNames(c, k, a), k, b) == AddNames(c, k, a + b)
  {
    assert c.uri + a + b == c.uri + (a + b);
    assert c.dns + a + b == c.dns + (a + b);
  }

  /** The four scalar fields set `By`, `Hash`, `Cert` and `Chain`. */
  function CertScalarsOf(c: ClientCert): ClientCert {
    EmptyCert.(forwardedBy := c.forwardedBy, hash := c.hash, cert := c.cert, chain := c.chain)
  }

  lemma FoldCertScalars(c: ClientCert, index: nat)
    ensures FoldCert([Field("By", c.forwardedBy), Field("Hash", c.hash), Field("Cert", c.cert), Field("Chain", c.chain)],
                     EmptyCert, index) == Success(CertScalarsOf(c))
  {
    var s := [Field("By", c.forwardedBy), Field("Hash", c.hash), Field("Cert", c.cert), Field("Chain", c.chain)];
    var m1 := EmptyCert.(forwardedBy := c.forwardedBy);
    var m2 := m1.(hash := c.hash);
    var m3 := m2.(cert := c.cert);
    assert s[1..] == [Field("Hash", c.hash), Field("Cert", c.cert), Field("Chain", c.chain)];
    assert s[1..][1..] == [Field("Cert", c.cert), Field("Chain", c.chain)];
    assert s[1..][1..][1..] == [Field("Chain", c.chain)];
    assert s[1..][1..][1..][1..] == [];
    assert FoldCert(s, EmptyCert, index) == FoldCert(s[1..], m1, index);
    assert FoldCert(s[1..], m1, index) == FoldCert(s[1..][1..], m2, index);
    assert FoldCert(s[1..][1..], m2, index) == FoldCert(s[1..][1..][1..], m3, index);
    assert FoldCert(s[1..][1..][1..], m3, index) == FoldCert([], CertScalarsOf(c), index);
  }

  lemma FoldSubjectFields(s: Option<Name>, c: ClientCert, index: nat)
    requires s.Some? ==> RepresentableName(s.value)
    ensures FoldCert(SubjectFields(s), c, index) == Success(if s.Some? then c.(subject := s) else c)
  {
    if s.Some? {
      ParseSubjectText(s.value);
      assert SubjectFields(s)[1..] == [];
    }
  }

  /** Reading the fields of a cert gives the cert back, whenever its subject is representable. */
  lemma FoldCertFields(c: ClientCert, index: nat)
    requires RepresentableSubject(c.subject)
    ensures FoldCert(CertFields(c), EmptyCert, index) == Success(c)
  {
    var s0 := [Field("By", c.forwardedBy), Field("Hash", c.hash), Field("Cert", c.cert), Field("Chain", c.chain)];
    var m0 := CertScalarsOf(c);
    FoldCertScalars(c, index);
    var m1 := m0.(subject := c.subject);
    FoldSubjectFields(c.subject, m0, index);
    FoldCertAppend(s0, SubjectFields(c.subject), EmptyCert, index);
    var s1 := s0 + SubjectFields(c.subject);
    assert FoldCert(s1, EmptyCert, index) == Success(m1);
    FoldCertAppend(s1, Each("URI", c.uri), EmptyCert, index);
    FoldCertEach("URI", c.uri, m1, index);
    var m2 := AddNames(m1, "URI", c.uri);
    var s2 := s1 + Each("URI", c.uri);
    FoldCertAppend(s2, Each("DNS", c.dns), EmptyCert, index);
    FoldCertEach("DNS", c.dns, m2, index);
    assert [] + c.uri == c.uri && [] + c.dns == c.dns;
  }

  // ---- header ----

  /** A field the header printer can write: no backslash in key or value. */
  predicate HeaderField(f: Field) {
    QuotableValue(f.key) && QuotableValue(f.value)
  }

  lemma HeaderEach(k: string, vs: seq<string>)
    requires QuotableValue(k) && QuotableValues(vs)
    ensures forall f | f in Each(k, vs) :: HeaderField(f)
  {
  }

  lemma HeaderCertFields(c: ClientCert)
    requires RepresentableCert(c)
    ensures forall f | f in CertFields(c) :: HeaderField(f)
    ensures |CertFields(c)| > 0
  {
    var s0 := [Field("By", c.forwardedBy), Field("Hash", c.hash), Field("Cert", c.cert), Field("Chain", c.chain)];
    HeaderScalars(c);
    HeaderSubject(c.subject);
    HeaderAppend(s0, SubjectFields(c.subject));
    var s1 := s0 + SubjectFields(c.subject);
    HeaderEach("URI", c.uri);
    HeaderAppend(s1, Each("URI", c.uri));
    var s2 := s1 + Each("URI", c.uri);
    HeaderEach("DNS", c.dns);
    HeaderAppend(s2, Each("DNS", c.dns));
  }

  lemma HeaderScalars(c: ClientCert)
    requires QuotableValue(c.forwardedBy) && QuotableValue(c.hash) && QuotableValue(c.cert) && QuotableValue(c.chain)
    ensures forall f | f in [Field("By", c.forwardedBy), Field("Hash", c.hash), Field("Cert", c.cert), Field("Chain", c.chain)] ::
              HeaderField(f)
  {
    assert QuotableValue("By") && QuotableValue("Hash") && QuotableValue("Cert") && QuotableValue("Chain");
  }

  lemma HeaderSubject(s: Option<Name>)
    requires s.Some? ==> RepresentableName(s.value)
    ensures forall f | f in SubjectFields(s) :: HeaderField(f)
  {
    if s.Some? {
      SubjectTextQuotable(s.value);
      HeaderSubjectField(SubjectText(s.value));
    }
  }

  lemma HeaderSubjectField(v: string)
    requires QuotableValue(v)
    ensures forall f | f in [Field("Subject", v)] :: HeaderField(f)
  {
    assert QuotableValue("Subject");
  }

  lemma HeaderAppend(a: seq<Field>, b: seq<Field>)
    requires forall f | f in a :: HeaderField(f)
    requires forall f | f in b :: HeaderField(f)
    ensures forall f | f in a + b :: HeaderField(f)
  {
  }

  lemma {:induction false} RenderablePrintedFields(fs: seq<Field>, d: char)
    requires IsSeparator(d) && forall f | f in fs :: HeaderField(f)
    ensures forall t | t in PrintFields(fs, d) :: Renderable(t)
    decreases |fs|
  {
    if |fs| > 1 {
      assert fs[0] in fs;
      assert forall f | f in fs[1..] :: f in fs;
      RenderablePrintedFields(fs[1..], d);
    } else if |fs| == 1 {
      assert fs[0] in fs;
    }
  }

  /** Every printed token of the groups of representable certs can be rendered. */
  lemma {:induction false} RenderableCertGroups(cs: seq<ClientCert>)
    requires forall i | 0 <= i < |cs| :: RepresentableCert(cs[i])
    ensures forall t | t in PrintGroups(CertGroups(cs)) :: Renderable(t)
    decreases |cs|
  {
    if |cs| > 0 {
      var gs := CertGroups(cs);
      CertGroupsCons(cs);
      RepresentableTail(cs);
      HeaderCertFields(cs[0]);
      RenderablePrintedFields(gs[0], ';');
      if |cs| > 1 {
        RenderableCertGroups(cs[1..]);
      }
    }
  }

  /** Group `i` holds the fields of cert `i`. */
  lemma {:induction false} CertGroupsAt(cs: seq<ClientCert>, i: nat)
    requires i < |cs|
    ensures CertGroups(cs)[i] == CertFields(cs[i])
    decreases i
  {
    if i > 0 {
      CertGroupsAt(cs[1..], i - 1);
      assert CertGroups(cs)[i] == CertGroups(cs[1..])[i - 1];
    }
  }

  lemma NonEmptyCertGroups(cs: seq<ClientCert>)
    ensures NonEmptyGroups(CertGroups(cs))
  {
    forall i | 0 <= i < |CertGroups(cs)| ensures |CertGroups(cs)[i]| > 0 {
      CertGroupsAt(cs, i);
    }
  }

  lemma CertGroupsCons(cs: seq<ClientCert>)
    requires |cs| > 0
    ensures CertGroups(cs)[0] == CertFields(cs[0]) && CertGroups(cs)[1..] == CertGroups(cs[1..])
  {
  }

  lemma RepresentableTail(cs: seq<ClientCert>)
    requires |cs| > 0 && forall i | 0 <= i < |cs| :: RepresentableCert(cs[i])
    ensures RepresentableCert(cs[0]) && forall i | 0 <= i < |cs[1..]| :: RepresentableCert(cs[1..][i])
  {
    forall i | 0 <= i < |cs[1..]| ensures RepresentableCert(cs[1..][i]) {
      assert cs[1..][i] == cs[i + 1];
    }
  }

  /** Mapping the groups of representable certs gives the certs back. */
  lemma MapCertGroups(cs: seq<ClientCert>, index: nat)
    requires forall i | 0 <= i < |cs| :: RepresentableCert(cs[i])
    ensures MapGroups(CertGroups(cs), index) == Success(cs)
  {
    var gs := CertGroups(cs);
    forall i | 0 <= i < |gs| ensures FoldCert(gs[i], EmptyCert, index + i) == Success(cs[i]) {
      FoldCertGroup(cs, i, index);
    }
    MapGroupsOf(gs, cs, index);
  }

  lemma FoldCertGroup(cs: seq<ClientCert>, i: nat, index: nat)
    requires i < |cs| && RepresentableCert(cs[i])
    ensures FoldCert(CertGroups(cs)[i], EmptyCert, index + i) == Success(cs[i])
  {
    var c := cs[i];
    assert RepresentableSubject(c.subject);
    CertGroupsAt(cs, i);
    FoldCertFields(c, index + i);
  }

  /** The header tokenizer and grammar read back the printed groups. */
  lemma ParseRawHeaderText(cs: seq<ClientCert>)
    requires forall i | 0 <= i < |cs| :: RepresentableCert(cs[i])
    ensures ParseRawXFCCHeader(HeaderText(cs)) == Success(CertGroups(cs))
  {
    var gs := CertGroups(cs);
    var ts := PrintGroups(gs);
    RenderableCertGroups(cs);
    TokenizeRender(ts);
    NonEmptyCertGroups(cs);
    ParsePrintedHeader(gs);
    if HeaderText(cs) == "" {
      assert ts + [EofTok] == [EofTok];
      assert ts == [];
    }
  }

  /**
    The round trip: the header written for any list of representable certs
    parses back to exactly those certs.
   */
  lemma ParseHeaderText(cs: seq<ClientCert>)
    requires forall i | 0 <= i < |cs| :: RepresentableCert(cs[i])
    ensures ParseXFCCHeader(HeaderText(cs)) == Success(cs)
  {
    ParseRawHeaderText(cs);
    MapCertGroups(cs, 0);
  }
}
