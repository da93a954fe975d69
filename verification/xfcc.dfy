/**
  The semantic layer of parser.go: field groups become `ClientCert` records
  and a subject string becomes a distinguished name.

  Each record is built by a left fold over its fields, exactly as the Go
  loops do: a closed set of keys, matched case-sensitively, either
  overwrites a scalar or appends to a list, and any other key aborts the
  whole parse.
 */
module Xfcc {
  import opened Results
  import opened Lexer
  import opened Grammar

  /** The nine `pkix.Name` components the subject parser fills in. */
  datatype Name = Name(
    country: seq<string>,             // C
    organization: seq<string>,        // O
    organizationalUnit: seq<string>,  // OU
    commonName: string,               // CN
    serialNumber: string,             // SERIALNUMBER
    locality: seq<string>,            // L
    province: seq<string>,            // ST
    streetAddress: seq<string>,       // STREET
    postalCode: seq<string>)          // POSTALCODE

  const EmptyName := Name([], [], [], "", "", [], [], [], [])

  /** One client certificate of the header. */
  datatype ClientCert = ClientCert(
    forwardedBy: string,              // By: the proxy that forwarded the request
    hash: string,
    cert: string,
    chain: string,
    subject: Option<Name>,            // absent: no subject, or an empty one
    uri: seq<string>,
    dns: seq<string>)

  const EmptyCert := ClientCert("", "", "", "", None, [], [])

  /** The keys a header field may carry. */
  const CertKeys: set<string> := {"By", "Hash", "Cert", "Chain", "Subject", "URI", "DNS"}

  /** The distinguished-name components a subject field may carry. */
  const SubjectKeys: set<string> := {"C", "O", "OU", "CN", "SERIALNUMBER", "L", "ST", "STREET", "POSTALCODE"}

  datatype ParseError =
    | LexFailure(lex: LexError)                       // the tokenizer rejected the text
    | GrammarFailure(grammar: GrammarError)           // the tokens do not form fields
    | UnknownSubjectComponent(component: string)      // a subject key outside `SubjectKeys`
    | UnknownCertField(key: string, index: nat)       // a header key outside `CertKeys`, in cert `index`
    | InvalidSubject(index: nat, cause: ParseError)   // a `Subject` value of cert `index` that does not parse

  /** The tokenizer run over a whole string, with its error lifted. */
  function Lex(s: string): (r: Result<seq<Token>, ParseError>)
    ensures r.Success? <==> TokenizeFrom(s, 0).Success?
    ensures r.Success? ==> r.value == TokenizeFrom(s, 0).value
    ensures r.Failure? ==> r.error.LexFailure?
  {
    match TokenizeFrom(s, 0)
    case Failure(e) => Failure(LexFailure(e))
    case Success(ts) => Success(ts)
  }

  function LiftGrammar<T>(r: Result<T, GrammarError>): (l: Result<T, ParseError>)
    ensures l.Success? <==> r.Success?
    ensures l.Success? ==> l.value == r.value
    ensures l.Failure? ==> l.error == GrammarFailure(r.error)
  {
    match r
    case Failure(e) => Failure(GrammarFailure(e))
    case Success(v) => Success(v)
  }

  /** One round of the `ParseSubject` loop. */
  function ApplyNameField(n: Name, f: Field): (r: Result<Name, ParseError>)
    ensures r.Success? <==> f.key in SubjectKeys
    ensures r.Failure? ==> r.error == UnknownSubjectComponent(f.key)
  {
    if f.key == "C" then Success(n.(country := n.country + [f.value]))
    else if f.key == "O" then Success(n.(organization := n.organization + [f.value]))
    else if f.key == "OU" then Success(n.(organizationalUnit := n.organizationalUnit + [f.value]))
    else if f.key == "CN" then Success(n.(commonName := f.value))
    else if f.key == "SERIALNUMBER" then Success(n.(serialNumber := f.value))
    else if f.key == "L" then Success(n.(locality := n.locality + [f.value]))
    else if f.key == "ST" then Success(n.(province := n.province + [f.value]))
    else if f.key == "STREET" then Success(n.(streetAddress := n.streetAddress + [f.value]))
    else if f.key == "POSTALCODE" then Success(n.(postalCode := n.postalCode + [f.value]))
    else Failure(UnknownSubjectComponent(f.key))
  }

  /** The `ParseSubject` loop from name `n`: the first unknown component aborts it. */
  function FoldName(fs: seq<Field>, n: Name): (r: Result<Name, ParseError>)
    ensures r.Failure? ==> r.error.UnknownSubjectComponent? && r.error.component !in SubjectKeys
    decreases |fs|
  {
    if |fs| == 0 then Success(n)
    else
      var n' :- ApplyNameField(n, fs[0]);
      FoldName(fs[1..], n')
  }

  /** `ParseSubject`: the empty string is an absent subject, not an error. */
  function ParseSubject(subject: string): (r: Result<Option<Name>, ParseError>)
    ensures subject == "" ==> r == Success(None)
    ensures subject != "" && r.Success? ==> r.value.Some?
    ensures r.Failure? ==> r.error.LexFailure? || r.error.GrammarFailure? || r.error.UnknownSubjectComponent?
  {
    if subject == "" then Success(None)
    else
      var ts :- Lex(subject);
      var fs :- LiftGrammar(ParseSubjectTokens(ts));
      var n :- FoldName(fs, EmptyName);
      Success(Some(n))
  }

  /** One round of the inner loop of `ParseXFCCHeader`, in cert `index`. */
  function ApplyCertField(c: ClientCert, f: Field, index: nat): (r: Result<ClientCert, ParseError>)
    ensures r.Success? <==> f.key in CertKeys && (f.key == "Subject" ==> ParseSubject(f.value).Success?)
    ensures r.Failure? && f.key !in CertKeys ==> r.error == UnknownCertField(f.key, index)
    ensures r.Failure? && f.key == "Subject" ==> r.error == InvalidSubject(index, ParseSubject(f.value).error)
  {
    if f.key == "By" then Success(c.(forwardedBy := f.value))
    else if f.key == "Hash" then Success(c.(hash := f.value))
    else if f.key == "Cert" then Success(c.(cert := f.value))
    else if f.key == "Chain" then Success(c.(chain := f.value))
    else if f.key == "Subject" then
      match ParseSubject(f.value)
      case Failure(e) => Failure(InvalidSubject(index, e))
      case Success(s) => Success(c.(subject := s))
    else if f.key == "URI" then Success(c.(uri := c.uri + [f.value]))
    else if f.key == "DNS" then Success(c.(dns := c.dns + [f.value]))
    else Failure(UnknownCertField(f.key, index))
  }

  /** The fields of cert `index` folded into `c`. */
  function FoldCert(fs: seq<Field>, c: ClientCert, index: nat): (r: Result<ClientCert, ParseError>)
    ensures r.Failure? ==> (r.error.UnknownCertField? && r.error.index == index && r.error.key !in CertKeys)
                           || (r.error.InvalidSubject? && r.error.index == index)
    decreases |fs|
  {
    if |fs| == 0 then Success(c)
    else
      var c' :- ApplyCertField(c, fs[0], index);
      FoldCert(fs[1..], c', index)
  }

  /** The outer loop of `ParseXFCCHeader`: one cert per group, numbered from `index`. */
  function MapGroups(gs: seq<seq<Field>>, index: nat): (r: Result<seq<ClientCert>, ParseError>)
    ensures r.Success? ==> |r.value| == |gs|
    decreases |gs|
  {
    if |gs| == 0 then Success([])
    else
      var c :- FoldCert(gs[0], EmptyCert, index);
      var cs :- MapGroups(gs[1..], index + 1);
      Success([c] + cs)
  }

  /** `parseRawXFCCHeader`: the empty header has no groups. */
  function ParseRawXFCCHeader(header: string): (r: Result<seq<seq<Field>>, ParseError>)
    ensures header == "" ==> r == Success([])
    ensures r.Success? ==> forall i | 0 <= i < |r.value| :: |r.value[i]| > 0
    ensures r.Failure? ==> r.error.LexFailure? || r.error.GrammarFailure?
  {
    if header == "" then Success([])
    else
      var ts :- Lex(header);
      LiftGrammar(ParseHeaderTokens(ts))
  }

  /** `ParseXFCCHeader`: every group becomes a cert, or the whole header is rejected. */
  function ParseXFCCHeader(header: string): (r: Result<seq<ClientCert>, ParseError>)
    ensures header == "" ==> r == Success([])
    ensures r.Success? ==> ParseRawXFCCHeader(header).Success? && |r.value| == |ParseRawXFCCHeader(header).value|
  {
    var gs :- ParseRawXFCCHeader(header);
    if |gs| == 0 then Success([]) else MapGroups(gs, 0)
  }
}
