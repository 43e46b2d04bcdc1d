/** The five kinds of message that are hashed or signed never get in each other's way. */
module DomainSeparation {
  import opened Basics
  import opened Sorting
  import opened Json
  import opened Canonical
  import AuditDocument
  import AuditSeal
  import AuditSealProofs
  import IdentityAssertion
  import DecisionSeal
  import Binding

  datatype Content =
    | Assertion(claims: IdentityAssertion.Claims)
    | Event(fields: AuditDocument.EventFields)
    | Decision(decision: DecisionSeal.DecisionFields)
    | Request(request: Json)
    | Corpus(schema: Bytes, version: Bytes, files: seq<Binding.CorpusFile>)
  {
    ghost predicate Proper() {
      match this
      case Request(request) => WellFormed(request)
      case Corpus(schema, version, files) =>
        Binding.Addressable(schema, files) && DistinctKeys(files) && Binding.NulFree(version)
      case _ => true
    }
  }

  function MessageOf(x: Content): Bytes {
    match x
    case Assertion(claims) =>
      AuditSeal.SignedMessage(IdentityAssertion.DOMAIN_PREFIX, IdentityAssertion.UnsignedDocument(claims))
    case Event(fields) =>
      AuditSeal.SignedMessage(AuditSeal.DOMAIN_PREFIX_V1, AuditDocument.UnsignedDocument(fields))
    case Decision(decision) => DecisionSeal.SignedMessage(decision)
    case Request(request) => Binding.RequestMessage(request)
    case Corpus(schema, version, files) => Binding.CorpusMessage(schema, version, files)
  }

  /** The same kind of content, and the same content: exactly for what is signed, up to key
      order for a request, up to file order for a corpus. */
  ghost predicate SameContent(x: Content, y: Content) {
    match (x, y)
    case (Request(a), Request(b)) => Equivalent(a, b)
    case (Corpus(s, v, a), Corpus(t, w, b)) => s == t && v == w && forall f :: f in a <==> f in b
    case _ => x == y
  }

  // ----- prefixes ------------------------------------------------------------------------

  /** Where the kinds are told apart: by the first octet, then by octet 12 or 20. */
  predicate Marked(message: Bytes, first: char, position: nat, mark: char) {
    |message| > 20 && message[0] == first && position < |message| && message[position] == mark
  }

  predicate MarkedAs(x: Content, message: Bytes) {
    match x
    case Assertion(_) => Marked(message, 'z', 12, 'i')
    case Event(_) => Marked(message, 'z', 12, 'a')
    case Decision(_) => Marked(message, 'z', 12, 'd')
    case Request(_) => Marked(message, 'd', 20, 'r')
    case Corpus(_, _, _) => Marked(message, 'd', 20, 'p')
  }

  /** How the messages begin, to the octet: the suite, a NUL, and then the content. */
  lemma SignedBeginnings(unsigned: Members)
    ensures AuditSeal.SignedMessage(AuditSeal.DOMAIN_PREFIX_V1, unsigned) ==
      "zero-secret/audit-seal/v1" + [0 as char] + CanonicalBytes(Obj(unsigned))
    ensures AuditSeal.SignedMessage(IdentityAssertion.DOMAIN_PREFIX, unsigned) ==
      "zero-secret/identity-assertion/v1" + [0 as char] + CanonicalBytes(Obj(unsigned))
  {
  }

  lemma MarkOfPrefix(prefix: Bytes, rest: Bytes, first: char, position: nat, mark: char)
    requires Marked(prefix, first, position, mark)
    ensures Marked(prefix + rest, first, position, mark)
  {
  }

  lemma AssertionMark(claims: IdentityAssertion.Claims)
    ensures MarkedAs(Assertion(claims), MessageOf(Assertion(claims)))
  {
  }

  lemma EventMark(fields: AuditDocument.EventFields)
    ensures MarkedAs(Event(fields), MessageOf(Event(fields)))
  {
    SealedMark(AuditDocument.UnsignedDocument(fields));
  }

  lemma SealedMark(unsigned: Members)
    ensures Marked(AuditSeal.SignedMessage(AuditSeal.DOMAIN_PREFIX_V1, unsigned), 'z', 12, 'a')
  {
    MarkOfPrefix(AuditSeal.DOMAIN_PREFIX_V1 + AuditSeal.NUL, CanonicalBytes(Obj(unsigned)), 'z', 12, 'a');
  }

  lemma DecisionMark(decision: DecisionSeal.DecisionFields)
    ensures MarkedAs(Decision(decision), MessageOf(Decision(decision)))
  {
  }

  lemma RequestMark(request: Json)
    ensures MarkedAs(Request(request), MessageOf(Request(request)))
  {
  }

  lemma CorpusMark(schema: Bytes, version: Bytes, files: seq<Binding.CorpusFile>)
    ensures MarkedAs(Corpus(schema, version, files), MessageOf(Corpus(schema, version, files)))
  {
  }

  lemma MessageMark(x: Content)
    ensures MarkedAs(x, MessageOf(x))
  {
    match x
    case Assertion(claims) => AssertionMark(claims);
    case Event(fields) => EventMark(fields);
    case Decision(decision) => DecisionMark(decision);
    case Request(request) => RequestMark(request);
    case Corpus(schema, version, files) => CorpusMark(schema, version, files);
  }

  predicate SameKind(x: Content, y: Content) {
    && x.Assertion? == y.Assertion? && x.Event? == y.Event? && x.Decision? == y.Decision?
    && x.Request? == y.Request? && x.Corpus? == y.Corpus?
  }

  lemma MarksDiffer(x: Content, y: Content, message: Bytes)
    requires MarkedAs(x, message) && MarkedAs(y, message)
    ensures SameKind(x, y)
  {
  }

  /** Messages of different kinds are never equal. */
  lemma KindsSeparate(x: Content, y: Content)
    ensures MessageOf(x) == MessageOf(y) ==> SameKind(x, y)
  {
    MessageMark(x);
    MessageMark(y);
    if MessageOf(x) == MessageOf(y) { MarksDiffer(x, y, MessageOf(x)); }
  }

  /** Two messages are equal if and only if they are of one kind and say the same. */
  lemma MessagesSeparate(x: Content, y: Content)
    requires x.Proper() && y.Proper()
    ensures MessageOf(x) == MessageOf(y) <==> SameContent(x, y)
  {
    KindsSeparate(x, y);
    if SameKind(x, y) { SameKindSeparate(x, y); }
  }

  lemma SameKindSeparate(x: Content, y: Content)
    requires x.Proper() && y.Proper() && SameKind(x, y)
    ensures MessageOf(x) == MessageOf(y) <==> SameContent(x, y)
  {
    match (x, y)
    case (Request(a), Request(b)) => Binding.RequestMessageInjective(a, b);
    case (Corpus(s, v, a), Corpus(t, w, b)) => Binding.CorpusMessageCanonical(s, v, a, t, w, b);
    case (Assertion(a), Assertion(b)) =>
      if MessageOf(x) == MessageOf(y) { IdentityAssertion.SignedMessageInjective(a, b); }
    case (Event(a), Event(b)) =>
      if MessageOf(x) == MessageOf(y) { AuditSealProofs.SignedMessageInjective(a, b); }
    case (Decision(a), Decision(b)) =>
      if MessageOf(x) == MessageOf(y) { DecisionSeal.SignedMessageInjective(a, b); }
    case _ =>
  }
}
