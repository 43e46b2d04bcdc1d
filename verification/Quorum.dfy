/** The quorum on critical operations: who counts, and when it is reached. */
module Quorum {
  import opened Basics
  import Base64

  const MINIMUM_THRESHOLD: int := 2
  const MAX_ASSERTIONS: int := 64
  const REQUIRED_LEVEL: Bytes := "AAL3"

  /** What the verification service answers about one assertion. */
  datatype Answer =
    | Unavailable
    | Refused
    | Valid(subject: Bytes, aal: Bytes, authMethod: Bytes)

  datatype QuorumResult = QuorumResult(reached: bool, subjects: seq<Bytes>)

  // ----- what counts ---------------------------------------------------------------------

  /** The distinct holders behind the valid assertions. */
  function Holders(check: Bytes -> Answer, assertions: seq<Bytes>): set<Bytes> {
    set i | 0 <= i < |assertions| && check(assertions[i]).Valid? :: check(assertions[i]).subject
  }

  predicate Answered(check: Bytes -> Answer, assertions: seq<Bytes>) {
    forall i | 0 <= i < |assertions| :: !check(assertions[i]).Unavailable?
  }

  predicate NoDuplicates(s: seq<Bytes>) {
    forall i, j | 0 <= i < j < |s| :: s[i] != s[j]
  }

  function Members(s: seq<Bytes>): set<Bytes> {
    set x | x in s
  }

  lemma {:induction false} DistinctLength(s: seq<Bytes>)
    requires NoDuplicates(s)
    ensures |Members(s)| == |s|
  {
    if s != [] {
      var n := |s| - 1;
      DistinctLength(s[..n]);
      assert Members(s) == Members(s[..n]) + {s[n]};
      assert s[n] !in s[..n];
    }
  }

  lemma HoldersStep(check: Bytes -> Answer, assertions: seq<Bytes>, i: nat)
    requires i < |assertions|
    ensures Holders(check, assertions[..i + 1]) == Holders(check, assertions[..i]) +
      (if check(assertions[i]).Valid? then {check(assertions[i]).subject} else {})
  {
  }

  /** Only the set of valid assertions matters: neither their order, nor repetitions, nor
      invalid assertions among them change who counts. */
  lemma OnlyValidOnesCount(check: Bytes -> Answer, a: seq<Bytes>, b: seq<Bytes>)
    requires forall x | check(x).Valid? :: x in a <==> x in b
    ensures Holders(check, a) == Holders(check, b)
  {
  }

  /** More assertions never lose a quorum. */
  lemma HoldersIncluded(check: Bytes -> Answer, a: seq<Bytes>, b: seq<Bytes>)
    requires forall x | check(x).Valid? :: x in a ==> x in b
    ensures Holders(check, a) <= Holders(check, b)
  {
  }

  // ----- the count -------------------------------------------------------------------------

  /** Collects the valid subjects in a set, then lists it in no particular order. */
  method VerifyQuorum(check: Bytes -> Answer, assertions: seq<Bytes>, threshold: int)
    returns (r: Option<QuorumResult>)
    requires threshold >= MINIMUM_THRESHOLD
    ensures r.Some? <==> Answered(check, assertions)
    ensures r.Some? ==>
      && NoDuplicates(r.value.subjects)
      && Members(r.value.subjects) == Holders(check, assertions)
      && (r.value.reached <==> |Holders(check, assertions)| >= threshold)
  {
    var seen: set<Bytes> := {};
    for i := 0 to |assertions|
      invariant seen == Holders(check, assertions[..i])
      invariant Answered(check, assertions[..i])
    {
      HoldersStep(check, assertions, i);
      var answer := check(assertions[i]);
      if answer.Unavailable? { return None; }
      if answer.Valid? { seen := seen + {answer.subject}; }
    }
    assert assertions[..|assertions|] == assertions;
    var distinct := ListOf(seen);
    DistinctLength(distinct);
    r := Some(QuorumResult(|distinct| >= threshold, distinct));
  }

  method ListOf(s: set<Bytes>) returns (list: seq<Bytes>)
    ensures NoDuplicates(list) && Members(list) == s
  {
    list := [];
    var rest := s;
    while rest != {}
      invariant NoDuplicates(list) && Members(list) + rest == s && Members(list) !! rest
      decreases |rest|
    {
      var x :| x in rest;
      assert x !in Members(list);
      assert Members(list + [x]) == Members(list) + {x};
      list := list + [x];
      rest := rest - {x};
    }
  }

  /** Takes the initiator out and counts again. */
  function ExcludeInitiator(result: QuorumResult, initiator: Bytes, threshold: int): (QuorumResult, bool) {
    var others := Without(result.subjects, initiator);
    (QuorumResult(|others| >= threshold, others), |others| != |result.subjects|)
  }

  function Without(s: seq<Bytes>, x: Bytes): (r: seq<Bytes>)
    ensures |r| <= |s|
    ensures Members(r) == Members(s) - {x}
    ensures |r| == |s| <==> x !in s
    ensures NoDuplicates(s) ==> NoDuplicates(r)
  {
    if s == [] then []
    else
      var n := |s| - 1;
      var front := Without(s[..n], x);
      assert Members(s) == Members(s[..n]) + {s[n]};
      assert s[n] in Members(front) ==> s[n] in Members(s[..n]);
      assert s[n] != x ==> Members(front + [s[n]]) == Members(front) + {s[n]};
      if s[n] == x then front else front + [s[n]]
  }

  // ----- the published result ----------------------------------------------------------------

  datatype Request = Request(assertions: seq<Bytes>, expectedAuthorityDomain: Bytes, threshold: int)

  datatype Response =
    | Refusal(status: int, reason: Bytes)
    | Published(result: QuorumResult, initiatorWasHolder: bool)

  function CallerError(caller: Answer): Option<Response> {
    match caller
    case Unavailable => Some(Refusal(502, "verification_de_lappelant_indisponible"))
    case Refused => Some(Refusal(401, "assertion_de_lappelant_invalide"))
    case Valid(subject, aal, authMethod) =>
      if aal != REQUIRED_LEVEL then Some(Refusal(403, "niveau_dauthentification_insuffisant"))
      else if subject == "" || authMethod == "" then Some(Refusal(502, "verification_de_lappelant_incomplete"))
      else None
  }

  /** The caller's header and the octets that a lenient decoder made of it: only the
      canonical writing of a non-empty assertion is looked at. */
  datatype Caller = Caller(header: Bytes, assertion: Octets) {
    function Error(check: Bytes -> Answer): Option<Response> {
      if assertion == "" then Some(Refusal(401, "assertion_de_lappelant_absente"))
      else if Base64.Encode(assertion) != header then Some(Refusal(401, "assertion_de_lappelant_malformee"))
      else CallerError(check(assertion))
    }
  }

  /** One header for each assertion: of two callers that pass, equal headers and equal
      assertions are the same thing. */
  lemma OneHeaderPerAssertion(check: Bytes -> Answer, a: Caller, b: Caller)
    requires a.Error(check).None? && b.Error(check).None?
    ensures a.header == b.header <==> a.assertion == b.assertion
  {
    Base64.EncodeInjective(a.assertion, b.assertion);
  }

  /** The caller presented the canonical writing of an assertion that is valid at the third
      level, by a named subject with a named method. */
  predicate Initiates(check: Bytes -> Answer, caller: Caller) {
    && caller.assertion != "" && caller.header == Base64.Encode(caller.assertion)
    && var answer := check(caller.assertion);
    && answer.Valid? && answer.aal == "AAL3" && answer.subject != "" && answer.authMethod != ""
  }

  /** The checks that do not look at the holders' assertions. */
  predicate MayAsk(check: Bytes -> Answer, domain: Bytes, caller: Caller, body: Request) {
    Initiates(check, caller) && body.expectedAuthorityDomain == domain && body.threshold >= 2
  }

  /** The two that do. */
  predicate Countable(check: Bytes -> Answer, assertions: seq<Bytes>) {
    |assertions| <= 64 && Answered(check, assertions)
  }

  /** What is published, but for the order of the list: the independent holders, whether
      they reach the threshold, and whether the initiator was among the holders. */
  datatype Outcome = Outcome(holders: set<Bytes>, reached: bool, initiatorWasHolder: bool)

  function OutcomeOf(check: Bytes -> Answer, domain: Bytes, caller: Caller, body: Request): Option<Outcome> {
    if MayAsk(check, domain, caller, body) && Countable(check, body.assertions) then
      var initiator := check(caller.assertion).subject;
      var holders := Holders(check, body.assertions);
      Some(Outcome(holders - {initiator}, |holders - {initiator}| >= body.threshold, initiator in holders))
    else None
  }

  /** How a caller that may not initiate is refused: 401 if who it is was not established, 403
      if it is known at too low a level, 502 if the service failed. */
  function RefusalOf(check: Bytes -> Answer, caller: Caller): Response {
    var answer := check(caller.assertion);
    if caller.assertion == "" then Refusal(401, "assertion_de_lappelant_absente")
    else if caller.header != Base64.Encode(caller.assertion) then Refusal(401, "assertion_de_lappelant_malformee")
    else if answer.Refused? then Refusal(401, "assertion_de_lappelant_invalide")
    else if answer.Valid? && answer.aal != "AAL3" then Refusal(403, "niveau_dauthentification_insuffisant")
    else if answer.Valid? then Refusal(502, "verification_de_lappelant_incomplete")
    else Refusal(502, "verification_de_lappelant_indisponible")
  }

  lemma CallerExact(check: Bytes -> Answer, caller: Caller)
    ensures caller.Error(check).None? <==> Initiates(check, caller)
    ensures caller.Error(check).Some? ==> caller.Error(check) == Some(RefusalOf(check, caller))
  {
  }

  lemma RefusalTexts()
    ensures "trop_dassertions" != "domaine_dautorite_inattendu" && "trop_dassertions" != "seuil_de_quorum_invalide"
    ensures "domaine_dautorite_inattendu" != "seuil_de_quorum_invalide"
  {
    assert "trop_dassertions"[0] == 't' && "domaine_dautorite_inattendu"[0] == 'd' && "seuil_de_quorum_invalide"[0] == 's';
  }

  /** A quorum is published only for a caller whose header is canonical and who is verified
      at the highest level, and is reached exactly when the holders other than the caller
      number at least the threshold, itself at least two. */
  method PublishQuorum(check: Bytes -> Answer, domain: Bytes, caller: Caller, body: Request) returns (r: Response)
    ensures
      var outcome := OutcomeOf(check, domain, caller, body);
      && (r.Published? <==> outcome.Some?)
      && (r.Published? ==>
            && NoDuplicates(r.result.subjects)
            && outcome == Some(Outcome(Members(r.result.subjects), r.result.reached, r.initiatorWasHolder)))
    ensures !Initiates(check, caller) ==> r == RefusalOf(check, caller)
    ensures Initiates(check, caller) ==>
      && (r == Refusal(400, "trop_dassertions") <==> |body.assertions| > 64)
      && (r == Refusal(400, "domaine_dautorite_inattendu") <==>
            |body.assertions| <= 64 && body.expectedAuthorityDomain != domain)
      && (r == Refusal(400, "seuil_de_quorum_invalide") <==>
            |body.assertions| <= 64 && body.expectedAuthorityDomain == domain && body.threshold < 2)
      && (r == Refusal(502, "verification_des_porteurs_indisponible") <==>
            |body.assertions| <= 64 && body.expectedAuthorityDomain == domain && body.threshold >= 2
            && exists i | 0 <= i < |body.assertions| :: check(body.assertions[i]).Unavailable?)
  {
    CallerExact(check, caller);
    RefusalTexts();
    var refusal := caller.Error(check);
    if refusal.Some? { return refusal.value; }
    if |body.assertions| > MAX_ASSERTIONS { return Refusal(400, "trop_dassertions"); }
    if body.expectedAuthorityDomain != domain { return Refusal(400, "domaine_dautorite_inattendu"); }
    if body.threshold < MINIMUM_THRESHOLD { return Refusal(400, "seuil_de_quorum_invalide"); }
    var counted := VerifyQuorum(check, body.assertions, body.threshold);
    if counted.None? { return Refusal(502, "verification_des_porteurs_indisponible"); }
    var (result, excluded) := ExcludeInitiator(counted.value, check(caller.assertion).subject, body.threshold);
    DistinctLength(result.subjects);
    r := Published(result, excluded);
  }

  // ----- what changes the outcome ----------------------------------------------------------------

  predicate SameValidOnes(check: Bytes -> Answer, a: seq<Bytes>, b: seq<Bytes>) {
    forall x | x in a + b :: check(x).Valid? ==> x in a && x in b
  }

  /** Two requests with the same valid assertions have the same outcome if and only if both
      or neither can be counted: at most 64 assertions, each of them answered. Order,
      repetition and invalid assertions matter in no other way. */
  lemma OutcomeDependsOnValidOnes(check: Bytes -> Answer, domain: Bytes, caller: Caller, body: Request, other: seq<Bytes>)
    requires MayAsk(check, domain, caller, body) && SameValidOnes(check, body.assertions, other)
    ensures OutcomeOf(check, domain, caller, body) == OutcomeOf(check, domain, caller, body.(assertions := other)) <==>
      (Countable(check, body.assertions) <==> Countable(check, other))
  {
    forall x | check(x).Valid?
      ensures x in body.assertions <==> x in other
    {
      assert x in body.assertions || x in other ==> x in body.assertions + other;
    }
    OnlyValidOnesCount(check, body.assertions, other);
  }

  /** Reordering never changes it. */
  lemma ReorderingChangesNothing(check: Bytes -> Answer, domain: Bytes, caller: Caller, body: Request, other: seq<Bytes>)
    requires multiset(body.assertions) == multiset(other)
    ensures OutcomeOf(check, domain, caller, body) == OutcomeOf(check, domain, caller, body.(assertions := other))
  {
    SameLength(body.assertions, other);
    forall x
      ensures x in body.assertions <==> x in other
    {
      assert x in body.assertions <==> x in multiset(body.assertions);
      assert x in other <==> x in multiset(other);
    }
    SameAnswered(check, body.assertions, other);
    SameAnswered(check, other, body.assertions);
    OnlyValidOnesCount(check, body.assertions, other);
  }

  lemma SameLength(a: seq<Bytes>, b: seq<Bytes>)
    requires multiset(a) == multiset(b)
    ensures |a| == |b|
  {
    assert |multiset(a)| == |a| && |multiset(b)| == |b|;
  }

  lemma SameAnswered(check: Bytes -> Answer, a: seq<Bytes>, b: seq<Bytes>)
    requires forall x | x in b :: x in a
    ensures Answered(check, a) ==> Answered(check, b)
  {
    if Answered(check, a) {
      forall i | 0 <= i < |b|
        ensures !check(b[i]).Unavailable?
      {
        assert b[i] in a;
      }
    }
  }

  /** Presenting one of them again changes it exactly when the list was full. */
  lemma RepetitionMattersWhenFull(check: Bytes -> Answer, domain: Bytes, caller: Caller, body: Request, again: Bytes)
    requires OutcomeOf(check, domain, caller, body).Some? && again in body.assertions
    ensures OutcomeOf(check, domain, caller, body.(assertions := body.assertions + [again])) ==
      if |body.assertions| == MAX_ASSERTIONS then None else OutcomeOf(check, domain, caller, body)
  {
    var more := body.assertions + [again];
    SameAnswered(check, body.assertions, more);
    OnlyValidOnesCount(check, body.assertions, more);
  }

  /** No one can reach a quorum alone, nor with a single helper: two different holders,
      neither of them the initiator, each presented a valid assertion. */
  lemma TwoIndependentHolders(check: Bytes -> Answer, assertions: seq<Bytes>, initiator: Bytes, threshold: int)
    requires threshold >= MINIMUM_THRESHOLD && |Holders(check, assertions) - {initiator}| >= threshold
    ensures exists i, j | 0 <= i < |assertions| && 0 <= j < |assertions| ::
      && check(assertions[i]).Valid? && check(assertions[j]).Valid?
      && check(assertions[i]).subject != check(assertions[j]).subject
      && check(assertions[i]).subject != initiator && check(assertions[j]).subject != initiator
  {
    var others := Holders(check, assertions) - {initiator};
    var x :| x in others;
    assert |others - {x}| == |others| - 1;
    var y :| y in others - {x};
    var i :| 0 <= i < |assertions| && check(assertions[i]).Valid? && check(assertions[i]).subject == x;
    var j :| 0 <= j < |assertions| && check(assertions[j]).Valid? && check(assertions[j]).subject == y;
  }
}
