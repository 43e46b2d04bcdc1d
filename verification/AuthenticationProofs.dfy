/** What every run of the identity provider guarantees. */
module AuthenticationProofs {
  import opened Basics
  import opened Fields
  import opened AuditDocument
  import opened WebAuthn
  import opened IdentityStore
  import opened Authentication
  import AuditStore
  import AuditLog

  // ----- challenges ------------------------------------------------------------------------

  predicate Spent(challenges: Challenges, x: Bytes) {
    x in challenges && challenges[x].used
  }

  predicate SpentBy(challenges: Challenges, requests: map<nat, Phase>, r: nat) {
    r in requests ==> Spent(challenges, requests[r].challenge)
  }

  predicate Apart(requests: map<nat, Phase>, r: nat, q: nat) {
    r in requests && q in requests && r != q ==> requests[r].challenge != requests[q].challenge
  }

  predicate NotReturned(requests: map<nat, Phase>, returned: seq<Returned>, r: nat, i: int) {
    r in requests && 0 <= i < |returned| ==> requests[r].challenge != returned[i].challenge
  }

  /** No two returned assertions rest on the same challenge. */
  predicate OncePerChallenge(returned: seq<Returned>) {
    forall i, j | 0 <= i < j < |returned| :: returned[i].challenge != returned[j].challenge
  }

  /** Every challenge in use or behind a returned assertion is spent, and has one user. */
  ghost predicate ChallengesFine(challenges: Challenges, requests: map<nat, Phase>, returned: seq<Returned>) {
    && (forall r :: SpentBy(challenges, requests, r))
    && (forall r, q :: Apart(requests, r, q))
    && (forall r, i :: NotReturned(requests, returned, r, i))
    && OncePerChallenge(returned)
    && (forall i | 0 <= i < |returned| :: Spent(challenges, returned[i].challenge))
  }

  lemma LeaveFine(challenges: Challenges, requests: map<nat, Phase>, returned: seq<Returned>, r: nat)
    requires ChallengesFine(challenges, requests, returned)
    ensures ChallengesFine(challenges, requests - {r}, returned)
  {
    var after := requests - {r};
    forall q ensures SpentBy(challenges, after, q) { assert SpentBy(challenges, requests, q); }
    forall q, v ensures Apart(after, q, v) { assert Apart(requests, q, v); }
    forall q, i ensures NotReturned(after, returned, q, i) { assert NotReturned(requests, returned, q, i); }
  }

  lemma MoveFine(challenges: Challenges, requests: map<nat, Phase>, returned: seq<Returned>, r: nat, p: Phase)
    requires ChallengesFine(challenges, requests, returned)
    requires r in requests && p.challenge == requests[r].challenge
    ensures ChallengesFine(challenges, requests[r := p], returned)
  {
    var after := requests[r := p];
    forall q ensures SpentBy(challenges, after, q) { assert SpentBy(challenges, requests, q); }
    forall q, v ensures Apart(after, q, v) { assert Apart(requests, q, v); }
    forall q, i ensures NotReturned(after, returned, q, i) { assert NotReturned(requests, returned, q, i); }
  }

  /** A challenge that is not spent has no user yet. */
  lemma EnterFine(challenges: Challenges, requests: map<nat, Phase>, returned: seq<Returned>, r: nat, p: Phase)
    requires ChallengesFine(challenges, requests, returned)
    requires r !in requests && p.challenge in challenges && !Spent(challenges, p.challenge)
    ensures ChallengesFine(MarkUsed(challenges, p.challenge), requests[r := p], returned)
  {
    SpendFine(challenges, requests, returned, p.challenge);
    var now, after := MarkUsed(challenges, p.challenge), requests[r := p];
    forall q ensures SpentBy(now, after, q) { assert SpentBy(now, requests, q); }
    forall q, v ensures Apart(after, q, v) {
      assert Apart(requests, q, v) && SpentBy(challenges, requests, q) && SpentBy(challenges, requests, v);
    }
    forall q, i ensures NotReturned(after, returned, q, i) {
      assert NotReturned(requests, returned, q, i);
      assert 0 <= i < |returned| ==> Spent(challenges, returned[i].challenge);
    }
  }

  lemma SpendFine(challenges: Challenges, requests: map<nat, Phase>, returned: seq<Returned>, x: Bytes)
    requires ChallengesFine(challenges, requests, returned) && x in challenges
    ensures ChallengesFine(MarkUsed(challenges, x), requests, returned)
  {
    var after := MarkUsed(challenges, x);
    forall q ensures SpentBy(after, requests, q) { assert SpentBy(challenges, requests, q); }
    forall i | 0 <= i < |returned| ensures Spent(after, returned[i].challenge) {
      assert Spent(challenges, returned[i].challenge);
    }
  }

  lemma IssueFine(challenges: Challenges, requests: map<nat, Phase>, returned: seq<Returned>, x: Bytes, row: Challenge)
    requires ChallengesFine(challenges, requests, returned) && x !in challenges
    ensures ChallengesFine(challenges[x := row], requests, returned)
  {
    var after := challenges[x := row];
    forall q ensures SpentBy(after, requests, q) { assert SpentBy(challenges, requests, q); }
    forall i | 0 <= i < |returned| ensures Spent(after, returned[i].challenge) {
      assert Spent(challenges, returned[i].challenge);
    }
  }

  lemma ReturnFine(challenges: Challenges, requests: map<nat, Phase>, returned: seq<Returned>, r: nat, x: Returned)
    requires ChallengesFine(challenges, requests, returned)
    requires r in requests && x.challenge == requests[r].challenge
    ensures ChallengesFine(challenges, requests - {r}, returned + [x])
  {
    var after, more := requests - {r}, returned + [x];
    assert SpentBy(challenges, requests, r);
    forall q ensures SpentBy(challenges, after, q) { assert SpentBy(challenges, requests, q); }
    forall q, v ensures Apart(after, q, v) { assert Apart(requests, q, v); }
    forall q, i ensures NotReturned(after, more, q, i) {
      assert NotReturned(requests, returned, q, i) && Apart(requests, q, r);
    }
    forall i, j | 0 <= i < j < |more| ensures more[i].challenge != more[j].challenge {
      assert NotReturned(requests, returned, r, i);
    }
  }

  lemma ChallengesApply(p: Provider, s: State, a: Action)
    requires ChallengesFine(s.challenges, s.requests, s.returned)
    ensures ChallengesFine(Apply(p, s, a).challenges, Apply(p, s, a).requests, Apply(p, s, a).returned)
  {
    var t := Apply(p, s, a);
    if OfRequest(a) {
      if a.r in s.requests { RequestChallenges(p, s, a, s.requests[a.r]); }
    } else if a.Consume? {
      if t != s { EnterFine(s.challenges, s.requests, s.returned, a.r, Consumed(a.challenge, a.proof)); }
    } else if a.ConsumeOther? {
      if a.challenge in s.challenges { SpendFine(s.challenges, s.requests, s.returned, a.challenge); }
    } else if a.IssueChallenge? {
      if a.challenge !in s.challenges { IssueFine(s.challenges, s.requests, s.returned, a.challenge, a.row); }
    }
  }

  // ----- what a request's own step can do ----------------------------------------------------

  predicate Kept(s: State, t: State, r: nat) {
    && r in s.requests && r in t.requests && t.requests == s.requests[r := t.requests[r]]
    && t.requests[r].challenge == s.requests[r].challenge && t.returned == s.returned
  }

  predicate Left(s: State, t: State, r: nat) {
    t.requests == s.requests - {r} && t.returned == s.returned
  }

  predicate Answered(s: State, t: State, r: nat) {
    && r in s.requests && t.requests == s.requests - {r} && |t.returned| == |s.returned| + 1
    && t.returned == s.returned + [t.returned[|s.returned|]]
    && t.returned[|s.returned|].challenge == s.requests[r].challenge
  }

  /** It keeps the request's challenge, or ends the request, with or without an answer. */
  predicate Effect(s: State, t: State, r: nat) {
    t.challenges == s.challenges && (Kept(s, t, r) || Left(s, t, r) || Answered(s, t, r))
  }

  predicate SameCounters(s: State, t: State) {
    t.commits == s.commits && t.authenticators == s.authenticators
  }

  lemma CheckEffect(p: Provider, s: State, r: nat, phase: Phase)
    requires r in s.requests && phase == s.requests[r] && phase.Consumed?
    ensures Effect(s, CheckStep(p, s, r, phase), r) && SameCounters(s, CheckStep(p, s, r, phase))
  {
  }

  lemma AdvanceEffect(s: State, r: nat, phase: Phase)
    requires r in s.requests && phase == s.requests[r] && phase.Verified?
    ensures Effect(s, AdvanceStep(s, r, phase), r)
  {
  }

  lemma SealEffect(p: Provider, s: State, r: nat, phase: Phase, device: AuditLog.Device, eventId: Bytes, now: int)
    requires r in s.requests && phase == s.requests[r] && phase.Advanced?
    ensures
      var t := SealStep(p, s, r, phase, device, eventId, now);
      Effect(s, t, r) && SameCounters(s, t)
  {
  }

  lemma EventEffect(p: Provider, s: State, r: nat, phase: Phase, device: AuditLog.Device, now: int)
    requires r in s.requests && phase == s.requests[r] && phase.Issued?
    ensures
      var t := EventStep(p, s, r, phase, device, now);
      Effect(s, t, r) && SameCounters(s, t)
  {
  }

  lemma AppendEffect(p: Provider, s: State, r: nat, phase: Phase)
    requires r in s.requests && phase == s.requests[r] && phase.Issued?
    ensures Effect(s, AppendStep(p, s, r, phase), r) && SameCounters(s, AppendStep(p, s, r, phase))
  {
  }

  lemma NoEffect(s: State, r: nat)
    requires r in s.requests
    ensures Effect(s, s, r) && Effect(s, Leave(s, r), r)
  {
  }

  lemma RequestEffect(p: Provider, s: State, a: Action, phase: Phase)
    requires OfRequest(a) && a.r in s.requests && phase == s.requests[a.r]
    ensures Effect(s, RequestStep(p, s, a, phase), a.r)
    ensures a.AdvanceCounter? || SameCounters(s, RequestStep(p, s, a, phase))
  {
    NoEffect(s, a.r);
    match a
    case Check(r) => if phase.Consumed? { CheckEffect(p, s, r, phase); }
    case AdvanceCounter(r) => if phase.Verified? { AdvanceEffect(s, r, phase); }
    case SealAssertion(r, device, eventId, now) => if phase.Advanced? { SealEffect(p, s, r, phase, device, eventId, now); }
    case ReadHead(r) =>
    case SealEvent(r, device, now) => if phase.Issued? { EventEffect(p, s, r, phase, device, now); }
    case Append(r) => if phase.Issued? { AppendEffect(p, s, r, phase); }
    case Abort(r) =>
  }

  lemma RequestChallenges(p: Provider, s: State, a: Action, phase: Phase)
    requires ChallengesFine(s.challenges, s.requests, s.returned)
    requires OfRequest(a) && a.r in s.requests && phase == s.requests[a.r]
    ensures
      var t := RequestStep(p, s, a, phase);
      ChallengesFine(t.challenges, t.requests, t.returned)
  {
    RequestEffect(p, s, a, phase);
    var t := RequestStep(p, s, a, phase);
    LeaveFine(s.challenges, s.requests, s.returned, a.r);
    if a.r in t.requests {
      MoveFine(s.challenges, s.requests, s.returned, a.r, t.requests[a.r]);
    } else if t.returned != s.returned {
      ReturnFine(s.challenges, s.requests, s.returned, a.r, t.returned[|s.returned|]);
    }
  }

  // ----- counters --------------------------------------------------------------------------

  /** In commit order, the counters of one credential strictly increase. */
  predicate Increasing(commits: seq<Commit>) {
    forall i, j | 0 <= i < j < |commits| && commits[i].CredentialId() == commits[j].CredentialId() ::
      commits[i].Counter() < commits[j].Counter()
  }

  /** The stored counter is at least every one that was ever accepted. */
  predicate Remembered(authenticators: Authenticators, commits: seq<Commit>) {
    forall i | 0 <= i < |commits| ::
      && commits[i].CredentialId() in authenticators
      && commits[i].Counter() <= authenticators[commits[i].CredentialId()].signCount
  }

  lemma CountersApply(p: Provider, s: State, a: Action)
    requires Increasing(s.commits) && Remembered(s.authenticators, s.commits)
    ensures Increasing(Apply(p, s, a).commits) && Remembered(Apply(p, s, a).authenticators, Apply(p, s, a).commits)
  {
    if a.AdvanceCounter? {
      if a.r in s.requests && s.requests[a.r].Verified? { AdvanceCounters(s, a.r, s.requests[a.r]); }
    } else if OfRequest(a) {
      if a.r in s.requests { RequestEffect(p, s, a, s.requests[a.r]); }
    } else {
      OtherCounters(p, s, a);
    }
  }

  lemma OtherCounters(p: Provider, s: State, a: Action)
    requires !OfRequest(a) && Remembered(s.authenticators, s.commits)
    ensures Apply(p, s, a).commits == s.commits && Remembered(Apply(p, s, a).authenticators, s.commits)
  {
  }

  lemma AdvanceCounters(s: State, r: nat, phase: Phase)
    requires Increasing(s.commits) && Remembered(s.authenticators, s.commits) && phase.Verified?
    ensures
      var t := AdvanceStep(s, r, phase);
      Increasing(t.commits) && Remembered(t.authenticators, t.commits)
  {
  }

  // ----- evidence ----------------------------------------------------------------------------

  predicate AtCommit(commits: seq<Commit>, challenge: Bytes, commit: nat) {
    commit < |commits| && commits[commit].challenge == challenge
  }

  predicate IssuedAs(p: Provider, sealed: Sealed, claims: CeremonyClaims, device: AuditLog.Device, eventId: Bytes, now: int) {
    ClaimsFor(p, claims, eventId, now) == Some(sealed.claims) && p.issue(device, sealed.claims) == Some(sealed.assertion)
  }

  /** The assertion was sealed at some instant, for what a ceremony had established. */
  ghost predicate IssuedFor(p: Provider, sealed: Sealed, claims: CeremonyClaims) {
    exists device, eventId, now :: IssuedAs(p, sealed, claims, device, eventId, now)
  }

  /** The row is the seal of an event that covers the assertion. */
  predicate CoversAs(p: Provider, row: AuditStore.Row, sealed: Sealed, f: EventFields, device: AuditLog.Device) {
    && p.log.seal(device, f) == Some(row.sealed) && row == AuditLog.RowOf(f, row.sealed)
    && f.authorityDomain == p.domain && f.eventId == sealed.claims.auditEventId
    && f.eventType == AuthenticationSucceeded && f.outcome == Success
    && f.actor.subjectId == sealed.claims.subjectId
    && f.target.Some? && f.target.value.targetType == TARGET_TYPE
    && f.target.value.id == HexEncode(p.log.sha256(sealed.assertion))
  }

  ghost predicate Covers(p: Provider, row: AuditStore.Row, sealed: Sealed) {
    exists f, device :: CoversAs(p, row, sealed, f, device)
  }

  ghost predicate PhaseFine(p: Provider, commits: seq<Commit>, log: AuditLog.State, r: nat, phase: Phase) {
    match phase
    case Consumed(_, _) => true
    case Verified(_, _, _) => true
    case Advanced(challenge, commit, claims) => AtCommit(commits, challenge, commit) && commits[commit].claims == claims
    case Issued(challenge, commit, sealed, stage) =>
      && AtCommit(commits, challenge, commit)
      && IssuedFor(p, sealed, commits[commit].claims)
      && (stage.HeadKnown? ==> AuditLog.PhaseOf(log, r).LinkKnown? && AuditLog.PhaseOf(log, r).domain == p.domain)
      && (stage.RowSealed? ==> AuditLog.PhaseOf(log, r).Ready? && Covers(p, AuditLog.PhaseOf(log, r).row, sealed))
  }

  ghost predicate Audited(p: Provider, table: seq<AuditStore.Row>, sealed: Sealed) {
    exists k | 0 <= k < |table| :: Covers(p, table[k], sealed)
  }

  ghost predicate ReturnedFine(p: Provider, commits: seq<Commit>, table: seq<AuditStore.Row>, x: Returned) {
    && AtCommit(commits, x.challenge, x.commit)
    && IssuedFor(p, x.sealed, commits[x.commit].claims)
    && Audited(p, table, x.sealed)
  }

  ghost predicate EvidenceFine(p: Provider, s: State) {
    && (forall r | r in s.requests :: PhaseFine(p, s.commits, s.log, r, s.requests[r]))
    && (forall i | 0 <= i < |s.returned| :: ReturnedFine(p, s.commits, s.log.table, s.returned[i]))
  }

  /** A step of the log touches one writer, and the table only grows. */
  lemma LogFrame(cfg: AuditLog.Services, log: AuditLog.State, x: AuditLog.Action)
    ensures forall v: nat | v != x.w :: AuditLog.PhaseOf(AuditLog.Apply(cfg, log, x), v) == AuditLog.PhaseOf(log, v)
    ensures log.table <= AuditLog.Apply(cfg, log, x).table
  {
  }

  lemma AuditedGrows(p: Provider, table: seq<AuditStore.Row>, more: seq<AuditStore.Row>, sealed: Sealed)
    requires Audited(p, table, sealed) && table <= more
    ensures Audited(p, more, sealed)
  {
  }

  /** What is fine stays fine while others write to the log and commit counters. */
  lemma EvidenceFrame(p: Provider, s: State, t: State, r: nat)
    requires EvidenceFine(p, s)
    requires s.commits <= t.commits && s.log.table <= t.log.table && t.returned == s.returned
    requires forall q | q in t.requests && q != r ::
      q in s.requests && t.requests[q] == s.requests[q] && AuditLog.PhaseOf(t.log, q) == AuditLog.PhaseOf(s.log, q)
    requires r in t.requests ==> PhaseFine(p, t.commits, t.log, r, t.requests[r])
    ensures EvidenceFine(p, t)
  {
    forall q | q in t.requests
      ensures PhaseFine(p, t.commits, t.log, q, t.requests[q])
    {
      if q != r { assert PhaseFine(p, s.commits, s.log, q, s.requests[q]); }
    }
    forall i | 0 <= i < |t.returned|
      ensures ReturnedFine(p, t.commits, t.log.table, t.returned[i])
    {
      assert ReturnedFine(p, s.commits, s.log.table, s.returned[i]);
      AuditedGrows(p, s.log.table, t.log.table, t.returned[i].sealed);
    }
  }

  /** The row that sealing the event produced covers the assertion. */
  lemma SealedEventCovers(p: Provider, log: AuditLog.State, r: nat, sealed: Sealed, occurredAt: Timestamp,
                          device: AuditLog.Device)
    requires AuditLog.PhaseOf(log, r).LinkKnown? && AuditLog.PhaseOf(log, r).domain == p.domain
    ensures
      var after := AuditLog.Apply(p.log, log, AuditLog.SealFields(r, SuccessEvent(p, sealed, occurredAt), device));
      AuditLog.PhaseOf(after, r).Ready? ==> Covers(p, AuditLog.PhaseOf(after, r).row, sealed)
  {
    var link := AuditLog.PhaseOf(log, r);
    var draft := SuccessEvent(p, sealed, occurredAt);
    var fields := AuditLog.OwnFields(draft, link.domain, link.next, link.prevHash);
    DigestTextIsDigest(p, sealed.assertion);
    if fields.Some? && p.log.seal(device, fields.value).Some? {
      var row := AuditLog.RowOf(fields.value, p.log.seal(device, fields.value).value);
      assert CoversAs(p, row, sealed, fields.value, device);
    }
  }

  // ----- evidence, step by step --------------------------------------------------------------

  lemma LeaveEvidence(p: Provider, s: State, r: nat)
    requires EvidenceFine(p, s)
    ensures EvidenceFine(p, Leave(s, r))
  {
  }

  lemma CheckEvidence(p: Provider, s: State, r: nat, phase: Phase)
    requires EvidenceFine(p, s) && phase.Consumed?
    ensures EvidenceFine(p, CheckStep(p, s, r, phase))
  {
  }

  lemma AdvanceEvidence(p: Provider, s: State, r: nat, phase: Phase)
    requires EvidenceFine(p, s) && phase.Verified?
    ensures EvidenceFine(p, AdvanceStep(s, r, phase))
  {
    EvidenceFrame(p, s, AdvanceStep(s, r, phase), r);
  }

  lemma SealEvidence(p: Provider, s: State, r: nat, phase: Phase, device: AuditLog.Device, eventId: Bytes, now: int)
    requires EvidenceFine(p, s) && phase.Advanced? && PhaseFine(p, s.commits, s.log, r, phase)
    ensures EvidenceFine(p, SealStep(p, s, r, phase, device, eventId, now))
  {
    var t := SealStep(p, s, r, phase, device, eventId, now);
    var claims := ClaimsFor(p, phase.claims, eventId, now);
    if claims.Some? && p.issue(device, claims.value).Some? {
      assert IssuedAs(p, t.requests[r].sealed, phase.claims, device, eventId, now);
    }
    EvidenceFrame(p, s, t, r);
  }

  lemma HeadEvidence(p: Provider, s: State, r: nat, phase: Phase)
    requires EvidenceFine(p, s) && phase.Issued? && PhaseFine(p, s.commits, s.log, r, phase)
    ensures EvidenceFine(p, Enter(s, r, phase.(stage := HeadKnown)).(
      log := AuditLog.Apply(p.log, s.log, AuditLog.ReadHeadHashed(r, p.domain))))
  {
    LogFrame(p.log, s.log, AuditLog.ReadHeadHashed(r, p.domain));
    var t := Enter(s, r, phase.(stage := HeadKnown)).(
      log := AuditLog.Apply(p.log, s.log, AuditLog.ReadHeadHashed(r, p.domain)));
    assert AuditLog.PhaseOf(t.log, r).LinkKnown?;
    EvidenceFrame(p, s, t, r);
  }

  lemma EventEvidence(p: Provider, s: State, r: nat, phase: Phase, device: AuditLog.Device, now: int)
    requires EvidenceFine(p, s) && phase.Issued? && phase.stage.HeadKnown? && PhaseFine(p, s.commits, s.log, r, phase)
    ensures EvidenceFine(p, EventStep(p, s, r, phase, device, now))
  {
    var t := EventStep(p, s, r, phase, device, now);
    if ValidTimestamp(p.stamp(now)) {
      var x := AuditLog.SealFields(r, SuccessEvent(p, phase.sealed, p.stamp(now)), device);
      LogFrame(p.log, s.log, x);
      SealedEventCovers(p, s.log, r, phase.sealed, p.stamp(now), device);
      assert t.log == AuditLog.Apply(p.log, s.log, x);
    }
    EvidenceFrame(p, s, t, r);
  }

  lemma AppendEvidence(p: Provider, s: State, r: nat, phase: Phase)
    requires EvidenceFine(p, s) && phase.Issued? && phase.stage.RowSealed? && PhaseFine(p, s.commits, s.log, r, phase)
    ensures EvidenceFine(p, AppendStep(p, s, r, phase))
  {
    var t := AppendStep(p, s, r, phase);
    var row := AuditLog.PhaseOf(s.log, r).row;
    LogFrame(p.log, s.log, AuditLog.Insert(r));
    EvidenceFrame(p, s, t.(returned := s.returned), r);
    if !AuditStore.Conflicts(s.log.table, row) {
      assert t.log.table == s.log.table + [row];
      assert t.log.table[|s.log.table|] == row;
      assert Audited(p, t.log.table, phase.sealed);
      assert ReturnedFine(p, t.commits, t.log.table, t.returned[|s.returned|]);
    }
  }

  lemma RequestEvidence(p: Provider, s: State, a: Action, phase: Phase)
    requires EvidenceFine(p, s) && OfRequest(a) && a.r in s.requests && phase == s.requests[a.r]
    ensures EvidenceFine(p, RequestStep(p, s, a, phase))
  {
    assert PhaseFine(p, s.commits, s.log, a.r, phase);
    match a
    case Check(r) => if phase.Consumed? { CheckEvidence(p, s, r, phase); }
    case AdvanceCounter(r) => if phase.Verified? { AdvanceEvidence(p, s, r, phase); }
    case SealAssertion(r, device, eventId, now) =>
      if phase.Advanced? { SealEvidence(p, s, r, phase, device, eventId, now); }
    case ReadHead(r) => if phase.Issued? { HeadEvidence(p, s, r, phase); }
    case SealEvent(r, device, now) =>
      if phase.Issued? && phase.stage.HeadKnown? { EventEvidence(p, s, r, phase, device, now); }
    case Append(r) => if phase.Issued? && phase.stage.RowSealed? { AppendEvidence(p, s, r, phase); }
    case Abort(r) => LeaveEvidence(p, s, r);
  }

  lemma EvidenceApply(p: Provider, s: State, a: Action)
    requires EvidenceFine(p, s)
    ensures EvidenceFine(p, Apply(p, s, a))
  {
    var t := Apply(p, s, a);
    if OfRequest(a) {
      if a.r in s.requests { RequestEvidence(p, s, a, s.requests[a.r]); }
    } else if a.Consume? {
      EvidenceFrame(p, s, t, a.r);
    } else if a.OtherWriter? {
      LogFrame(p.log, s.log, a.a);
      if a.a.w !in s.requests { EvidenceFrame(p, s, t, a.a.w); }
    }
  }

  // ----- proofs --------------------------------------------------------------------------------

  /** A row never changes its subject or its key. */
  predicate KnownAs(authenticators: Authenticators, id: Bytes, seen: Credential) {
    id in authenticators && seen.subjectId == authenticators[id].subjectId && seen.publicKey == authenticators[id].publicKey
  }

  /** The ceremony succeeded against the registered subject and key of the credential. */
  ghost predicate Proven(p: Provider, authenticators: Authenticators, x: Commit) {
    exists seen ::
      KnownAs(authenticators, x.CredentialId(), seen) && p.ceremony(x.challenge, x.proof, seen) == Some(x.claims)
  }

  predicate KeepsKeys(a: Authenticators, b: Authenticators) {
    forall id | id in a :: KnownAs(b, id, a[id])
  }

  lemma ProvenStays(p: Provider, a: Authenticators, b: Authenticators, x: Commit)
    requires Proven(p, a, x) && KeepsKeys(a, b)
    ensures Proven(p, b, x)
  {
    var seen :| KnownAs(a, x.CredentialId(), seen) && p.ceremony(x.challenge, x.proof, seen) == Some(x.claims);
    assert KnownAs(b, x.CredentialId(), a[x.CredentialId()]);
    assert KnownAs(b, x.CredentialId(), seen);
  }

  ghost predicate RequestProven(p: Provider, s: State, r: nat) {
    r in s.requests && s.requests[r].Verified? ==>
      Proven(p, s.authenticators, Commit(s.requests[r].challenge, s.requests[r].proof, s.requests[r].claims))
  }

  ghost predicate ProofsFine(p: Provider, s: State) {
    && (forall r :: RequestProven(p, s, r))
    && (forall i | 0 <= i < |s.commits| :: Proven(p, s.authenticators, s.commits[i]))
  }

  lemma KeysApply(p: Provider, s: State, a: Action)
    ensures KeepsKeys(s.authenticators, Apply(p, s, a).authenticators)
  {
    if OfRequest(a) && a.r in s.requests { RequestEffect(p, s, a, s.requests[a.r]); }
  }

  /** Verified requests come from a check, commits from a verified request. */
  lemma ProofOrigins(p: Provider, s: State, a: Action)
    requires ProofsFine(p, s)
    ensures
      var t := Apply(p, s, a);
      && (forall r | r in t.requests && t.requests[r].Verified? && !(r in s.requests && t.requests[r] == s.requests[r]) ::
            && a == Check(r)
            && Proven(p, s.authenticators, Commit(t.requests[r].challenge, t.requests[r].proof, t.requests[r].claims)))
      && (t.commits == s.commits
          || (|t.commits| == |s.commits| + 1 && t.commits[..|s.commits|] == s.commits
              && Proven(p, s.authenticators, t.commits[|s.commits|])))
  {
    var t := Apply(p, s, a);
    if a.Check? && a.r in s.requests && s.requests[a.r].Consumed? {
      CheckProves(p, s, a.r, s.requests[a.r]);
    } else if a.AdvanceCounter? && a.r in s.requests && s.requests[a.r].Verified? {
      assert RequestProven(p, s, a.r);
      AdvanceProves(s, a.r, s.requests[a.r]);
    } else if OfRequest(a) && a.r in s.requests {
      RequestEffect(p, s, a, s.requests[a.r]);
    }
  }

  lemma CheckProves(p: Provider, s: State, r: nat, phase: Phase)
    requires phase.Consumed?
    ensures
      var t := CheckStep(p, s, r, phase);
      && t.commits == s.commits
      && (t.requests == s.requests - {r}
          || (r in t.requests && t.requests == s.requests[r := t.requests[r]] && t.requests[r].Verified?
              && Proven(p, s.authenticators, Commit(t.requests[r].challenge, t.requests[r].proof, t.requests[r].claims))))
  {
    var id := phase.proof.credentialId;
    if id in s.authenticators {
      var seen := s.authenticators[id];
      assert KnownAs(s.authenticators, id, seen);
      var claims := p.ceremony(phase.challenge, phase.proof, seen);
      assert claims.Some? ==> Proven(p, s.authenticators, Commit(phase.challenge, phase.proof, claims.value));
    }
  }

  lemma AdvanceProves(s: State, r: nat, phase: Phase)
    requires phase.Verified?
    ensures
      var t := AdvanceStep(s, r, phase);
      && (t.commits == s.commits || t.commits == s.commits + [Commit(phase.challenge, phase.proof, phase.claims)])
      && (forall q | q in t.requests && t.requests[q].Verified? :: q in s.requests && t.requests[q] == s.requests[q])
  {
  }

  lemma CommitsProven(p: Provider, s: State, t: State)
    requires ProofsFine(p, s) && KeepsKeys(s.authenticators, t.authenticators)
    requires t.commits == s.commits
      || (|t.commits| == |s.commits| + 1 && t.commits[..|s.commits|] == s.commits
          && Proven(p, s.authenticators, t.commits[|s.commits|]))
    ensures forall i | 0 <= i < |t.commits| :: Proven(p, t.authenticators, t.commits[i])
  {
    forall i | 0 <= i < |t.commits|
      ensures Proven(p, t.authenticators, t.commits[i])
    {
      assert i < |s.commits| ==> t.commits[i] == s.commits[i];
      ProvenStays(p, s.authenticators, t.authenticators, t.commits[i]);
    }
  }

  lemma ProofsApply(p: Provider, s: State, a: Action)
    requires ProofsFine(p, s)
    ensures ProofsFine(p, Apply(p, s, a))
  {
    var t := Apply(p, s, a);
    KeysApply(p, s, a);
    ProofOrigins(p, s, a);
    forall r
      ensures RequestProven(p, t, r)
    {
      assert RequestProven(p, s, r);
      if r in t.requests && t.requests[r].Verified? {
        var x := Commit(t.requests[r].challenge, t.requests[r].proof, t.requests[r].claims);
        ProvenStays(p, s.authenticators, t.authenticators, x);
      }
    }
    CommitsProven(p, s, t);
  }

  // ----- the audit log underneath --------------------------------------------------------------

  /** Each step makes at most one step of the audit log, so the log stays sound. */
  lemma LogApply(p: Provider, s: State, a: Action)
    requires AuditLog.Honest(p.log) && AuditLog.Sound(p.log, s.log)
    ensures AuditLog.Sound(p.log, Apply(p, s, a).log)
  {
    if a.OtherWriter? {
      AuditLog.SoundApply(p.log, s.log, a.a);
    } else if a.ReadHead? {
      AuditLog.SoundApply(p.log, s.log, AuditLog.ReadHeadHashed(a.r, p.domain));
    } else if a.Append? {
      AuditLog.SoundApply(p.log, s.log, AuditLog.Insert(a.r));
    } else if a.SealEvent? {
      if a.r in s.requests && s.requests[a.r].Issued? && ValidTimestamp(p.stamp(a.now)) {
        var event := SuccessEvent(p, s.requests[a.r].sealed, p.stamp(a.now));
        AuditLog.SoundApply(p.log, s.log, AuditLog.SealFields(a.r, event, a.device));
      }
    }
  }

  // ----- every run -----------------------------------------------------------------------------

  ghost predicate Sound(p: Provider, s: State) {
    && ChallengesFine(s.challenges, s.requests, s.returned)
    && Increasing(s.commits) && Remembered(s.authenticators, s.commits)
    && EvidenceFine(p, s)
    && ProofsFine(p, s)
    && AuditLog.Sound(p.log, s.log)
  }

  lemma {:induction false} EveryRunIsSound(p: Provider, actions: seq<Action>)
    requires AuditLog.Honest(p.log)
    ensures Sound(p, Run(p, Initial, actions))
  {
    if actions != [] {
      var s, a := Run(p, Initial, actions[..|actions| - 1]), actions[|actions| - 1];
      EveryRunIsSound(p, actions[..|actions| - 1]);
      ChallengesApply(p, s, a);
      CountersApply(p, s, a);
      EvidenceApply(p, s, a);
      ProofsApply(p, s, a);
      LogApply(p, s, a);
    }
  }

  function CommitOf(s: State, i: nat): Commit
    requires i < |s.returned| && s.returned[i].commit < |s.commits|
  {
    s.commits[s.returned[i].commit]
  }

  /** Whatever the clients, the other writers and the failures do:
      a challenge backs at most one returned assertion;
      each returned assertion stems from a counter update of its own, and that from a
      ceremony that succeeded against the registered subject and key;
      those of one credential carry strictly increasing counters in the order of these
      updates;
      and each is covered by an event in the audit table, with its event id and its digest. */
  lemma EveryAssertionIsAccountedFor(p: Provider, actions: seq<Action>)
    requires AuditLog.Honest(p.log)
    ensures
      var s := Run(p, Initial, actions);
      && OncePerChallenge(s.returned)
      && (forall i | 0 <= i < |s.returned| ::
            s.returned[i].commit < |s.commits| && CommitOf(s, i).challenge == s.returned[i].challenge)
      && (forall i, j | 0 <= i < |s.returned| && 0 <= j < |s.returned| && i != j ::
            s.returned[i].commit != s.returned[j].commit)
      && (forall i, j | 0 <= i < |s.returned| && 0 <= j < |s.returned| ::
            s.returned[i].commit < s.returned[j].commit && CommitOf(s, i).CredentialId() == CommitOf(s, j).CredentialId()
            ==> CommitOf(s, i).Counter() < CommitOf(s, j).Counter())
      && (forall i | 0 <= i < |s.returned| ::
            IssuedFor(p, s.returned[i].sealed, CommitOf(s, i).claims) && Audited(p, s.log.table, s.returned[i].sealed))
      && (forall i | 0 <= i < |s.commits| :: Proven(p, s.authenticators, s.commits[i]))
  {
    EveryRunIsSound(p, actions);
    var s := Run(p, Initial, actions);
    forall i | 0 <= i < |s.returned|
      ensures s.returned[i].commit < |s.commits| && CommitOf(s, i).challenge == s.returned[i].challenge
      ensures IssuedFor(p, s.returned[i].sealed, CommitOf(s, i).claims) && Audited(p, s.log.table, s.returned[i].sealed)
    {
      assert ReturnedFine(p, s.commits, s.log.table, s.returned[i]);
    }
  }
}
